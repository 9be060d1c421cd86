/** The cluster link map of fast seek, as a value, and its lookup `clmt_clust`. */
module LinkTable {
  import opened Volumes
  import opened FileLayout

  /** The length of the first fragment of a chain: clusters that follow each other by number. */
  ghost function FragLen(cs: seq<nat>): (n: nat)
    requires cs != []
    ensures 0 < n <= |cs|
  {
    if |cs| > 1 && cs[1] == cs[0] + 1 then 1 + FragLen(cs[1..]) else 1
  }

  /** Length and first cluster of every fragment, as the table lists them. */
  ghost function Fragments(cs: seq<nat>): (t: seq<nat>)
    ensures |t| % 2 == 0 && (cs != [] ==> |t| >= 2)
    decreases |cs|
  {
    if cs == [] then [] else [FragLen(cs), cs[0]] + Fragments(cs[FragLen(cs)..])
  }

  lemma {:induction false} FragRun(cs: seq<nat>, i: nat)
    requires cs != [] && i < FragLen(cs)
    ensures cs[i] == cs[0] + i
    decreases |cs|
  {
    if i > 0 {
      FragRun(cs[1..], i - 1);
    }
  }

  /** The clusters that a list of lengths and first clusters stands for. */
  ghost function Expanded(t: seq<nat>): (cs: seq<nat>) {
    if |t| < 2 then [] else seq(t[0], i requires 0 <= i < t[0] => t[1] + i) + Expanded(t[2..])
  }

  /** No fragment is empty, and none goes on where the one before it ends. */
  ghost predicate Longest(t: seq<nat>) {
    |t| >= 2 ==> t[0] > 0 && (|t| >= 4 ==> t[3] != t[1] + t[0]) && Longest(t[2..])
  }

  /** The fragments are the chain, in the fewest pieces. */
  lemma {:induction false} FragmentsExpand(cs: seq<nat>)
    ensures Expanded(Fragments(cs)) == cs && Longest(Fragments(cs))
    decreases |cs|
  {
    if cs != [] {
      var n, t := FragLen(cs), Fragments(cs);
      var tl := cs[n..];
      FragmentsExpand(tl);
      assert t[2..] == Fragments(tl);
      forall i | 0 <= i < n ensures cs[i] == cs[0] + i {
        FragRun(cs, i);
      }
      assert seq(n, i requires 0 <= i < n => cs[0] + i) == cs[..n];
      if tl != [] {
        FragEnd(cs);
        assert t[3] == t[2..][1];
      }
    }
  }

  lemma {:induction false} FragEnd(cs: seq<nat>)
    requires cs != [] && FragLen(cs) < |cs|
    ensures cs[FragLen(cs)] != cs[0] + FragLen(cs)
    decreases |cs|
  {
    if |cs| > 1 && cs[1] == cs[0] + 1 {
      FragEnd(cs[1..]);
    }
  }

  lemma FragStep(cs: seq<nat>, k: nat)
    requires k < |cs|
    ensures FragLen(cs[k..]) == if k + 1 < |cs| && cs[k + 1] == cs[k] + 1 then 1 + FragLen(cs[k + 1..]) else 1
  {
    assert cs[k..][1..] == cs[k + 1..];
  }

  /** The array holds the table of the chain: a word with the number of words, the fragments, and a zero. */
  ghost predicate IsTable(tbl: array<nat>, cs: seq<nat>)
    reads tbl
  {
    2 <= tbl.Length && 1 <= tbl[0] <= tbl.Length && tbl[1..tbl[0]] == Fragments(cs) + [0]
  }

  /** `clmt_clust`: the cluster of byte `ofs` of the file, by the table. */
  method ClmtClust(g: Geometry, tbl: array<nat>, ofs: nat, ghost cs: seq<nat>) returns (c: nat)
    requires g.Wf() && IsTable(tbl, cs)
    ensures c == if g.ClusterOf(ofs) < |cs| then cs[g.ClusterOf(ofs)] else 0
  {
    var cl := g.Index(ofs / 512);
    ClusterOfIndex(g, ofs);
    hide Fragments, FragLen, Geometry.Index, Geometry.ClusterOf, Geometry.PowerOfTwo;
    ghost var rest := cs;
    var at := 1;
    assert tbl[1..tbl[0]] == tbl[at..tbl[0]];
    while true
      invariant 1 <= at < tbl[0] && tbl[at..tbl[0]] == Fragments(rest) + [0] && 0 <= cl
      invariant (if cl < |rest| then rest[cl] else 0) == (if g.ClusterOf(ofs) < |cs| then cs[g.ClusterOf(ofs)] else 0)
      decreases |rest|
    {
      TableHead(tbl[at..tbl[0]], rest);
      assert tbl[at] == tbl[at..tbl[0]][0];
      var ncl := tbl[at];
      at := at + 1;
      if ncl == 0 {
        return 0;
      }
      assert tbl[at] == tbl[at - 1..tbl[0]][1];
      if cl < ncl {
        FragRun(rest, cl);
        return cl + tbl[at];
      }
      assert tbl[at + 1..tbl[0]] == tbl[at - 1..tbl[0]][2..];
      cl := cl - ncl;
      at := at + 1;
      rest := rest[ncl..];
    }
  }

  /** The first entry of a table. */
  lemma TableHead(t: seq<nat>, cs: seq<nat>)
    requires t == Fragments(cs) + [0]
    ensures |t| > 0 && (t[0] == 0 <==> cs == [])
    ensures cs != [] ==> |t| > 2 && t[0] == FragLen(cs) && t[1] == cs[0] && t[2..] == Fragments(cs[t[0]..]) + [0]
  {
    if cs != [] {
      var rest := Fragments(cs[FragLen(cs)..]);
      assert Fragments(cs) == [FragLen(cs), cs[0]] + rest;
      TwoOff(FragLen(cs), cs[0], rest + [0]);
      assert t == [FragLen(cs), cs[0]] + (rest + [0]);
    }
  }

  lemma TwoOff(a: nat, b: nat, s: seq<nat>)
    ensures ([a, b] + s)[2..] == s
  {
  }
}
