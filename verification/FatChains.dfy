/** Cluster chains in a FAT, seen as a table `fat` of links indexed by cluster number:
    what a chain is, who owns which cluster, and what the allocator's updates do to both.
    A value below 2 is not a link, a value of `|fat|` or more ends a chain. */
module FatChains {
  /** What `put_fat(.., 0xFFFFFFFF)` leaves in the 28 bits of an entry. */
  const EOC := 0x0FFF_FFFF

  ghost predicate Cluster(fat: seq<nat>, c: nat) { 2 <= c < |fat| }

  /** `cs` is the chain that starts at its first cluster: each entry links to the next cluster
      and the last one holds an end mark. */
  ghost predicate IsChain(fat: seq<nat>, cs: seq<nat>) {
    && |cs| > 0
    && (forall i :: 0 <= i < |cs| ==> Cluster(fat, cs[i]))
    && (forall i :: 0 <= i < |cs| - 1 ==> fat[cs[i]] == cs[i + 1])
    && fat[cs[|cs| - 1]] >= |fat|
  }

  /** A chain of no cluster is written as the empty sequence, as `sclust == 0` is. */
  ghost predicate ChainOrNone(fat: seq<nat>, cs: seq<nat>) { cs == [] || IsChain(fat, cs) }

  /** A chain that ends never meets itself. */
  lemma {:induction false} ChainDistinct(fat: seq<nat>, cs: seq<nat>, i: nat, j: nat)
    requires IsChain(fat, cs) && i < j < |cs|
    ensures cs[i] != cs[j]
    decreases |cs| - j
  {
    assert Cluster(fat, cs[i + 1]);
    if j + 1 < |cs| {
      ChainDistinct(fat, cs, i + 1, j + 1);
    }
  }

  /** A chain is determined by any of its clusters and the table. */
  lemma {:induction false} ChainsMeet(fat: seq<nat>, a: seq<nat>, b: seq<nat>, i: nat, j: nat)
    requires IsChain(fat, a) && IsChain(fat, b) && i < |a| && j < |b| && a[i] == b[j]
    ensures a[i..] == b[j..]
    decreases |a| - i
  {
    assert i + 1 < |a| ==> Cluster(fat, a[i + 1]);
    assert j + 1 < |b| ==> Cluster(fat, b[j + 1]);
    if i + 1 < |a| && j + 1 < |b| {
      ChainsMeet(fat, a, b, i + 1, j + 1);
      assert a[i..] == [a[i]] + a[i + 1..];
      assert b[j..] == [b[j]] + b[j + 1..];
    }
  }

  /** Every entry of a chain is in use. */
  lemma ChainInUse(fat: seq<nat>, cs: seq<nat>, i: nat)
    requires IsChain(fat, cs) && i < |cs|
    ensures fat[cs[i]] >= 2
  {
    if i < |cs| - 1 {
      assert Cluster(fat, cs[i + 1]);
    }
  }

  /** A chain survives every change of the table that keeps its own entries. */
  lemma ChainFrame(fat: seq<nat>, fat': seq<nat>, cs: seq<nat>)
    requires IsChain(fat, cs) && |fat'| == |fat|
    requires forall c :: c in cs ==> fat'[c] == fat[c]
    ensures IsChain(fat', cs)
  {
    forall i | 0 <= i < |cs| ensures Cluster(fat', cs[i]) && fat'[cs[i]] == fat[cs[i]] {
      assert Cluster(fat, cs[i]);
      assert cs[i] in cs;
    }
  }

  // ---------------------------------------------------------------- counting free entries

  /** The number of zero entries among clusters `2 .. k`. */
  ghost function FreeUpTo(fat: seq<nat>, k: nat): (n: nat)
    requires k <= |fat|
    ensures n <= if k < 2 then 0 else k - 2
  {
    if k <= 2 then 0 else FreeUpTo(fat, k - 1) + (if fat[k - 1] == 0 then 1 else 0)
  }

  /** The number of free clusters of the volume. */
  ghost function FreeCount(fat: seq<nat>): (n: nat) { FreeUpTo(fat, |fat|) }

  ghost function Weight(v: nat): (w: nat) { if v == 0 then 1 else 0 }

  lemma {:induction false} FreeUpToSet(fat: seq<nat>, c: nat, v: nat, k: nat)
    requires Cluster(fat, c) && k <= |fat|
    ensures FreeUpTo(fat[c := v], k) == FreeUpTo(fat, k) + (if c < k then Weight(v) - Weight(fat[c]) else 0)
  {
    if k > 2 {
      FreeUpToSet(fat, c, v, k - 1);
    }
  }

  lemma FreeCountSet(fat: seq<nat>, c: nat, v: nat)
    requires Cluster(fat, c)
    ensures FreeCount(fat[c := v]) == FreeCount(fat) + Weight(v) - Weight(fat[c])
  {
    FreeUpToSet(fat, c, v, |fat|);
  }

  lemma FreeCountBound(fat: seq<nat>)
    ensures |fat| >= 2 ==> FreeCount(fat) <= |fat| - 2
  {
  }

  lemma {:induction false} NoneFree(fat: seq<nat>, k: nat)
    requires k <= |fat|
    ensures FreeUpTo(fat, k) == 0 <==> forall c: nat :: 2 <= c < k ==> fat[c] != 0
  {
    if k > 2 {
      NoneFree(fat, k - 1);
    }
  }

  // ---------------------------------------------------------------- freeing a chain

  /** What the loop of `remove_chain` does to any table, well formed or not: it frees the entry
      it stands on and follows the old link, until an end mark, a free entry or the value 1.
      It terminates since every round that goes on turns one used entry into a free one. */
  ghost function FreeFrom(fat: seq<nat>, c: nat): (r: (seq<nat>, bool))
    requires Cluster(fat, c)
    ensures |r.0| == |fat|
    decreases |fat| - FreeCount(fat)
  {
    if fat[c] == 0 then (fat, true)
    else if fat[c] == 1 then (fat, false)
    else if fat[c] >= |fat| then (fat[c := 0], true)
    else
      FreeCountSet(fat, c, 0);
      FreeFrom(fat[c := 0], fat[c])
  }

  /** The table with all entries of `cs` free. */
  ghost function Zeroed(fat: seq<nat>, cs: seq<nat>): (r: seq<nat>)
    ensures |r| == |fat|
    ensures forall c :: 0 <= c < |fat| ==> r[c] == if c in cs then 0 else fat[c]
  {
    seq(|fat|, c requires 0 <= c < |fat| => if c in cs then 0 else fat[c])
  }

  /** On a chain, `remove_chain` frees exactly its clusters. */
  lemma {:induction false} FreeFromChain(fat: seq<nat>, cs: seq<nat>)
    requires IsChain(fat, cs)
    ensures FreeFrom(fat, cs[0]) == (Zeroed(fat, cs), true)
    decreases |cs|
  {
    var c := cs[0];
    ChainInUse(fat, cs, 0);
    var fat1 := fat[c := 0];
    FreeCountSet(fat, c, 0);
    if |cs| == 1 {
      assert Zeroed(fat, cs) == fat1;
    } else {
      FreeFirst(fat, cs);
      hide IsChain, Zeroed;
      FreeFromChain(fat1, cs[1..]);
    }
  }

  /** The rest of a chain whose first cluster was freed. */
  lemma FreeFirst(fat: seq<nat>, cs: seq<nat>)
    requires IsChain(fat, cs) && |cs| > 1
    ensures var fat1, tl := fat[cs[0] := 0], cs[1..];
            IsChain(fat1, tl) && tl[0] == fat[cs[0]] && Zeroed(fat1, tl) == Zeroed(fat, cs)
  {
    var c, tl := cs[0], cs[1..];
    var fat1 := fat[c := 0];
    assert forall i :: 0 <= i < |tl| ==> tl[i] == cs[i + 1];
    forall j | 0 < j < |cs| ensures cs[j] != c {
      ChainDistinct(fat, cs, 0, j);
    }
    assert IsChain(fat1, tl);
    hide IsChain;
    assert cs == [c] + tl;
    assert Zeroed(fat1, tl) == Zeroed(fat, cs);
  }

  // ---------------------------------------------------------------- growing and cutting a chain

  /** `(fat', cs')` comes from `(fat, cs)` by linking free clusters to the end of the chain;
      no other entry of the table changes. */
  ghost predicate Grown(fat: seq<nat>, cs: seq<nat>, fat': seq<nat>, cs': seq<nat>) {
    && |fat'| == |fat|
    && cs <= cs'
    && ChainOrNone(fat', cs')
    && (forall i :: |cs| <= i < |cs'| ==> Cluster(fat, cs'[i]) && fat[cs'[i]] == 0)
    && (forall c :: 0 <= c < |fat| && c !in cs'[|cs|..] && !(|cs| > 0 && c == cs[|cs| - 1] && |cs'| > |cs|)
          ==> fat'[c] == fat[c])
  }

  /** Entries in use outside the chain are as they were. */
  ghost predicate OthersKept(fat: seq<nat>, cs: seq<nat>, fat': seq<nat>) {
    |fat'| == |fat| && forall c :: 0 <= c < |fat| && fat[c] != 0 && c !in cs ==> fat'[c] == fat[c]
  }

  lemma GrownKeepsOthers(fat: seq<nat>, cs: seq<nat>, fat': seq<nat>, cs': seq<nat>)
    requires Grown(fat, cs, fat', cs')
    ensures OthersKept(fat, cs, fat')
  {
    forall c | 0 <= c < |fat| && fat[c] != 0 && c !in cs ensures c !in cs'[|cs|..] && fat'[c] == fat[c] {
      assert forall i :: 0 <= i < |cs'[|cs|..]| ==> cs'[|cs|..][i] == cs'[|cs| + i];
    }
  }

  lemma GrownRefl(fat: seq<nat>, cs: seq<nat>)
    requires ChainOrNone(fat, cs)
    ensures Grown(fat, cs, fat, cs)
  {
  }

  /** The table after `create_chain` took the free cluster `r`, linked from `clst` unless that is 0. */
  ghost function Created(fat: seq<nat>, clst: nat, r: nat): (fat': seq<nat>)
    requires r < |fat| && clst < |fat|
    ensures |fat'| == |fat|
  {
    if clst == 0 then fat[r := EOC] else fat[r := EOC][clst := r]
  }

  ghost function LastOr0(cs: seq<nat>): (c: nat) { if cs == [] then 0 else cs[|cs| - 1] }

  lemma CreatedGrows(fat: seq<nat>, cs: seq<nat>, r: nat)
    requires |fat| <= EOC && ChainOrNone(fat, cs) && Cluster(fat, r) && fat[r] == 0
    ensures LastOr0(cs) < |fat| || cs == []
    ensures Grown(fat, cs, Created(fat, LastOr0(cs), r), cs + [r])
  {
    var fat' := Created(fat, LastOr0(cs), r);
    var cs' := cs + [r];
    assert cs'[|cs|..] == [r];
    forall i | 0 <= i < |cs| ensures cs[i] != r && (i < |cs| - 1 ==> cs[i] != LastOr0(cs)) {
      ChainInUse(fat, cs, i);
      if i < |cs| - 1 {
        ChainDistinct(fat, cs, i, |cs| - 1);
      }
    }
    assert forall i :: 0 <= i < |cs'| - 1 ==> fat'[cs'[i]] == cs'[i + 1];
  }

  lemma GrownTrans(f0: seq<nat>, c0: seq<nat>, f1: seq<nat>, c1: seq<nat>, f2: seq<nat>, c2: seq<nat>)
    requires Grown(f0, c0, f1, c1) && Grown(f1, c1, f2, c2) && ChainOrNone(f0, c0)
    ensures Grown(f0, c0, f2, c2)
  {
    hide IsChain;
    forall i | |c0| <= i < |c2| ensures Cluster(f0, c2[i]) && f0[c2[i]] == 0 {
      if |c1| <= i && |c1| > |c0| > 0 {
        ChainInUse(f1, c1, |c0| - 1);
      }
      assert i < |c1| ==> c2[i] == c1[i];
    }
    assert c2[|c0|..] == c1[|c0|..] + c2[|c1|..];
  }

  lemma OthersTrans(f0: seq<nat>, c0: seq<nat>, f1: seq<nat>, c1: seq<nat>, f2: seq<nat>)
    requires Grown(f0, c0, f1, c1) && OthersKept(f1, c1, f2)
    ensures OthersKept(f0, c0, f2)
  {
    GrownKeepsOthers(f0, c0, f1, c1);
    forall c | 0 <= c < |f0| && f0[c] != 0 && c !in c0 ensures c !in c1 {
      assert forall i :: 0 <= i < |c0| ==> c1[i] == c0[i];
    }
  }

  /** Some entry holds the value 1, which no chain does. */
  ghost predicate Damaged(fat: seq<nat>) { exists c: nat :: Cluster(fat, c) && fat[c] == 1 }

  /** Growing a chain brings no damage. */
  lemma DamageIsOld(fat: seq<nat>, cs: seq<nat>, fat': seq<nat>, cs': seq<nat>)
    requires Grown(fat, cs, fat', cs')
    ensures Damaged(fat') ==> Damaged(fat)
  {
    if Damaged(fat') {
      var c: nat :| Cluster(fat', c) && fat'[c] == 1;
      forall i | 0 <= i < |cs'| ensures cs'[i] != c {
        ChainInUse(fat', cs', i);
      }
      assert |cs| > 0 ==> cs[|cs| - 1] == cs'[|cs| - 1];
      assert Cluster(fat, c) && fat[c] == 1;
    }
  }

  /** The table after `remove_chain(cs[k], cs[k-1])`. */
  ghost function CutFat(fat: seq<nat>, cs: seq<nat>, k: nat): (fat': seq<nat>)
    requires k < |cs| && (k > 0 ==> cs[k - 1] < |fat|)
    ensures |fat'| == |fat|
  {
    if k == 0 then Zeroed(fat, cs) else Zeroed(fat[cs[k - 1] := EOC], cs[k..])
  }

  /** Cutting leaves the first `k` clusters as a chain and frees the others. */
  lemma CutLeavesChain(fat: seq<nat>, cs: seq<nat>, k: nat)
    requires |fat| <= EOC && IsChain(fat, cs) && 0 < k < |cs|
    ensures Cluster(fat, cs[k - 1])
    ensures IsChain(fat[cs[k - 1] := EOC], cs[k..])
    ensures IsChain(CutFat(fat, cs, k), cs[..k])
  {
    var marked := fat[cs[k - 1] := EOC];
    var tl := cs[k..];
    forall i | 0 <= i < |cs| ensures i != k - 1 ==> cs[i] != cs[k - 1] {
      if i < k - 1 { ChainDistinct(fat, cs, i, k - 1); }
      if i > k - 1 { ChainDistinct(fat, cs, k - 1, i); }
    }
    assert forall i :: 0 <= i < |tl| ==> tl[i] == cs[k + i];
    assert IsChain(marked, tl);
    var fat' := CutFat(fat, cs, k);
    var hd := cs[..k];
    forall i | 0 <= i < k ensures cs[i] !in tl && fat'[hd[i]] == marked[cs[i]] {
      if cs[i] in tl {
        var j :| 0 <= j < |tl| && tl[j] == cs[i];
        ChainDistinct(fat, cs, i, k + j);
      }
    }
  }

  // ---------------------------------------------------------------- counting by a full scan

  /** The number of zero entries among the first `k`, the two reserved ones included. */
  ghost function ZerosUpTo(fat: seq<nat>, k: nat): (n: nat)
    requires k <= |fat|
  {
    if k == 0 then 0 else ZerosUpTo(fat, k - 1) + Weight(fat[k - 1])
  }

  /** A scan of the whole table counts the free clusters and those of the two reserved entries that are zero. */
  lemma {:induction false} ZerosAreFree(fat: seq<nat>, k: nat)
    requires 2 <= k <= |fat|
    ensures ZerosUpTo(fat, k) == FreeUpTo(fat, k) + Weight(fat[0]) + Weight(fat[1])
  {
    if k > 2 {
      ZerosAreFree(fat, k - 1);
    } else {
      assert ZerosUpTo(fat, 1) == Weight(fat[0]);
    }
  }
}
