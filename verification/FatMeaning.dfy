/** What the tables of the FAT code stand for, in numbers: the bytes of an entry, the free clusters, and the entries
    after a cluster was linked in or a chain was cut or freed. */
module FatMeaning {
  import opened Bytes
  import opened FatChains
  import opened Volumes
  import SmallFats
  import Division

  // ---------------------------------------------------------------- bytes

  /** Words are stored with the low byte first. */
  lemma LowFirst(s: seq<byte>, i: nat)
    requires i + 2 <= |s|
    ensures LdWord(s, i) % 0x100 == s[i] && LdWord(s, i) / 0x100 == s[i + 1]
    ensures i + 4 <= |s| ==> LdDword(s, i) % 0x1_0000 == LdWord(s, i) && LdDword(s, i) / 0x1_0000 == LdWord(s, i + 2)
  {
  }

  /** Entry `c` of the FAT is the dword at byte `4 * c` from the start of the first FAT, without its four high bits. */
  lemma FatBytes(g: Geometry, view: seq<Sector>, c: nat)
    requires g.Wf() && |view| == g.nsect && c < g.nFatent
    ensures g.fatbase <= g.fatbase + 4 * c / 512 < |view| && 4 * c % 512 + 4 <= 512
    ensures var t, p := view[g.fatbase + 4 * c / 512], 4 * c % 512;
            && FatOf(g, view)[c] ==
                 t[p] as int + 0x100 * t[p + 1] as int + 0x1_0000 * t[p + 2] as int
                   + 0x100_0000 * (t[p + 3] as int % 16)
            && TopNibble(t, c % 128) == t[p + 3] / 16
  {
    FatAt(g, view, c);
    EntryPlace(c);
    var t, p := view[g.fatbase + c / 128], 4 * (c % 128);
    hide FatOf;
    DwordNibbles(t[p], t[p + 1], t[p + 2], t[p + 3]);
  }

  lemma EntryPlace(c: nat)
    ensures 4 * c / 512 == c / 128 && 4 * c % 512 == 4 * (c % 128)
  {
    assert 4 * c == 512 * (c / 128) + 4 * (c % 128);
  }

  lemma DwordNibbles(a: byte, b: byte, c: byte, d: byte)
    ensures var v: int := (a as int) + 0x100 * (b as int) + 0x1_0000 * (c as int) + 0x100_0000 * (d as int);
            v % 0x1000_0000 == (a as int) + 0x100 * (b as int) + 0x1_0000 * (c as int) + 0x100_0000 * (d as int % 16)
            && v / 0x1000_0000 == d as int / 16
  {
    assert d as int == 16 * (d as int / 16) + d as int % 16;
  }

  /** The half bytes of a table, the low one of each byte first. */
  function Nibble(t: seq<byte>, k: nat): (v: int)
    requires k / 2 < |t|
  {
    if k % 2 == 0 then t[k / 2] as int % 16 else t[k / 2] as int / 16
  }

  /** A 12-bit entry is three half bytes in a row, the lowest first. */
  lemma Entry12Is(t: seq<byte>, c: nat)
    requires SmallFats.Place(c) + 1 < |t|
    ensures 3 * c + 2 < 2 * |t|
    ensures SmallFats.Entry12(t, c) == Nibble(t, 3 * c) + 0x10 * Nibble(t, 3 * c + 1) + 0x100 * Nibble(t, 3 * c + 2)
  {
    NibblePlaces(c);
    JoinNibbles(c, t[SmallFats.Place(c)], t[SmallFats.Place(c) + 1]);
  }

  /** A 16-bit entry is two bytes. */
  lemma Entry16Is(t: seq<byte>, c: nat)
    requires 2 * c + 1 < |t|
    ensures SmallFats.Entry16(t, c) == t[2 * c] as int + 0x100 * t[2 * c + 1] as int
  {
  }

  lemma NibblePlaces(c: nat)
    ensures c % 2 == 0 ==>
      3 * c % 2 == 0 && 3 * c / 2 == (3 * c + 1) / 2 == c + c / 2 && (3 * c + 2) / 2 == c + c / 2 + 1
    ensures c % 2 == 1 ==>
      3 * c % 2 == 1 && 3 * c / 2 == c + c / 2 && (3 * c + 1) / 2 == (3 * c + 2) / 2 == c + c / 2 + 1
  {
  }

  lemma JoinNibbles(c: nat, x: byte, y: byte)
    ensures SmallFats.Join(c, x, y) == if c % 2 == 0 then (x as int) + 0x100 * (y as int % 16)
                                       else x as int / 16 + 0x10 * (y as int)
  {
    var w: nat := (x as int) + 0x100 * (y as int);
    if c % 2 == 0 {
      LowPart(x, y);
    } else {
      HighPart(x, y);
    }
  }

  lemma LowPart(x: nat, y: nat)
    requires x < 0x100
    ensures (x + 0x100 * y) % 0x1000 == x + 0x100 * (y % 16)
  {
    assert x + 0x100 * y == 0x1000 * (y / 16) + (x + 0x100 * (y % 16));
    Division.Unique(0x1000, y / 16, x + 0x100 * (y % 16));
  }

  lemma HighPart(x: nat, y: nat)
    ensures (x + 0x100 * y) / 16 == x / 16 + 0x10 * y
  {
    assert x + 0x100 * y == 16 * (x / 16 + 0x10 * y) + x % 16;
    Division.Unique(16, x / 16 + 0x10 * y, x % 16);
  }

  // ---------------------------------------------------------------- free clusters

  ghost function FreeSet(fat: seq<nat>, k: nat): (s: set<int>)
    requires k <= |fat|
  {
    set c: int | 2 <= c < k && fat[c] == 0
  }

  /** The count of free clusters is the number of clusters, from 2 on, whose entry is 0. */
  lemma {:induction false} FreeCountIs(fat: seq<nat>, k: nat)
    requires k <= |fat|
    ensures FreeUpTo(fat, k) == |FreeSet(fat, k)|
    ensures k == |fat| ==> FreeCount(fat) == |set c: int | 2 <= c < |fat| && fat[c] == 0|
  {
    if k > 2 {
      FreeCountIs(fat, k - 1);
      assert FreeSet(fat, k) == FreeSet(fat, k - 1) + if fat[k - 1] == 0 then {k - 1} else {};
    } else {
      assert FreeSet(fat, k) == {};
    }
  }

  // ---------------------------------------------------------------- entries after a change

  /** The new cluster gets the end mark 0x0FFFFFFF, the last one of the chain its number. */
  lemma CreatedEntries(fat: seq<nat>, clst: nat, r: nat, c: nat)
    requires r < |fat| && clst < |fat| && c < |fat| && clst != r
    ensures Created(fat, clst, r)[c] == if c == r then 0x0FFF_FFFF else if clst != 0 && c == clst then r else fat[c]
  {
  }

  /** The clusters from the `k`th on are free, and the one in front of them has the end mark. */
  lemma CutEntries(fat: seq<nat>, cs: seq<nat>, k: nat, c: nat)
    requires k < |cs| && (k > 0 ==> cs[k - 1] < |fat|) && c < |fat|
    ensures CutFat(fat, cs, k)[c] ==
            if c in cs[k..] then 0 else if k > 0 && c == cs[k - 1] then 0x0FFF_FFFF else fat[c]
  {
    assert k == 0 ==> cs[k..] == cs;
  }

  // ---------------------------------------------------------------- freeing, in any table

  /** The clusters that links lead through, each once. */
  ghost predicate Path(fat: seq<nat>, cs: seq<nat>) {
    && |cs| > 0 && (forall i :: 0 <= i < |cs| ==> Cluster(fat, cs[i]))
    && (forall i, j :: 0 <= i < j < |cs| ==> cs[i] != cs[j])
    && forall i :: 0 <= i < |cs| - 1 ==> fat[cs[i]] == cs[i + 1]
  }

  /** Where a path ends: at a free entry, at the value 1, at an end mark, or in a link to a free cluster or back into
      the path. */
  ghost predicate Stops(fat: seq<nat>, cs: seq<nat>)
    requires Path(fat, cs)
  {
    var v := fat[cs[|cs| - 1]];
    v < 2 || v >= |fat| || v in cs || fat[v] == 0
  }

  /** Every table leads from every cluster along such a path. */
  lemma {:induction false} PathFrom(fat: seq<nat>, c: nat) returns (cs: seq<nat>)
    requires Cluster(fat, c)
    ensures Path(fat, cs) && Stops(fat, cs) && cs[0] == c
    ensures fat[c] != 0 ==> forall i :: 0 <= i < |cs| ==> fat[cs[i]] != 0
    decreases |fat| - FreeCount(fat)
  {
    var v := fat[c];
    cs := [c];
    if 2 <= v < |fat| && v != c && fat[v] != 0 {
      var fat1 := fat[c := 0];
      FreeCountSet(fat, c, 0);
      FreeCountBound(fat1);
      var tl := PathFrom(fat1, v);
      forall i | 0 <= i < |tl| ensures tl[i] != c && fat[tl[i]] == fat1[tl[i]] {
        assert fat1[tl[i]] != 0;
      }
      cs := [c] + tl;
      assert fat[cs[|cs| - 1]] == fat1[tl[|tl| - 1]];
    }
  }

  /** Freeing frees the clusters of the path, and fails just if the path ends at the value 1, which stays. */
  lemma {:induction false} FreeFromPath(fat: seq<nat>, cs: seq<nat>)
    requires Path(fat, cs) && Stops(fat, cs)
    ensures FreeFrom(fat, cs[0]) == if fat[cs[|cs| - 1]] == 1 then (Zeroed(fat, cs[..|cs| - 1]), false)
                                    else (Zeroed(fat, cs), true)
    decreases |cs|
  {
    var c := cs[0];
    if |cs| == 1 {
      FreeFromOne(fat, c);
      assert cs == [c] && cs[..0] == [];
      assert Zeroed(fat, []) == fat;
    } else {
      var fat1, tl := fat[c := 0], cs[1..];
      PathRest(fat, cs);
      FreeFromPath(fat1, tl);
      hide Path, Stops;
      ZeroedMore(fat, cs, tl);
      ZeroedMore(fat, cs[..|cs| - 1], tl[..|tl| - 1]);
    }
  }

  lemma FreeFromOne(fat: seq<nat>, c: nat)
    requires Cluster(fat, c) && (fat[c] < 2 || fat[c] >= |fat| || fat[c] == c || fat[fat[c]] == 0)
    ensures FreeFrom(fat, c) == if fat[c] == 1 then (fat, false) else (Zeroed(fat, [c]), true)
  {
    var fat1, v := fat[c := 0], fat[c];
    assert Zeroed(fat, [c]) == fat1 && (v == 0 ==> fat1 == fat);
    hide Zeroed;
    if Cluster(fat, v) {
      FreeCountSet(fat, c, 0);
      assert FreeFrom(fat1, v) == (fat1, true);
    }
  }

  lemma ZeroedMore(fat: seq<nat>, cs: seq<nat>, tl: seq<nat>)
    requires |cs| > 0 && cs[0] < |fat| && tl == cs[1..]
    ensures Zeroed(fat[cs[0] := 0], tl) == Zeroed(fat, cs)
  {
    assert cs == [cs[0]] + tl;
  }

  lemma PathRest(fat: seq<nat>, cs: seq<nat>)
    requires Path(fat, cs) && Stops(fat, cs) && |cs| > 1
    ensures var fat1, tl := fat[cs[0] := 0], cs[1..];
            && Path(fat1, tl) && Stops(fat1, tl) && fat1[tl[|tl| - 1]] == fat[cs[|cs| - 1]]
            && fat[cs[0]] == tl[0] && 2 <= tl[0] < |fat|
  {
    var tl := cs[1..];
    assert forall i :: 0 <= i < |tl| ==> tl[i] == cs[i + 1] && tl[i] != cs[0];
    assert fat[cs[0]] == cs[1];
  }
}
