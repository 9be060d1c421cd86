/** What a store to the device or to the sector buffer does to the bytes of a file. */
module FileBytes {
  import opened Bytes
  import opened FatChains
  import opened Volumes
  import opened FileLayout

  /** `s` with `t` written over it from offset `p` on, longer if need be. */
  function Overwrite(s: seq<byte>, p: nat, t: seq<byte>): (r: seq<byte>)
    requires p <= |s|
    ensures |r| == if p + |t| <= |s| then |s| else p + |t|
  {
    s[..p] + t + (if p + |t| <= |s| then s[p + |t|..] else [])
  }

  lemma OverwriteTwice(s: seq<byte>, p: nat, t: seq<byte>, u: seq<byte>)
    requires p <= |s|
    ensures Overwrite(Overwrite(s, p, t), p + |t|, u) == Overwrite(s, p, t + u)
  {
  }

  lemma OverwriteNothing(s: seq<byte>, p: nat)
    requires p <= |s|
    ensures Overwrite(s, p, []) == s
  {
  }

  /** What was written is there, and what was before and behind it. */
  lemma OverwriteMiddle(s: seq<byte>, p: nat, t: seq<byte>)
    requires p <= |s|
    ensures var r := Overwrite(s, p, t);
            r[p..p + |t|] == t && r[..p] == s[..p] && forall k :: p + |t| <= k < |s| ==> r[k] == s[k]
  {
  }

  /** Byte `i` of the file after `t` was written at `p`. */
  ghost function NewByte(g: Geometry, cs: seq<nat>, a: Cache, p: nat, t: seq<byte>, i: nat): (b: byte)
    requires g.csize > 0
  {
    if p <= i < p + |t| then t[i - p] else ByteOf(g, cs, a, i)
  }

  lemma WroteContent(g: Geometry, cs: seq<nat>, a: Cache, b: Cache, n: nat, p: nat, t: seq<byte>, m: nat)
    requires g.csize > 0 && p <= n && m == (if p + |t| <= n then n else p + |t|)
    requires forall i: nat :: i < m ==> ByteOf(g, cs, b, i) == NewByte(g, cs, a, p, t, i)
    ensures Content(g, cs, b, m) == Overwrite(Content(g, cs, a, n), p, t)
  {
    var l, r := Content(g, cs, b, m), Overwrite(Content(g, cs, a, n), p, t);
    forall i: nat | i < m ensures l[i] == r[i] {
      hide ByteOf;
      assert l[i] == ByteOf(g, cs, b, i);
      assert i < n ==> Content(g, cs, a, n)[i] == ByteOf(g, cs, a, i);
    }
  }

  /** The whole sectors `data` were stored over the file from sector `k` on. */
  ghost predicate Stored(g: Geometry, cs: seq<nat>, a: Cache, b: Cache, lba: nat, data: seq<Sector>) {
    forall s: nat :: Own(g, cs, s) ==> b.At(s) == if lba <= s < lba + |data| then data[s - lba] else a.At(s)
  }

  lemma StoredByte(g: Geometry, fat: seq<nat>, w: nat, f: Fil, a: Cache, b: Cache, p: nat, data: seq<Sector>, i: nat)
    requires Sound(g, fat, w, f, a) && p % 512 == 0 && InFile(g, f.chain, p / 512)
    requires g.Within(p / 512) + |data| <= g.csize
    requires Stored(g, f.chain, a, b, Lba(g, f.chain, p / 512), data) && InFile(g, f.chain, i / 512)
    ensures ByteOf(g, f.chain, b, i) == NewByte(g, f.chain, a, p, Flatten(data), i)
  {
    hide Geometry.DataFits, Geometry.Index, Geometry.Within, Geometry.PowerOfTwo, Own, Lba, Cache.At, IsChain, Sound;
    StoredParts(g, fat, w, f, a);
    var cs, k, m := f.chain, p / 512, i / 512;
    LbaInside(g, cs, m);
    InRun(p, i, |data|);
    if k <= m < k + |data| {
      RunSectors(g, cs, k, |data|);
    } else {
      OutOfRun(g, cs, k, |data|, m);
    }
  }

  lemma StoredParts(g: Geometry, fat: seq<nat>, w: nat, f: Fil, a: Cache)
    requires Sound(g, fat, w, f, a)
    ensures g.Wf() && g.DataFits() && Clusters(g, f.chain) && forall i, j :: 0 <= i < j < |f.chain| ==>
      f.chain[i] != f.chain[j]
  {
    ChainClusters(g, fat, f.chain);
    DistinctChain(fat, f.chain);
  }

  /** Byte `i` lies in the run of `n` sectors from offset `p` on just if its sector does. */
  lemma InRun(p: nat, i: nat, n: nat)
    requires p % 512 == 0
    ensures p <= i < p + n * 512 <==> p / 512 <= i / 512 < p / 512 + n
    ensures p <= i ==> (i - p) / 512 == i / 512 - p / 512 && (i - p) % 512 == i % 512
  {
    var k, m, r := p / 512, i / 512, i % 512;
    assert p == 512 * k && i == 512 * m + r;
    assert p <= i ==> i - p == 512 * (m - k) + r;
  }

  /** A sector of the file outside a run of its sectors lies outside it on the device. */
  lemma OutOfRun(g: Geometry, cs: seq<nat>, k: nat, n: nat, m: nat)
    requires g.Wf() && g.DataFits() && Clusters(g, cs) && InFile(g, cs, k) && g.Within(k) + n <= g.csize
    requires InFile(g, cs, m) && !(k <= m < k + n) && forall i, j :: 0 <= i < j < |cs| ==> cs[i] != cs[j]
    ensures !(Lba(g, cs, k) <= Lba(g, cs, m) < Lba(g, cs, k) + n)
  {
    hide Geometry.DataFits, Geometry.Index, Geometry.Within, Geometry.PowerOfTwo, Lba, Own;
    var d := Lba(g, cs, m) - Lba(g, cs, k);
    if 0 <= d < n {
      RunSector(g, cs, k, d);
      SameCluster(g, k, d);
      LbaInjective(g, cs, m, k + d);
    }
  }

  lemma DistinctChain(fat: seq<nat>, cs: seq<nat>)
    requires ChainOrNone(fat, cs)
    ensures forall i, j :: 0 <= i < j < |cs| ==> cs[i] != cs[j]
  {
    forall i, j | 0 <= i < j < |cs| ensures cs[i] != cs[j] {
      ChainDistinct(fat, cs, i, j);
    }
  }

  /** Whole sectors stored straight to the device. */
  lemma StoredContent(g: Geometry, fat: seq<nat>, w: nat, f: Fil, a: Cache, b: Cache, p: nat, data: seq<Sector>, m: nat)
    requires Sound(g, fat, w, f, a) && p % 512 == 0 && InFile(g, f.chain, p / 512)
    requires 0 < |data| && g.Within(p / 512) + |data| <= g.csize
    requires Stored(g, f.chain, a, b, Lba(g, f.chain, p / 512), data)
    requires p <= f.objsize && m == if p + |data| * 512 <= f.objsize then f.objsize else p + |data| * 512
    ensures Room(g, f.chain, m)
    ensures Content(g, f.chain, b, m) == Overwrite(Content(g, f.chain, a, f.objsize), p, Flatten(data))
  {
    hide Geometry.DataFits, Geometry.Index, Geometry.Within, Geometry.PowerOfTwo, Own, Lba, IsChain, Content, Overwrite;
    SameCluster(g, p / 512, |data| - 1);
    assert (p + |data| * 512 - 1) / 512 == p / 512 + (|data| - 1);
    assert Room(g, f.chain, m);
    forall i: nat | i < m ensures ByteOf(g, f.chain, b, i) == NewByte(g, f.chain, a, p, Flatten(data), i) {
      hide ByteOf, NewByte, Stored;
      RoomFor(g, f.chain, m, i);
      StoredByte(g, fat, w, f, a, b, p, data, i);
    }
    WroteContent(g, f.chain, a, b, f.objsize, p, Flatten(data), m);
  }

  /** The bytes `t` were put into the buffered sector `lba` at offset `o`; of the sector's other bytes those
      below offset `top` are as they were. */
  ghost predicate Buffered(g: Geometry, cs: seq<nat>, a: Cache, b: Cache, lba: nat, o: nat, t: seq<byte>, top: int)
    requires o + |t| <= 512
  {
    && (forall s: nat :: Own(g, cs, s) && s != lba ==> b.At(s) == a.At(s))
    && b.At(lba)[o..o + |t|] == t
    && (forall j :: 0 <= j < 512 && j < top && !(o <= j < o + |t|) ==> b.At(lba)[j] == a.At(lba)[j])
  }

  lemma BufferedByte(g: Geometry, fat: seq<nat>, w: nat, f: Fil, a: Cache, b: Cache, p: nat, t: seq<byte>, m: nat,
    i: nat)
    requires Sound(g, fat, w, f, a) && InFile(g, f.chain, p / 512) && p % 512 + |t| <= 512
    requires Buffered(g, f.chain, a, b, Lba(g, f.chain, p / 512), p % 512, t, m - p / 512 * 512)
    requires i < m && InFile(g, f.chain, i / 512)
    ensures ByteOf(g, f.chain, b, i) == NewByte(g, f.chain, a, p, t, i)
  {
    hide Geometry.DataFits, Geometry.Index, Geometry.Within, Geometry.PowerOfTwo, Own, Lba, Cache.At, IsChain;
    var cs := f.chain;
    ChainClusters(g, fat, cs);
    LbaInside(g, cs, i / 512);
    if i / 512 == p / 512 {
      var lba := Lba(g, cs, p / 512);
      assert p <= i < p + |t| ==> b.At(lba)[p % 512..p % 512 + |t|][i - p] == b.At(lba)[i % 512];
    } else {
      DistinctChain(fat, cs);
      if Lba(g, cs, i / 512) == Lba(g, cs, p / 512) {
        LbaInjective(g, cs, i / 512, p / 512);
      }
    }
  }

  /** Bytes put into the sector buffer. */
  lemma BufferedContent(g: Geometry, fat: seq<nat>, w: nat, f: Fil, a: Cache, b: Cache, p: nat, t: seq<byte>, m: nat)
    requires Sound(g, fat, w, f, a) && InFile(g, f.chain, p / 512) && 0 < |t| && p % 512 + |t| <= 512
    requires p <= f.objsize && m == if p + |t| <= f.objsize then f.objsize else p + |t|
    requires Buffered(g, f.chain, a, b, Lba(g, f.chain, p / 512), p % 512, t, m - p / 512 * 512)
    ensures Room(g, f.chain, m)
    ensures Content(g, f.chain, b, m) == Overwrite(Content(g, f.chain, a, f.objsize), p, t)
  {
    hide Geometry.DataFits, Geometry.Index, Geometry.Within, Geometry.PowerOfTwo, Own, Lba, IsChain, Content, Overwrite;
    assert (p + |t| - 1) / 512 == p / 512;
    forall i: nat | i < m ensures ByteOf(g, f.chain, b, i) == NewByte(g, f.chain, a, p, t, i) {
      hide ByteOf, NewByte, Buffered;
      RoomFor(g, f.chain, m, i);
      BufferedByte(g, fat, w, f, a, b, p, t, m, i);
    }
    WroteContent(g, f.chain, a, b, f.objsize, p, t, m);
  }
}
