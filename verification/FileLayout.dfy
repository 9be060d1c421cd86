/** Where the bytes of a file lie: byte `i` of a file is byte `i % 512` of its sector `i / 512`, and sector `k`
    of a file is sector `k % csize` of the cluster with index `k / csize` in its chain. */
module FileLayout {
  import Division

  import opened Bytes
  import opened FatChains
  import opened Volumes
  import opened ClusterAlloc

  // ---------------------------------------------------------------- division by the cluster size

  lemma SameCluster(g: Geometry, k: nat, j: nat)
    requires g.Wf() && g.Within(k) + j < g.csize
    ensures g.Index(k + j) == g.Index(k) && g.Within(k + j) == g.Within(k) + j
  {
    Division.Same(k, j, g.csize);
  }

  lemma NextCluster(g: Geometry, k: nat)
    requires g.Wf() && k > 0 && g.Within(k) == 0
    ensures g.Index(k - 1) + 1 == g.Index(k)
  {
    Division.Before(k, g.csize);
  }

  lemma PrevInCluster(g: Geometry, k: nat)
    requires g.Wf() && k > 0 && g.Within(k) != 0
    ensures g.Index(k - 1) == g.Index(k)
  {
    Division.Before(k, g.csize);
  }

  lemma IndexZero(g: Geometry)
    requires g.csize > 0
    ensures g.Index(0) == 0 && g.Within(0) == 0
  {
  }

  lemma ClusterOfIndex(g: Geometry, p: nat)
    requires g.Wf()
    ensures g.ClusterOf(p) == g.Index(p / 512)
  {
    Division.Offset(p, g.csize);
  }

  lemma ClusterStarts(g: Geometry, p: nat)
    requires g.Wf()
    ensures 0 <= g.ClusterStart(p) <= p < g.ClusterStart(p) + g.ClusterBytes()
    ensures g.ClusterStart(p) % 512 == 0
    ensures g.Within(g.ClusterStart(p) / 512) == 0 && g.Index(g.ClusterStart(p) / 512) == g.Index(p / 512)
  {
    Division.Offset(p, g.csize);
    Division.Head(p / 512, g.csize);
    assert g.ClusterStart(p) == (p / 512 - g.Within(p / 512)) * 512;
  }

  lemma StepCluster(g: Geometry, p: nat)
    requires g.Wf() && p % 512 == 0 && g.Within(p / 512) == 0
    ensures (p + g.ClusterBytes()) % 512 == 0 && g.Within((p + g.ClusterBytes()) / 512) == 0
    ensures g.Index((p + g.ClusterBytes()) / 512) == g.Index(p / 512) + 1
    ensures g.ClusterBytes() >= 512
  {
    Division.Step(p / 512, g.csize);
    assert (p + g.ClusterBytes()) / 512 == p / 512 + g.csize;
  }

  lemma InsideCluster(g: Geometry, p: nat, n: nat)
    requires g.Wf() && p % 512 == 0 && g.Within(p / 512) == 0 && 0 < n <= g.ClusterBytes()
    ensures g.Index((p + n - 1) / 512) == g.Index(p / 512)
    ensures n % 512 != 0 ==> g.Index((p + n) / 512) == g.Index(p / 512) && g.Within((p + n) / 512) == n / 512
  {
    assert (p + n - 1) / 512 == p / 512 + (n - 1) / 512;
    Division.Same(p / 512, (n - 1) / 512, g.csize);
    if n % 512 != 0 {
      assert (p + n) / 512 == p / 512 + n / 512;
      Division.Same(p / 512, n / 512, g.csize);
    }
  }

  lemma Monotone(g: Geometry, k: nat, m: nat)
    requires g.Wf() && k <= m
    ensures g.Index(k) <= g.Index(m)
  {
    Division.Monotone(k, m, g.csize);
  }

  lemma DivModUnique(g: Geometry, k: nat, m: nat)
    requires g.Wf() && g.Index(k) == g.Index(m) && g.Within(k) == g.Within(m)
    ensures k == m
  {
    Division.DivMod(k, g.csize);
    Division.DivMod(m, g.csize);
  }

  // ---------------------------------------------------------------- sectors of clusters

  /** The first sector of cluster `c`. */
  ghost function Base(g: Geometry, c: nat): (s: int) { g.database + g.csize * (c - 2) }

  ghost predicate InCluster(g: Geometry, c: nat, s: nat) { Base(g, c) <= s < Base(g, c) + g.csize }

  lemma BaseBounds(g: Geometry, c: nat)
    requires g.Wf() && g.DataFits() && g.HasEntry(c)
    ensures 0 < g.database <= Base(g, c) && Base(g, c) + g.csize <= g.nsect
  {
    assert g.csize * (g.nFatent - 2) - g.csize * (c - 2) == g.csize * (g.nFatent - c);
    Division.AtLeast(g.csize, g.nFatent - c);
  }

  /** A sector lies in at most one cluster. */
  lemma ClustersApart(g: Geometry, c: nat, d: nat, s: nat)
    requires g.Wf() && InCluster(g, c, s) && InCluster(g, d, s)
    ensures c == d
  {
    assert g.csize * (c - 2) - g.csize * (d - 2) == g.csize * (c - d) == -(g.csize * (d - c));
    if c > d {
      Division.AtLeast(g.csize, c - d);
    }
    if c < d {
      Division.AtLeast(g.csize, d - c);
    }
  }

  /** `s` is a sector of a cluster of the chain. */
  ghost predicate Own(g: Geometry, cs: seq<nat>, s: nat) { exists c :: c in cs && InCluster(g, c, s) }

  ghost predicate InFile(g: Geometry, cs: seq<nat>, k: nat)
    requires g.csize > 0
  {
    g.Index(k) < |cs|
  }

  /** The device sector of the `k`th sector of a file. */
  ghost function Lba(g: Geometry, cs: seq<nat>, k: nat): (s: nat)
    requires g.csize > 0
  {
    if InFile(g, cs, k) && Base(g, cs[g.Index(k)]) + g.Within(k) >= 0
    then Base(g, cs[g.Index(k)]) + g.Within(k) else 0
  }

  ghost predicate Clusters(g: Geometry, cs: seq<nat>) { forall i :: 0 <= i < |cs| ==> g.HasEntry(cs[i]) }

  lemma ChainClusters(g: Geometry, fat: seq<nat>, cs: seq<nat>)
    requires |fat| == g.nFatent && ChainOrNone(fat, cs)
    ensures Clusters(g, cs)
  {
    assert forall i :: 0 <= i < |cs| ==> Cluster(fat, cs[i]);
  }

  lemma LbaInside(g: Geometry, cs: seq<nat>, k: nat)
    requires g.Wf() && g.DataFits() && Clusters(g, cs) && InFile(g, cs, k)
    ensures Own(g, cs, Lba(g, cs, k))
    ensures Lba(g, cs, k) == Base(g, cs[g.Index(k)]) + g.Within(k)
    ensures 0 < g.database <= Lba(g, cs, k) < g.nsect
  {
    hide Geometry.DataFits, Geometry.Index, Geometry.Within, Geometry.PowerOfTwo, Base;
    BaseBounds(g, cs[g.Index(k)]);
    assert cs[g.Index(k)] in cs && InCluster(g, cs[g.Index(k)], Lba(g, cs, k));
  }

  /** Different sectors of a file lie in different places. */
  lemma LbaInjective(g: Geometry, cs: seq<nat>, k: nat, m: nat)
    requires g.Wf() && g.DataFits() && Clusters(g, cs) && InFile(g, cs, k) && InFile(g, cs, m)
    requires forall i, j :: 0 <= i < j < |cs| ==> cs[i] != cs[j]
    requires Lba(g, cs, k) == Lba(g, cs, m)
    ensures k == m
  {
    hide Geometry.DataFits, Geometry.Index, Geometry.Within, Geometry.PowerOfTwo, Base;
    LbaInside(g, cs, k);
    LbaInside(g, cs, m);
    ClustersApart(g, cs[g.Index(k)], cs[g.Index(m)], Lba(g, cs, k));
    assert g.Index(k) == g.Index(m);
    DivModUnique(g, k, m);
  }

  /** Consecutive sectors of a file within a cluster are consecutive on the device. */
  lemma LbaRun(g: Geometry, cs: seq<nat>, k: nat, j: nat)
    requires g.Wf() && g.DataFits() && Clusters(g, cs) && InFile(g, cs, k) && g.Within(k) + j < g.csize
    ensures InFile(g, cs, k + j) && Lba(g, cs, k + j) == Lba(g, cs, k) + j
  {
    hide Geometry.DataFits, Geometry.Index, Geometry.Within, Geometry.PowerOfTwo, Base;
    SameCluster(g, k, j);
    LbaInside(g, cs, k);
    LbaInside(g, cs, k + j);
  }

  // ---------------------------------------------------------------- the data, seen through the sector cache

  /** The logical disk with the private sector buffer of a file laid over it; `sect == 0` is no sector. */
  datatype Cache = Cache(view: seq<Sector>, sect: nat, buf: Sector) {
    ghost function At(s: nat): (t: Sector) {
      if s == sect && s != 0 then buf else if s < |view| then view[s] else seq(512, _ => 0)
    }
  }

  /** Byte `i` of the file with chain `cs`. */
  ghost function ByteOf(g: Geometry, cs: seq<nat>, a: Cache, i: nat): (b: byte)
    requires g.csize > 0
  {
    a.At(Lba(g, cs, i / 512))[i % 512]
  }

  /** The `n` bytes of the file from offset `p` on. */
  ghost function Slice(g: Geometry, cs: seq<nat>, a: Cache, p: nat, n: nat): (s: seq<byte>)
    requires g.csize > 0
    ensures |s| == n
  {
    var s: seq<byte> := seq<byte>(n, j requires 0 <= j < n => ByteOf(g, cs, a, p + j));
    s
  }

  lemma SliceJoin(g: Geometry, cs: seq<nat>, a: Cache, p: nat, n: nat, m: nat)
    requires g.csize > 0
    ensures Slice(g, cs, a, p, n) + Slice(g, cs, a, p + n, m) == Slice(g, cs, a, p, n + m)
  {
    hide ByteOf;
    var l, r := Slice(g, cs, a, p, n) + Slice(g, cs, a, p + n, m), Slice(g, cs, a, p, n + m);
    forall j | 0 <= j < n + m ensures l[j] == r[j] {
      assert j >= n ==> l[j] == Slice(g, cs, a, p + n, m)[j - n];
      assert p + n + (j - n) == p + j;
    }
  }

  /** `cc` sectors from file sector `k` on, all in one cluster, follow each other on the device. */
  lemma RunSectors(g: Geometry, cs: seq<nat>, k: nat, cc: nat)
    requires g.Wf() && g.DataFits() && Clusters(g, cs) && InFile(g, cs, k) && g.Within(k) + cc <= g.csize
    ensures forall s: nat :: Lba(g, cs, k) <= s < Lba(g, cs, k) + cc ==> Own(g, cs, s)
    ensures forall m: nat :: k <= m < k + cc ==> Lba(g, cs, m) == Lba(g, cs, k) + (m - k)
    ensures cc > 0 ==> Lba(g, cs, k) + cc <= g.nsect && g.database <= Lba(g, cs, k)
  {
    hide Geometry.DataFits, Geometry.Index, Geometry.Within, Geometry.PowerOfTwo, Own, Lba;
    forall s: nat | Lba(g, cs, k) <= s < Lba(g, cs, k) + cc ensures Own(g, cs, s) {
      RunSector(g, cs, k, s - Lba(g, cs, k));
    }
    forall m: nat | k <= m < k + cc ensures Lba(g, cs, m) == Lba(g, cs, k) + (m - k) {
      RunSector(g, cs, k, m - k);
    }
    if cc > 0 {
      RunSector(g, cs, k, cc - 1);
      RunSector(g, cs, k, 0);
    }
  }

  lemma RunSector(g: Geometry, cs: seq<nat>, k: nat, j: nat)
    requires g.Wf() && g.DataFits() && Clusters(g, cs) && InFile(g, cs, k) && g.Within(k) + j < g.csize
    ensures Own(g, cs, Lba(g, cs, k) + j) && Lba(g, cs, k + j) == Lba(g, cs, k) + j
    ensures g.database <= Lba(g, cs, k) + j < g.nsect
  {
    hide Geometry.DataFits, Geometry.Index, Geometry.Within, Geometry.PowerOfTwo, Own, Lba, Base;
    LbaRun(g, cs, k, j);
    LbaInside(g, cs, k + j);
  }

  /** Whole sectors read from one cluster are the bytes of the file. */
  lemma RunBytes(g: Geometry, cs: seq<nat>, a: Cache, p: nat, data: seq<Sector>)
    requires g.Wf() && g.DataFits() && Clusters(g, cs) && p % 512 == 0
    requires InFile(g, cs, p / 512) && g.Within(p / 512) + |data| <= g.csize
    requires forall i :: 0 <= i < |data| ==> data[i] == a.At(Lba(g, cs, p / 512) + i)
    ensures Flatten(data) == Slice(g, cs, a, p, |data| * 512)
  {
    hide Geometry.DataFits, Geometry.Index, Geometry.Within, Geometry.PowerOfTwo, Own, Lba, Cache.At;
    RunSectors(g, cs, p / 512, |data|);
    forall j | 0 <= j < |data| * 512 ensures Flatten(data)[j] == ByteOf(g, cs, a, p + j) {
      assert (p + j) / 512 == p / 512 + j / 512 && (p + j) % 512 == j % 512;
    }
  }

  /** The first `n` bytes of the file. */
  ghost function Content(g: Geometry, cs: seq<nat>, a: Cache, n: nat): (s: seq<byte>)
    requires g.csize > 0
    ensures |s| == n
  {
    var s: seq<byte> := seq<byte>(n, i requires 0 <= i < n => ByteOf(g, cs, a, i));
    s
  }

  /** The file holds at least `n` bytes of clusters. */
  ghost predicate Room(g: Geometry, cs: seq<nat>, n: nat)
    requires g.csize > 0
  {
    n == 0 || InFile(g, cs, (n - 1) / 512)
  }

  lemma RoomFor(g: Geometry, cs: seq<nat>, n: nat, i: nat)
    requires g.Wf() && Room(g, cs, n) && i < n
    ensures InFile(g, cs, i / 512)
  {
    Monotone(g, i / 512, (n - 1) / 512);
  }

  /** Equal on every sector of the chain. */
  ghost predicate SameOn(g: Geometry, cs: seq<nat>, a: Cache, b: Cache) {
    forall s: nat :: Own(g, cs, s) ==> a.At(s) == b.At(s)
  }

  lemma SameContent(g: Geometry, cs: seq<nat>, cs': seq<nat>, a: Cache, b: Cache, n: nat)
    requires g.Wf() && g.DataFits() && Clusters(g, cs) && cs <= cs' && Room(g, cs, n) && SameOn(g, cs, a, b)
    ensures Content(g, cs, a, n) == Content(g, cs', b, n)
  {
    forall i: nat | i < n ensures ByteOf(g, cs, a, i) == ByteOf(g, cs', b, i) {
      hide Own, Cache.At, Base, Geometry.DataFits;
      RoomFor(g, cs, n, i);
      LbaInside(g, cs, i / 512);
      assert cs'[g.Index(i / 512)] == cs[g.Index(i / 512)];
      assert Lba(g, cs', i / 512) == Lba(g, cs, i / 512);
    }
  }

  // ---------------------------------------------------------------- an open file

  /** No sector outside the FATs and the clusters of `cs` differs, and if the copies of the FAT agreed they still do. */
  ghost predicate OnlyOwn(g: Geometry, cs: seq<nat>, a: seq<Sector>, b: seq<Sector>) {
    && |a| == |b|
    && (forall s: nat :: s < |a| && !g.FirstFat(s) && !g.SecondFat(s) && !Own(g, cs, s) ==> a[s] == b[s])
    && (g.reliable && Mirrored(g, a) ==> Mirrored(g, b))
  }

  /** The fields of an open file (`FIL`), with its chain of clusters. */
  datatype Fil = Fil(chain: seq<nat>, sclust: nat, objsize: nat, fptr: nat, clust: nat, sect: nat, dirty: bool)

  /** `clust` is the cluster of the byte before the file pointer, and a file pointer inside a sector has
      that sector in the buffer. */
  ghost predicate CursorOk(g: Geometry, f: Fil)
    requires g.csize > 0
  {
    && f.fptr <= f.objsize
    && (f.fptr > 0 ==> InFile(g, f.chain, (f.fptr - 1) / 512) && f.clust == f.chain[g.Index((f.fptr - 1) / 512)])
    && (f.fptr % 512 != 0 ==> f.sect == Lba(g, f.chain, f.fptr / 512))
  }

  /** What links the fields of an open file, its buffer, the volume and the window, but for the cursor:
      the start cluster heads the chain, the chain has room for the size, a clean buffer equals the disk,
      a dirty one is a sector of the file, and the window holds no sector of the file. */
  ghost predicate Sound(g: Geometry, fat: seq<nat>, winsect: nat, f: Fil, a: Cache) {
    && g.Wf() && g.DataFits() && |fat| == g.nFatent && |a.view| == g.nsect && a.sect == f.sect
    && ChainOrNone(fat, f.chain)
    && f.sclust == (if f.chain == [] then 0 else f.chain[0])
    && f.objsize <= 0xFFFF_FFFF && Room(g, f.chain, f.objsize)
    && (f.sect != 0 ==> g.database <= f.sect < g.nsect && f.sect != winsect)
    && (f.sect != 0 && !f.dirty ==> a.buf == a.view[f.sect])
    && (f.dirty ==> f.sect != 0 && Own(g, f.chain, f.sect))
    && !Own(g, f.chain, winsect)
  }

  /** The cursor fields are no part of `Sound`. */
  lemma SoundCursor(g: Geometry, fat: seq<nat>, w: nat, f: Fil, a: Cache, clust: nat, fptr: nat)
    requires Sound(g, fat, w, f, a)
    ensures Sound(g, fat, w, f.(clust := clust, fptr := fptr), a)
  {
  }

  /** Bytes inside one sector, as the buffer holds it. */
  lemma BufferBytes(g: Geometry, cs: seq<nat>, a: Cache, p: nat, n: nat)
    requires g.csize > 0 && a.sect != 0 && a.sect == Lba(g, cs, p / 512) && p % 512 + n <= 512
    ensures a.buf[p % 512..p % 512 + n] == Slice(g, cs, a, p, n)
  {
    hide Lba;
    var l, r := a.buf[p % 512..p % 512 + n], Slice(g, cs, a, p, n);
    forall j | 0 <= j < n ensures l[j] == r[j] {
      assert (p + j) / 512 == p / 512 && (p + j) % 512 == p % 512 + j;
      assert r[j] == ByteOf(g, cs, a, p + j);
    }
  }

  lemma SliceSame(g: Geometry, cs: seq<nat>, a: Cache, b: Cache, p: nat, n: nat)
    requires g.Wf() && g.DataFits() && Clusters(g, cs) && SameOn(g, cs, a, b) && Room(g, cs, p + n)
    ensures Slice(g, cs, a, p, n) == Slice(g, cs, b, p, n)
  {
    var l, r := Slice(g, cs, a, p, n), Slice(g, cs, b, p, n);
    forall j | 0 <= j < n ensures l[j] == r[j] {
      hide Own, Cache.At, Base, Geometry.DataFits, Lba;
      RoomFor(g, cs, p + n, p + j);
      LbaInside(g, cs, (p + j) / 512);
      assert l[j] == ByteOf(g, cs, a, p + j) && r[j] == ByteOf(g, cs, b, p + j);
    }
  }

  lemma SliceBefore(g: Geometry, fat: seq<nat>, w: nat, f: Fil, a: Cache, b: Cache, n: nat)
    requires Sound(g, fat, w, f, b) && SameOn(g, f.chain, a, b) && f.fptr + n <= f.objsize
    ensures Slice(g, f.chain, a, f.fptr, n) == Slice(g, f.chain, b, f.fptr, n)
  {
    hide Geometry.DataFits, Geometry.Index, Geometry.Within, Geometry.PowerOfTwo, Own, SameOn, Slice;
    ChainClusters(g, fat, f.chain);
    if f.fptr + n > 0 {
      RoomFor(g, f.chain, f.objsize, f.fptr + n - 1);
    }
    SliceSame(g, f.chain, a, b, f.fptr, n);
  }

  lemma SliceOfContent(g: Geometry, cs: seq<nat>, a: Cache, n: nat, p: nat, m: nat)
    requires g.csize > 0 && p + m <= n
    ensures Slice(g, cs, a, p, m) == Content(g, cs, a, n)[p..p + m]
  {
    hide ByteOf;
    var l, r := Slice(g, cs, a, p, m), Content(g, cs, a, n)[p..p + m];
    forall j | 0 <= j < m ensures l[j] == r[j] {
      assert r[j] == Content(g, cs, a, n)[p + j];
    }
  }

  /** What one more round adds to the bytes read so far. */
  lemma ReadOn(g: Geometry, fat: seq<nat>, w: nat, f: Fil, a: Cache, b: Cache, p: nat, n: nat, m: nat, r: seq<byte>)
    requires Sound(g, fat, w, f, b) && SameOn(g, f.chain, a, b) && p + n + m <= f.objsize && n + m <= |r|
    ensures Patch(Patch(r, 0, Slice(g, f.chain, a, p, n)), n, Slice(g, f.chain, b, p + n, m)) == Patch(r, 0,
      Slice(g, f.chain, a, p, n + m))
  {
    hide Geometry.DataFits, Geometry.Index, Geometry.Within, Geometry.PowerOfTwo, Own, SameOn, Slice, Patch;
    SoundCursor(g, fat, w, f, b, f.clust, p + n);
    SliceBefore(g, fat, w, f.(fptr := p + n), a, b, m);
    SliceJoin(g, f.chain, a, p, n, m);
    PatchPatch(r, 0, Slice(g, f.chain, a, p, n), Slice(g, f.chain, a, p + n, m));
  }

  /** The current cluster of a file pointer inside a sector. */
  lemma CurrentCluster(g: Geometry, f: Fil)
    requires g.csize > 0 && CursorOk(g, f) && f.fptr % 512 != 0
    ensures InFile(g, f.chain, f.fptr / 512) && f.clust == f.chain[g.Index(f.fptr / 512)]
    ensures f.sect == Lba(g, f.chain, f.fptr / 512)
  {
    assert (f.fptr - 1) / 512 == f.fptr / 512;
  }

  /** Moving on by `n` bytes inside one sector, or by whole sectors inside one cluster, keeps the cursor right. */
  lemma Advance(g: Geometry, f: Fil, n: nat)
    requires g.Wf() && InFile(g, f.chain, f.fptr / 512) && f.clust == f.chain[g.Index(f.fptr / 512)]
    requires 0 < n && f.fptr + n <= f.objsize
    requires || (f.fptr % 512 + n <= 512 && f.sect == Lba(g, f.chain, f.fptr / 512))
             || (f.fptr % 512 == 0 && n % 512 == 0 && g.Within(f.fptr / 512) + n / 512 <= g.csize)
    ensures CursorOk(g, f.(fptr := f.fptr + n))
  {
    hide Lba, Geometry.Index, Geometry.Within, Geometry.PowerOfTwo;
    if f.fptr % 512 + n <= 512 {
      InSector(f.fptr, n);
    } else {
      OverSectors(f.fptr, n);
      SameCluster(g, f.fptr / 512, n / 512 - 1);
    }
  }

  /** The last of `n` bytes inside one sector, and the byte behind them. */
  lemma InSector(p: nat, n: nat)
    requires 0 < n && p % 512 + n <= 512
    ensures (p + n - 1) / 512 == p / 512 && ((p + n) % 512 != 0 ==> (p + n) / 512 == p / 512)
  {
    var k, r := p / 512, p % 512;
    assert p + n - 1 == 512 * k + (r + n - 1);
    assert p + n == 512 * k + (r + n);
  }

  /** The last of the bytes of whole sectors. */
  lemma OverSectors(p: nat, n: nat)
    requires 0 < n && p % 512 == 0 && n % 512 == 0
    ensures n / 512 >= 1 && (p + n - 1) / 512 == p / 512 + (n / 512 - 1) && (p + n) % 512 == 0
  {
    var k, m := p / 512, n / 512;
    assert p + n - 1 == 512 * (k + m - 1) + 511 && p + n == 512 * (k + m);
  }

  lemma SameOnRefl(g: Geometry, cs: seq<nat>, a: Cache)
    ensures SameOn(g, cs, a, a) && OnlyOwn(g, cs, a.view, a.view)
  {
  }

  lemma SliceNothing(g: Geometry, cs: seq<nat>, a: Cache, p: nat)
    requires g.csize > 0
    ensures Slice(g, cs, a, p, 0) == []
  {
  }

  /** A sound file with the same data has the same bytes. */
  lemma SoundContent(g: Geometry, fat: seq<nat>, w: nat, f: Fil, a: Cache, b: Cache)
    requires Sound(g, fat, w, f, b) && SameOn(g, f.chain, a, b)
    ensures Content(g, f.chain, a, f.objsize) == Content(g, f.chain, b, f.objsize)
  {
    hide Own, SameOn, Content;
    ChainClusters(g, fat, f.chain);
    SameContent(g, f.chain, f.chain, a, b, f.objsize);
  }

  lemma SameOnTrans(g: Geometry, cs: seq<nat>, a: Cache, b: Cache, c: Cache)
    requires SameOn(g, cs, a, b) && SameOn(g, cs, b, c)
    ensures SameOn(g, cs, a, c)
  {
  }

  lemma OnlyOwnTrans(g: Geometry, cs: seq<nat>, cs': seq<nat>, a: seq<Sector>, b: seq<Sector>, c: seq<Sector>)
    requires OnlyOwn(g, cs, a, b) && OnlyOwn(g, cs', b, c) && cs <= cs'
    ensures OnlyOwn(g, cs', a, c)
  {
    OwnGrows(g, cs, cs');
    hide Own;
  }

  /** The window went nowhere but to the FAT, to no sector, or to a sector of the chain. */
  ghost predicate WindowIn(g: Geometry, cs: seq<nat>, w: nat, w': nat) { WindowMoved(g, w, w') || Own(g, cs, w') }

  lemma WindowInTrans(g: Geometry, cs: seq<nat>, cs': seq<nat>, w: nat, w1: nat, w2: nat)
    requires WindowIn(g, cs, w, w1) && WindowIn(g, cs', w1, w2) && cs <= cs'
    ensures WindowIn(g, cs', w, w2)
  {
    OwnGrows(g, cs, cs');
    hide Own;
  }

  lemma OwnGrows(g: Geometry, cs: seq<nat>, cs': seq<nat>)
    requires cs <= cs'
    ensures forall s: nat :: Own(g, cs, s) ==> Own(g, cs', s)
  {
    forall s: nat | Own(g, cs, s) ensures Own(g, cs', s) {
      var c :| c in cs && InCluster(g, c, s);
      assert c in cs';
    }
  }

  lemma OwnBounds(g: Geometry, fat: seq<nat>, cs: seq<nat>, s: nat)
    requires g.Wf() && g.DataFits() && |fat| == g.nFatent && ChainOrNone(fat, cs) && Own(g, cs, s)
    ensures 0 < g.database <= s < g.nsect
  {
    hide Geometry.DataFits, Geometry.Index, Geometry.Within, Geometry.PowerOfTwo, Base;
    ChainClusters(g, fat, cs);
    var c :| c in cs && InCluster(g, c, s);
    BaseBounds(g, c);
  }

  /** Accesses to the FAT leave an open file sound and its bytes the same. */
  lemma FatAccessKeeps(g: Geometry, fat: seq<nat>, w: nat, w': nat, f: Fil, a: Cache, b: Cache)
    requires Sound(g, fat, w, f, a) && WindowMoved(g, w, w') && Untouched(g, a.view, b.view)
    requires b.sect == a.sect && b.buf == a.buf
    ensures Sound(g, fat, w', f, b) && SameOn(g, f.chain, a, b) && OnlyOwn(g, f.chain, a.view, b.view)
  {
    hide Geometry.DataFits, Geometry.Index, Geometry.Within, Geometry.PowerOfTwo, ChainOrNone, Room;
    forall s: nat | Own(g, f.chain, s) ensures g.database <= s < g.nsect {
      OwnBounds(g, fat, f.chain, s);
    }
    hide Own;
  }

  /** `clst2sect`: the first sector of a cluster, 0 when there is no such cluster. */
  function Clst2Sect(g: Geometry, clst: nat): (s: nat)
    ensures g.HasEntry(clst) ==> s == Base(g, clst)
    ensures !g.HasEntry(clst) ==> s == 0
  {
    if clst < 2 || clst >= g.nFatent then 0 else g.database + g.csize * (clst - 2)
  }
}
