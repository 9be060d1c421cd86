/** The buffer that `f_truncate` leaves behind. When another file gets the cluster that was cut off and writes to it,
    and the cluster then comes back to the first file, that file reads a byte twice with different results. */
module StaleBuffers {
  import opened Bytes
  import opened FatChains
  import opened Volumes
  import opened ClusterAlloc
  import opened FileLayout
  import opened FileBytes
  import opened OpenFile
  import FileRuns

  /** Cluster `c` is free, and no other. */
  ghost predicate OnlyFree(fat: seq<nat>, c: nat) {
    Cluster(fat, c) && fat[c] == 0 && forall x: nat :: Cluster(fat, x) && fat[x] == 0 ==> x == c
  }

  /** No other cluster is free. */
  ghost predicate OthersUsed(fat: seq<nat>, c: nat) { forall x: nat :: Cluster(fat, x) && fat[x] == 0 ==> x == c }

  /** No sector of the data area differs. */
  ghost predicate SameData(g: Geometry, a: seq<Sector>, b: seq<Sector>) {
    |a| == |b| && forall s: nat :: g.database <= s < |a| ==> a[s] == b[s]
  }

  ghost predicate Volatile(fs: Volume)
    requires fs.Valid()
    reads fs, fs.win
  {
    fs.g.reliable && fs.g.DataFits() && CountOk(fs) && !Damaged(fs.Fat())
  }

  // ---------------------------------------------------------------- the first file

  /** A file that is read and written without errors so far. */
  ghost predicate Good(f: File)
    reads f, f.buf, f.fs, f.fs.win
  {
    f.Ready() && f.canRead && f.canWrite && f.err == Ok && f.cltbl == null && f.Intact() && Volatile(f.fs)
  }

  /** The first file reads a byte and goes back to its start: the sector that was read is in the buffer. */
  method Touch(f: File, c: nat)
    requires Good(f) && f.objsize > 0 && f.chain == [c]
    modifies f, f.buf, f.fs, f.fs.win
    ensures Good(f) && f.chain == [c] && f.objsize == old(f.objsize) && f.fptr == 0 && f.fs.Fat() == old(f.fs.Fat())
    ensures f.sect == Base(f.fs.g, c) && f.sect != 0 && f.buf[0] == old(f.Bytes()[0])
  {
    hide FatOf, Volume.View, Geometry.Index, Geometry.Within, Geometry.PowerOfTwo, Sound, CursorOk, Content, CutFat;
    hide FreeCount, Damaged, OnlyOwn, OthersKept, Patch, Grown, File.Full;
    var rbuff := new byte[1];
    ghost var bytes := f.Bytes();
    ToStart(f);
    var res, br := f.Read(rbuff, 1);
    FirstSector(f, c);
    ToStart(f);
  }

  /** `f_lseek` to the start of the file. */
  method ToStart(f: File)
    requires Good(f)
    modifies f, f.buf, f.fs, f.fs.win
    ensures Good(f) && f.chain == old(f.chain) && f.objsize == old(f.objsize) && f.fptr == 0
    ensures f.fs.Fat() == old(f.fs.Fat()) && f.Bytes() == old(f.Bytes()) && f.sect == old(f.sect)
      && f.buf[..] == old(f.buf[..])
    ensures f.fs.View() == old(f.fs.View())
  {
    hide FatOf, Volume.View, Geometry.Index, Geometry.Within, Geometry.PowerOfTwo, Sound, CursorOk, Content, CutFat;
    hide CountOk, Damaged, OnlyOwn, OthersKept, Grown, File.Full;
    ghost var bytes := f.Bytes();
    var res := f.Lseek(0);
    Whole(bytes, f.Bytes());
  }

  /** The first file is read and truncated: the buffer keeps the sector that was read. */
  method Leave(f: File, c: nat)
    requires Good(f) && f.objsize > 0 && f.chain == [c] && OthersUsed(f.fs.Fat(), c)
    modifies f, f.buf, f.fs, f.fs.win
    ensures Good(f) && f.chain == [] && f.fptr == 0 && f.objsize == 0
    ensures f.sect == Base(f.fs.g, c) && f.sect != 0 && !f.dirty && f.buf[0] == old(f.Bytes()[0])
    ensures OnlyFree(f.fs.Fat(), c)
  {
    hide FatOf, Volume.View, Geometry.Index, Geometry.Within, Geometry.PowerOfTwo, Sound, CursorOk, Content, CutFat;
    hide CountOk, Damaged, OnlyOwn, OthersKept, OthersUsed, OnlyFree;
    Touch(f, c);
    ghost var fat := f.fs.Fat();
    FirstCluster(f, c);
    var res := f.Truncate();
    CutAll(fat, c, f.fs.Fat(), f.chain);
    FileRuns.CutUndamaged(fat, [c], f.fs.Fat(), f.chain);
    NotDirty(f);
  }

  lemma FirstCluster(f: File, c: nat)
    requires f.Ready() && f.Intact() && f.chain == [c]
    ensures Cluster(f.fs.Fat(), c)
  {
  }

  lemma Whole(s: seq<byte>, t: seq<byte>)
    requires |s| == |t| && t[..|s|] == s
    ensures t == s
  {
    assert t[..|s|] == t;
  }

  lemma FirstSector(f: File, c: nat)
    requires f.Ready() && f.Intact() && f.chain == [c] && f.fptr == 1
    ensures f.sect == Base(f.fs.g, c) && f.sect != 0 && f.buf[0] == f.Bytes()[0]
  {
    var g := f.fs.g;
    hide FatOf, Volume.View, Geometry.DataFits, Geometry.Index, Geometry.Within, Geometry.PowerOfTwo, Base;
    ChainClusters(g, f.fs.Fat(), f.chain);
    IndexZero(g);
    LbaInside(g, f.chain, 0);
    assert f.Bytes()[0] == ByteOf(g, f.chain, f.Snap(), 0);
  }

  lemma NotDirty(f: File)
    requires f.Ready() && f.Intact() && f.chain == []
    ensures !f.dirty
  {
  }

  lemma CutAll(fat: seq<nat>, c: nat, fat': seq<nat>, cs': seq<nat>)
    requires CutTo(fat, [c], fat', cs') && cs' == [] && Cluster(fat, c) && OthersUsed(fat, c)
    ensures OnlyFree(fat', c)
  {
  }

  // ---------------------------------------------------------------- the second file

  /** A second file takes the cluster, its data reaches the device, and it is deleted: its buffer is written back as
      `f_sync` does, and its chain freed as `f_unlink` does. */
  method Overwritten(fs: Volume, c: nat, data: seq<byte>)
    requires fs.Valid() && Volatile(fs) && OnlyFree(fs.Fat(), c) && |data| == 512
    modifies fs, fs.win
    ensures fs.Valid() && Volatile(fs) && OnlyFree(fs.Fat(), c) && WindowMoved(fs.g, old(fs.winsect), fs.winsect)
    ensures 0 <= Base(fs.g, c) < fs.g.nsect && fs.View()[Base(fs.g, c)][0] == data[0]
  {
    hide FatOf, Volume.View, Geometry.Index, Geometry.Within, Geometry.PowerOfTwo, Geometry.DataFits, Sound,
      CursorOk, Content;
    hide FreeCount, Damaged, OnlyOwn, OthersKept, Grown, File.Full, OnlyFree, Untouched, CountOk, SameOn;
    var h := Written(fs, c, data);
    ghost var fat, v, w := fs.Fat(), fs.View(), fs.winsect;
    var res := RemoveChain(fs, c, 0);
    FreedAgain(fat, c);
    DataKept(fs.g, v, fs.View(), c);
    WindowTrans(fs.g, old(fs.winsect), w, fs.winsect);
  }

  method Written(fs: Volume, c: nat, data: seq<byte>) returns (h: File)
    requires fs.Valid() && Volatile(fs) && OnlyFree(fs.Fat(), c) && |data| == 512
    modifies fs, fs.win
    ensures fresh(h) && fs.Valid() && Volatile(fs) && IsChain(fs.Fat(), [c]) && OthersUsed(fs.Fat(), c)
    ensures WindowMoved(fs.g, old(fs.winsect), fs.winsect)
    ensures 0 <= Base(fs.g, c) < fs.g.nsect && fs.View()[Base(fs.g, c)][0] == data[0]
    ensures h.fs == fs && h.chain == [c] && h.Ready() && h.Intact() && h.Bytes() == data
  {
    hide FatOf, Volume.View, Geometry.Index, Geometry.Within, Geometry.PowerOfTwo, Geometry.DataFits, Sound,
      CursorOk, Content;
    hide FreeCount, Damaged, OnlyOwn, OthersKept, Grown, OnlyFree, Untouched, SameOn, IsChain, Overwrite, NoSpace,
      OthersUsed;
    ghost var fat := fs.Fat();
    h := new File(fs, 0, 0, true, true, []);
    var res, bw := h.Write(data, 512);
    GotAll(fs.g, fat, fs.Fat(), h.chain, c, bw, fs.freeClst, h);
    DamageIsOld(fat, [], fs.Fat(), h.chain);
    assert h.Bytes() == data by { OverwriteAll(data); }
    ghost var a, f := h.Snap(), h.Fields();
    res := h.Flush();
    CursorDirty(fs.g, f, h.dirty);
    FlushedByte(h, a, c, data);
    SoundContent(fs.g, fs.Fat(), fs.winsect, h.Fields(), a, h.Snap());
  }

  lemma CursorDirty(g: Geometry, f: Fil, dirty: bool)
    requires g.csize > 0 && CursorOk(g, f)
    ensures CursorOk(g, f.(dirty := dirty))
  {
  }

  lemma FreedAgain(fat: seq<nat>, c: nat)
    requires IsChain(fat, [c]) && OthersUsed(fat, c)
    ensures FreeFrom(fat, c) == (Zeroed(fat, [c]), true) && OnlyFree(Zeroed(fat, [c]), c)
    ensures Damaged(Zeroed(fat, [c])) ==> Damaged(fat)
  {
    FreeFromChain(fat, [c]);
    var z := Zeroed(fat, [c]);
    if Damaged(z) {
      var x: nat :| Cluster(z, x) && z[x] == 1;
      assert Cluster(fat, x) && fat[x] == 1;
    }
    assert Cluster(fat, [c][0]);
  }

  lemma DataKept(g: Geometry, v: seq<Sector>, v': seq<Sector>, c: nat)
    requires g.Wf() && g.DataFits() && g.HasEntry(c) && |v| == g.nsect && Untouched(g, v, v')
    ensures 0 <= Base(g, c) < g.nsect && v'[Base(g, c)] == v[Base(g, c)]
  {
    BaseBounds(g, c);
  }

  lemma OverwriteAll(data: seq<byte>)
    requires |data| == 512
    ensures Overwrite([], 0, data[..512]) == data
  {
  }

  /** A write to an empty file takes the one free cluster, and all of a sector fits. */
  lemma GotAll(g: Geometry, fat: seq<nat>, fat': seq<nat>, cs: seq<nat>, c: nat, bw: nat, free: nat, h: File)
    requires h.Ready() && h.Intact() && h.cltbl == null && h.fs.g == g && h.fs.Fat() == fat' && h.chain == cs
      && CountOk(h.fs)
      && h.fs.freeClst == free
    requires Grown(fat, [], fat', cs) && OnlyFree(fat, c) && bw <= 512 && h.fptr == bw <= h.objsize
    requires bw == 512 || h.Full(fat', free)
    ensures bw == 512 && cs == [c] && IsChain(fat', [c]) && OthersUsed(fat', c)
  {
    hide FatOf, Volume.View, Geometry.DataFits, Geometry.PowerOfTwo, Geometry.Within;
    IndexZero(g);
    forall i | 0 <= i < |cs| ensures cs[i] == c {
      assert Cluster(fat, cs[i]) && fat[cs[i]] == 0;
    }
    if |cs| > 1 {
      ChainDistinct(fat', cs, 0, 1);
    }
    NoneFree(fat', |fat'|);
    assert cs == [] ==> fat' == fat;
    if bw == 512 {
      assert Room(g, cs, h.objsize);
      Monotone(g, 0, (h.objsize - 1) / 512);
    }
  }

  lemma FlushedByte(h: File, a: Cache, c: nat, data: seq<byte>)
    requires h.Ready() && h.Held() && !h.dirty && h.chain == [c] && SameOn(h.fs.g, [c], a, h.Snap())
    requires |data| == 512 && Content(h.fs.g, [c], a, 512) == data
    ensures 0 <= Base(h.fs.g, c) < h.fs.g.nsect && h.fs.View()[Base(h.fs.g, c)][0] == data[0]
  {
    var g := h.fs.g;
    hide FatOf, Volume.View, Geometry.DataFits, Geometry.Index, Geometry.Within, Geometry.PowerOfTwo, Base;
    ChainClusters(g, h.fs.Fat(), [c]);
    IndexZero(g);
    LbaInside(g, [c], 0);
    assert data[0] == ByteOf(g, [c], a, 0) == a.At(Base(g, c))[0];
  }

  // ---------------------------------------------------------------- the first file again

  /** A file of at most one cluster, whatever its clean buffer holds: all that `Intact` says but that the buffer is
      equal to the device. */
  ghost predicate Short(f: File)
    reads f, f.buf, f.fs, f.fs.win
  {
    && f.Ready() && f.canRead && f.canWrite && f.err == Ok && !f.dirty && f.fs.g.reliable && f.fs.g.DataFits()
    && |f.chain| <= 1 && ChainOrNone(f.fs.Fat(), f.chain) && f.sclust == (if f.chain == [] then 0 else f.chain[0])
    && f.fptr <= f.objsize && (f.fptr > 0 ==> f.clust == f.sclust) && (f.chain == [] ==> f.objsize == 0)
    && f.objsize <= f.fs.g.ClusterBytes()
    && (f.sect != 0 ==> f.fs.g.database <= f.sect < f.fs.g.nsect && f.sect != f.fs.winsect)
    && !Own(f.fs.g, f.chain, f.fs.winsect)
  }

  /** Such a file has its cluster, or it would get just this one. */
  ghost predicate Gets(f: File, c: nat)
    requires f.Ready()
    reads f, f.buf, f.fs, f.fs.win
  {
    f.chain == [c] || (f.chain == [] && Volatile(f.fs) && OnlyFree(f.fs.Fat(), c))
  }

  /** The sector `s` as the file sees it. */
  ghost function Seen(f: File, s: nat): Sector
    requires f.Ready() && s < f.fs.g.nsect
    reads f, f.buf, f.fs, f.fs.win
  {
    if f.sect == s then f.buf[..] else f.fs.View()[s]
  }

  /** The part of `f_lseek` that finds the first cluster, creating it if there is none. */
  method Enter(f: File, ghost c: nat) returns (clst: nat)
    requires Short(f) && Gets(f, c)
    modifies f`fptr, f`clust, f`sclust, f`chain, f.fs, f.fs.win
    ensures f.Ready() && f.chain == [c] && clst == f.clust == f.sclust == c && f.fptr == 0
    ensures IsChain(f.fs.Fat(), [c]) && SameData(f.fs.g, old(f.fs.View()), f.fs.View())
    ensures if old(f.chain) == [] then f.fs.g.FirstFat(f.fs.winsect) else f.fs.winsect == old(f.fs.winsect)
  {
    hide FatOf, Volume.View, Geometry.Index, Geometry.Within, Geometry.PowerOfTwo, Geometry.DataFits, FreeCount,
      Untouched;
    hide NextFit, Damaged;
    UntouchedRefl(f.fs.g, f.fs.View());
    UntouchedData(f.fs.g, f.fs.View(), f.fs.View());
    var ifptr := f.fptr;
    f.fptr := 0;
    if ifptr > 0 {
      clst := f.clust;
    } else {
      clst := f.sclust;
      if clst == 0 {
        ghost var fat, v, free, last := f.fs.Fat(), f.fs.View(), f.fs.freeClst, f.fs.lastClst;
        clst := CreateChain(f.fs, 0);
        NewCluster(f.fs, fat, f.fs.Fat(), free, f.fs.freeClst, last, f.fs.lastClst, c, clst);
        UntouchedData(f.fs.g, v, f.fs.View());
        f.sclust := clst;
        f.chain := [clst];
      }
      f.clust := clst;
    }
  }

  lemma UntouchedData(g: Geometry, v: seq<Sector>, v': seq<Sector>)
    requires g.Wf() && |v| == g.nsect && Untouched(g, v, v')
    ensures SameData(g, v, v')
  {
  }

  lemma SameDataTrans(g: Geometry, a: seq<Sector>, b: seq<Sector>, c: seq<Sector>)
    requires SameData(g, a, b) && SameData(g, b, c)
    ensures SameData(g, a, c)
  {
  }

  lemma NewCluster(fs: Volume, fat: seq<nat>, fat': seq<nat>, free: nat, free': nat, last: nat, last': nat, c: nat,
    r: nat)
    requires fs.g.Wf() && |fat| == fs.g.nFatent && fs.g.reliable && OnlyFree(fat, c) && !Damaged(fat)
    requires CreateSpec(fs.g, fat, fat', free, free', last, last', 0, r)
    requires free <= fs.g.nFatent - 2 ==> free == FreeCount(fat)
    ensures r == c && IsChain(fat', [c])
  {
    NoneFree(fat, |fat|);
    hide FreeCount, Damaged;
    assert r != 0 && r != 1 && r != INVALID;
    assert [c][0] == c;
  }

  /** `f_lseek` to a byte of the first cluster, behind the first of its sector. */
  method SeekFirst(f: File, ofs: nat, ghost c: nat)
    requires Short(f) && Gets(f, c) && 0 < ofs <= f.fs.g.ClusterBytes() && ofs % 512 != 0
    modifies f, f.buf, f.fs, f.fs.win
    ensures Short(f) && f.Ready() && f.chain == [c] && f.fptr == ofs <= f.objsize
      && f.sect == Base(f.fs.g, c) + ofs / 512
    ensures SameData(f.fs.g, old(f.fs.View()), f.fs.View()) && f.fs.g.HasEntry(c)
    ensures f.buf[..] == if f.sect == old(f.sect) then old(f.buf[..]) else f.fs.View()[f.sect]
  {
    hide FatOf, Volume.View, Geometry.Index, Geometry.Within, Geometry.PowerOfTwo, Geometry.DataFits, SameData, IsChain;
    hide Short, Gets, Base, Own, WindowMoved, Geometry.ClusterBytes;
    ShortFacts(f);
    assert f.chain == [] || f.chain == [c] by { GetsOne(f, c); }
    ghost var w := f.fs.winsect;
    var clst := Enter(f, c);
    Moved(f.fs.g, f.fs.Fat(), w, f.fs.winsect, f.sect, c);
    SeekTail(f, ofs, clst);
  }

  /** The end of `f_lseek`. The target lies in the first cluster, so the chain is not followed any further. */
  method SeekTail(f: File, ofs: nat, c: nat)
    requires f.Ready() && f.canRead && f.canWrite && f.err == Ok && !f.dirty && f.fs.g.reliable && f.fs.g.DataFits()
    requires f.chain == [c] && IsChain(f.fs.Fat(), [c]) && f.sclust == f.clust == c && f.fptr == 0
    requires f.objsize <= f.fs.g.ClusterBytes() && !Own(f.fs.g, [c], f.fs.winsect)
    requires f.sect != 0 ==> f.fs.g.database <= f.sect < f.fs.g.nsect && f.sect != f.fs.winsect
    requires 0 < ofs <= f.fs.g.ClusterBytes() && ofs % 512 != 0
    modifies f`fptr, f`objsize, f`modified, f`sect, f.buf
    ensures f.Ready() && Short(f) && f.fptr == ofs <= f.objsize && f.sect == Base(f.fs.g, c) + ofs / 512
      && f.fs.g.HasEntry(c)
    ensures f.fs.View() == old(f.fs.View())
    ensures f.buf[..] == if f.sect == old(f.sect) then old(f.buf[..]) else f.fs.View()[f.sect]
  {
    hide FatOf, Volume.View, Geometry.Index, Geometry.Within, Geometry.PowerOfTwo, Geometry.DataFits, IsChain;
    hide Short, Base, Own, Geometry.ClusterBytes;
    InsideFirst(f.fs.g, ofs);
    ClusterPlace(f.fs.g, f.fs.Fat(), c, ofs / 512);
    f.fptr := f.fptr + ofs;
    var nsect := Clst2Sect(f.fs.g, c) + ofs / 512;
    if f.fptr > f.objsize {
      f.objsize := f.fptr;
      f.modified := true;
    }
    if nsect != f.sect {
      LoadClean(f, nsect);
    }
    IsShort(f, c);
  }

  lemma GetsOne(f: File, c: nat)
    requires f.Ready() && Gets(f, c)
    ensures f.chain == [] || f.chain == [c]
  {
  }

  lemma ShortFacts(f: File)
    requires Short(f)
    ensures f.Ready() && f.canRead && f.canWrite && f.err == Ok && !f.dirty && f.fs.g.reliable && f.fs.g.DataFits()
    ensures f.objsize <= f.fs.g.ClusterBytes()
    ensures f.sect != 0 ==> f.fs.g.database <= f.sect < f.fs.g.nsect && f.sect != f.fs.winsect
    ensures !Own(f.fs.g, f.chain, f.fs.winsect)
  {
  }

  lemma IsShort(f: File, c: nat)
    requires f.Ready() && f.canRead && f.canWrite && f.err == Ok && !f.dirty && f.fs.g.reliable && f.fs.g.DataFits()
    requires f.chain == [c] && IsChain(f.fs.Fat(), [c]) && f.sclust == f.clust == c
    requires f.fptr <= f.objsize <= f.fs.g.ClusterBytes() && !Own(f.fs.g, [c], f.fs.winsect)
    requires f.sect != 0 ==> f.fs.g.database <= f.sect < f.fs.g.nsect && f.sect != f.fs.winsect
    ensures Short(f)
  {
    hide FatOf, Volume.View, Own, IsChain;
  }


  /** `disk_read` of a sector of the file into the clean buffer. */
  method LoadClean(f: File, lba: nat)
    requires f.Ready() && f.fs.g.reliable && !f.dirty && f.fs.g.database <= lba < f.fs.g.nsect && lba != f.fs.winsect
    modifies f`sect, f.buf
    ensures f.Ready() && f.sect == lba && f.buf[..] == f.fs.View()[lba] && f.fs.View() == old(f.fs.View())
      && f.fs.Fat() == old(f.fs.Fat())
  {
    hide FatOf, Volume.View, Geometry.Index, Geometry.Within, Geometry.PowerOfTwo, Geometry.DataFits;
    var ok, data := f.fs.ReadData(lba, 1);
    CopyIn(f.buf, 0, data[0], 0, 512);
    PatchAll(old(f.buf[..]), data[0]);
    f.sect := lba;
    assert data[0] == f.fs.View()[lba..lba + 1][0];
  }

  /** A sector of a cluster that is in a chain. */
  lemma ClusterPlace(g: Geometry, fat: seq<nat>, c: nat, k: nat)
    requires g.Wf() && g.DataFits() && |fat| == g.nFatent && IsChain(fat, [c]) && k < g.csize
    ensures g.HasEntry(c) && 0 < g.database <= Base(g, c) + k < g.nsect && Own(g, [c], Base(g, c) + k)
  {
    assert Cluster(fat, [c][0]);
    BaseBounds(g, c);
    assert c in [c] && InCluster(g, c, Base(g, c) + k);
  }

  /** The window holds no sector of the cluster and not the one in the buffer, wherever it went for FAT entries. */
  lemma Moved(g: Geometry, fat: seq<nat>, w: nat, w': nat, sect: nat, c: nat)
    requires g.Wf() && g.DataFits() && |fat| == g.nFatent && IsChain(fat, [c])
    requires g.FirstFat(w') || (w' == w && !Own(g, [c], w))
    requires sect != 0 ==> g.database <= sect < g.nsect && sect != w
    ensures sect != 0 ==> sect != w'
    ensures !Own(g, [c], w')
  {
    hide Geometry.DataFits, Geometry.PowerOfTwo, IsChain, Own;
    if Own(g, [c], w') {
      OwnBounds(g, fat, [c], w');
    }
  }

  lemma InsideFirst(g: Geometry, ofs: nat)
    requires 0 < ofs <= g.ClusterBytes() && ofs % 512 != 0
    ensures ofs / 512 < g.csize
  {
  }

  /** `f_read` of the first byte. */
  method ReadFirst(f: File, ghost c: nat) returns (b: byte)
    requires Short(f) && f.chain == [c] && f.fptr == 0 && f.objsize > 0 && 0 <= Base(f.fs.g, c) < f.fs.g.nsect
    modifies f, f.buf
    ensures Short(f) && f.Ready() && f.chain == [c] && f.fs.View() == old(f.fs.View())
    ensures f.sect == Base(f.fs.g, c) && b == old(Seen(f, Base(f.fs.g, c)))[0]
  {
    hide FatOf, Volume.View, Geometry.Index, Geometry.Within, Geometry.PowerOfTwo, Geometry.DataFits, IsChain;
    ClusterPlace(f.fs.g, f.fs.Fat(), c, 0);
    var clst := f.sclust;
    f.clust := clst;
    var lba := Clst2Sect(f.fs.g, f.clust);
    if f.sect != lba {
      LoadClean(f, lba);
    }
    b := f.buf[0];
    f.fptr := 1;
  }

  lemma LeftFacts(f: File)
    requires Good(f) && f.chain == []
    ensures f.sclust == 0 && (f.sect != 0 ==> f.fs.g.database <= f.sect < f.fs.g.nsect && f.sect != f.fs.winsect)
  {
    hide CursorOk;
  }

  lemma EmptyShort(f: File, w: nat)
    requires f.Ready() && f.canRead && f.canWrite && f.err == Ok && !f.dirty && f.fs.g.reliable && f.fs.g.DataFits()
    requires f.chain == [] && f.sclust == 0 && f.fptr == 0 && f.objsize == 0 && WindowMoved(f.fs.g, w, f.fs.winsect)
    requires f.sect != 0 ==> f.fs.g.database <= f.sect < f.fs.g.nsect && f.sect != w
    ensures Short(f)
  {
  }

  /** `f_lseek` to the start. */
  method Rewind(f: File)
    requires Short(f)
    modifies f`fptr
    ensures Short(f) && f.Ready() && f.fptr == 0
  {
    hide FatOf, Volume.View, Own, IsChain, Geometry.DataFits;
    f.fptr := 0;
  }

  /** The file is stretched, reads its first byte, goes to another sector and back, and reads it again. */
  method Twice(f: File, ghost c: nat) returns (first: byte, second: byte)
    requires Short(f) && Gets(f, c) && f.chain == [] && f.fs.g.csize >= 2 && f.sect == Base(f.fs.g, c)
      && 0 < f.sect < f.fs.g.nsect
    modifies f, f.buf, f.fs, f.fs.win
    ensures first == old(f.buf[0]) && 0 <= Base(f.fs.g, c) < f.fs.g.nsect
      && second == old(f.fs.View())[Base(f.fs.g, c)][0]
  {
    hide FatOf, Volume.View, Geometry.Index, Geometry.Within, Geometry.PowerOfTwo, Geometry.DataFits, IsChain, SameData;
    hide Short, Own, OnlyFree, FreeCount, Damaged, Volatile, Base;
    ShortFacts(f);
    ghost var v0 := f.fs.View();
    SeekFirst(f, 1, c);
    ghost var v1 := f.fs.View();
    Rewind(f);
    first := ReadFirst(f, c);
    SeekFirst(f, 513, c);
    Rewind(f);
    ghost var v2 := f.fs.View();
    SameDataTrans(f.fs.g, v0, v1, v2);
    SameDataAt(f.fs.g, v0, v2, Base(f.fs.g, c));
    second := ReadFirst(f, c);
  }

  lemma SameDataAt(g: Geometry, a: seq<Sector>, b: seq<Sector>, s: int)
    requires SameData(g, a, b) && g.database <= s < |a|
    ensures |b| == |a| && b[s] == a[s]
  {
  }

  /** The file reads its first byte, is truncated, and gets back the one cluster it had after another file used it. It
      is stretched, reads the byte, goes to another sector and back, and reads it again: the first time it sees its old
      byte, the second time that of the other file. */
  method Rereads(f: File, c: nat, data: seq<byte>) returns (first: byte, second: byte)
    requires Good(f) && f.objsize > 0 && f.chain == [c] && OthersUsed(f.fs.Fat(), c) && f.fs.g.csize >= 2
    requires |data| == 512 && data[0] != f.Bytes()[0]
    modifies f, f.buf, f.fs, f.fs.win
    ensures first == old(f.Bytes()[0]) && second == data[0] && first != second
  {
    hide FatOf, Volume.View, Geometry.Index, Geometry.Within, Geometry.PowerOfTwo, Geometry.DataFits, IsChain, SameData;
    hide Content, Sound, CursorOk, OnlyFree, OthersUsed, FreeCount, Damaged;
    Leave(f, c);
    LeftFacts(f);
    ghost var w := f.fs.winsect;
    Overwritten(f.fs, c, data);
    EmptyShort(f, w);
    first, second := Twice(f, c);
  }
}
