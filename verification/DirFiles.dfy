/** A directory and open files on one volume: registering and removing names leaves every open file as it is, but for
    the number of free clusters. */
module DirFiles {
  import opened Bytes
  import opened FatChains
  import opened FatOwnership
  import opened Volumes
  import opened ClusterAlloc
  import opened FileLayout
  import opened OpenFile
  import opened FileIsolation
  import opened FileRuns
  import opened VolumeRuns
  import DirTable
  import LongNames
  import D = Directories
  import W = DirWindow

  /** The files are shared as before, and the directory is that of owner `o`. */
  ghost predicate Beside(d: DirTable.Dir, files: seq<File>, fs: Volume, own: Owners, o: nat)
    reads d, fs, fs.win, files, (set f | f in files :: f.buf), set f | f in files :: f.cltbl
  {
    && d.fs == fs && Shared(files, fs, own) && W.Good(d) && CountOk(fs) && d.chain == ChainOf(own, o) && o >= |files|
    && forall j :: 0 <= j < |files| ==> OwnBuffer(files[j])
  }

  lemma OnlyConfined(g: Geometry, p: Place, q: Place)
    requires W.Only(g, p, q)
    ensures Confined(g, p, q)
  {
    GrownKeepsOthers(p.fat, p.chain, q.fat, q.chain);
    hide Grown, OnlyOwn, WindowIn, CutTo, OthersKept;
    W.GrownPrefix(p.fat, p.chain, q.fat, q.chain);
  }

  /** The views of the files with another number of free clusters. */
  ghost function Freed(vs: seq<FileView>, free: nat): (ws: seq<FileView>)
    ensures |ws| == |vs| && forall j :: 0 <= j < |vs| ==> ws[j] == vs[j].(free := free)
  {
    seq(|vs|, j requires 0 <= j < |vs| => vs[j].(free := free))
  }

  /** The objects of the files, and their buffers, are what they were at place `p` of the volume. */
  ghost predicate Untold(files: seq<File>, fs: Volume, was: seq<Held>, own: Owners, p: Place, vs: seq<FileView>)
    reads fs, fs.win, files, (set f | f in files :: f.buf), set f | f in files :: f.cltbl
  {
    && OneVolume(files, fs) && fs.Valid() && |was| == |files| == |vs|
    && forall j :: 0 <= j < |files| ==>
         && Was(was[j], fs.g, p, files[j].canRead, files[j].canWrite, MapView(files[j])) && OwnBuffer(files[j])
         && files[j].Ready() && files[j].err == Ok && files[j].MapOk() && files[j].Fields() == was[j].fields
         && files[j].Snap() == was[j].snap.(view := fs.View()) && files[j].chain == ChainOf(own, j)
         && was[j].view == vs[j]
  }

  lemma UntoldFirst(d: DirTable.Dir, files: seq<File>, fs: Volume, own: Owners, o: nat, vs: seq<FileView>)
      returns (was: seq<Held>)
    requires Beside(d, files, fs, own, o) && Shows(files, fs, vs)
    ensures Untold(files, fs, was, own, W.PlaceOf(d), vs)
    ensures Partition(W.PlaceOf(d).fat, own) && W.PlaceOf(d).chain == ChainOf(own, o)
    ensures |W.PlaceOf(d).fat| == fs.g.nFatent
  {
    hide FatOf, Volume.View, Usable, Partition, ChainOf, Was, CountOk, W.Good, Own;
    was := AllHold(files, fs, W.PlaceOf(d));
  }

  /** After a call on the directory. */
  lemma FilesKept(d: DirTable.Dir, files: seq<File>, fs: Volume, was: seq<Held>, own: Owners, o: nat, p: Place,
                  vs: seq<FileView>)
    requires Untold(files, fs, was, own, p, vs) && d.fs == fs && W.Good(d) && CountOk(fs) && o >= |files|
    requires Partition(p.fat, own) && p.chain == ChainOf(own, o) && |p.fat| == fs.g.nFatent
    requires W.Only(fs.g, p, W.PlaceOf(d))
    ensures Beside(d, files, fs, Owning(own, o, d.chain), o) && Shows(files, fs, Freed(vs, FreeCount(fs.Fat())))
  {
    hide FatOf, Volume.View, Usable, Partition, ChainOf, Was, CountOk, W.Only, Own, Confined, Owning, File.Ready,
      File.MapOk;
    hide FreeCount, ViewOf;
    var q := W.PlaceOf(d);
    OnlyConfined(fs.g, p, q);
    AfterDir(d);
    CallKeepsPartition(fs.g, own, o, p, q);
    OwningChains(own, o, d.chain);
    OthersStay(files, fs, was, own, o, p, q);
  }

  lemma AfterDir(d: DirTable.Dir)
    requires W.Good(d)
    ensures d.fs.Valid() && d.fs.g.Wf() && |d.fs.Fat()| == d.fs.g.nFatent
  {
  }

  lemma SameFree(files: seq<File>, fs: Volume, vs: seq<FileView>)
    requires OneVolume(files, fs) && Shows(files, fs, vs) && fs.Valid()
    ensures Freed(vs, FreeCount(fs.Fat())) == vs
  {
    hide Usable, FreeCount, FatOf;
  }

  /** `dir_register` beside open files. */
  method Register(d: DirTable.Dir, files: seq<File>, fs: Volume, sn: seq<byte>, lossy: bool, long: bool, invalid: bool,
                  nt: byte, buf: seq<nat>, ghost name: seq<nat>, up: nat -> nat, ghost own: Owners, ghost o: nat,
                  ghost vs: seq<FileView>)
      returns (res: W.Outcome, fn: seq<byte>, ghost s: nat, ghost m: nat, ghost more: seq<LongNames.Entry>,
        ghost own': Owners)
    requires Beside(d, files, fs, own, o) && Shows(files, fs, vs)
    requires |sn| == 11 && LongNames.Holds(buf, name) && LongNames.IsName(name)
    modifies d, fs, fs.win
    ensures res == W.Failed ==> !fs.g.reliable
    ensures res != W.Failed ==> own' == Owning(own, o, d.chain) && Beside(d, files, fs, own', o)
    ensures res != W.Failed ==> Shows(files, fs, Freed(vs, FreeCount(fs.Fat())))
    ensures |fn| == 11 && (res == W.BadName <==> invalid) && m == (if long then LongNames.SlotCount(|name|) else 0)
    ensures res != W.Failed && res != W.BadName ==>
              W.RegisterSpec(d, old(W.Table(d)), more, res, sn, fn, lossy, s, m, nt, buf, name, up, true)
  {
    hide FatOf, Volume.View, Usable, Partition, ChainOf, Was, CountOk, W.Only, Own, W.PlaceOf, File.MapOk,
      W.RegisterSpec;
    hide Freed, LongNames.IsName, LongNames.Holds;
    ghost var p := W.PlaceOf(d);
    ghost var was := UntoldFirst(d, files, fs, own, o, vs);
    own' := own;
    res, fn, s, m, more := W.DirRegister(d, sn, lossy, long, invalid, nt, buf, name, up);
    if res != W.Failed {
      FilesKept(d, files, fs, was, own, o, p, vs);
      own' := Owning(own, o, d.chain);
    }
  }

  /** `dir_remove` beside open files. */
  method Remove(d: DirTable.Dir, files: seq<File>, fs: Volume, blk: int, ghost own: Owners, ghost o: nat,
                ghost vs: seq<FileView>)
      returns (ok: bool, ghost own': Owners)
    requires Beside(d, files, fs, own, o) && Shows(files, fs, vs) && W.On(d) && blk <= W.Cur(d)
    modifies d, fs, fs.win
    ensures ok || !fs.g.reliable
    ensures ok ==> own' == Owning(own, o, d.chain) && Beside(d, files, fs, own', o)
    ensures ok ==> Shows(files, fs, vs)
    ensures ok ==> W.On(d) && W.Cur(d) == old(W.Cur(d))
    ensures ok ==> D.Deleted(old(W.Table(d)), W.Table(d), if blk < 0 then old(W.Cur(d)) else blk as nat, old(W.Cur(d)))
  {
    hide FatOf, Volume.View, Usable, Partition, ChainOf, Was, CountOk, W.Only, Own, W.PlaceOf, File.MapOk, Freed;
    ghost var p := W.PlaceOf(d);
    ghost var was := UntoldFirst(d, files, fs, own, o, vs);
    own' := own;
    SameFree(files, fs, vs);
    ok := W.DirRemove(d, blk);
    if ok {
      FilesKept(d, files, fs, was, own, o, p, vs);
      own' := Owning(own, o, d.chain);
    }
  }
}
