/** Runs of calls on any number of open files of one volume: each file is a sequence of bytes with a cursor, and what
    one file sees of the calls on the others is the number of free clusters. */
module VolumeRuns {
  import opened Bytes
  import opened FatChains
  import opened FatOwnership
  import opened Volumes
  import opened ClusterAlloc
  import opened FileLayout
  import opened OpenFile
  import opened FileIsolation
  import opened FileRuns

  // ---------------------------------------------------------------- the files as their callers see them

  /** One call on the file `i` of several. */
  ghost predicate SystemStep(vs: seq<FileView>, i: nat, op: Op, r: Answer, ws: seq<FileView>) {
    && i < |vs| == |ws| && Step(vs[i], op, r, ws[i])
    && forall j :: 0 <= j < |vs| && j != i ==> ws[j] == vs[j].(free := ws[i].free)
  }

  /** A call on the file with the number `file`. */
  datatype Request = Request(file: nat, op: Op)

  ghost predicate SystemTrace(calls: seq<Request>, answers: seq<Answer>, states: seq<seq<FileView>>) {
    && |states| == |calls| + 1 && |answers| == |calls|
    && (forall k :: 0 <= k <= |calls| ==> |states[k]| == |states[0]|)
    && forall k :: 0 <= k < |calls| ==> SystemStep(states[k], calls[k].file, calls[k].op, answers[k], states[k + 1])
  }

  lemma SystemNone(states: seq<seq<FileView>>)
    requires |states| == 1
    ensures SystemTrace([], [], states)
  {
  }

  lemma SystemMore(calls: seq<Request>, answers: seq<Answer>, states: seq<seq<FileView>>, c: Request, r: Answer,
                   ws: seq<FileView>)
    requires SystemTrace(calls, answers, states) && SystemStep(states[|calls|], c.file, c.op, r, ws)
    ensures SystemTrace(calls + [c], answers + [r], states + [ws])
  {
  }

  /** No byte that the call writes lies over byte `k` of file `j`. */
  ghost predicate Spares(vs: seq<FileView>, c: Request, r: Answer, j: nat, k: nat)
    requires c.file < |vs|
  {
    c.file == j ==> Misses(vs[j], c.op, r, k)
  }

  /** A byte of one file that no call on that file writes over, in a part of a run where that file always reaches it, is
      what it was, whatever is done to the other files. */
  lemma {:induction false} SystemMisses(calls: seq<Request>, answers: seq<Answer>, states: seq<seq<FileView>>, j: nat,
                                        k: nat, m: nat, n: nat)
    requires SystemTrace(calls, answers, states) && m <= n <= |calls| && j < |states[0]|
    requires forall x :: m <= x <= n ==> k < |states[x][j].content|
    requires forall x :: m <= x < n ==> calls[x].file < |states[x]| && Spares(states[x], calls[x], answers[x], j, k)
    ensures states[n][j].content[k] == states[m][j].content[k]
    decreases n - m
  {
    if n > m {
      hide SystemStep, Spares;
      SystemMisses(calls, answers, states, j, k, m, n - 1);
      var c := calls[n - 1];
      assert SystemStep(states[n - 1], c.file, c.op, answers[n - 1], states[n]);
      assert Spares(states[n - 1], c, answers[n - 1], j, k);
      StepSpares(states[n - 1], c, answers[n - 1], states[n], j, k);
    }
  }

  lemma StepSpares(vs: seq<FileView>, c: Request, r: Answer, ws: seq<FileView>, j: nat, k: nat)
    requires SystemStep(vs, c.file, c.op, r, ws) && j < |vs| && Spares(vs, c, r, j, k)
    requires k < |vs[j].content| && k < |ws[j].content|
    ensures ws[j].content[k] == vs[j].content[k]
  {
    if c.file == j {
      StepMisses(vs[j], c.op, r, ws[j], k);
    }
  }

  /** What the first call of a run writes to file `j` the last call of the run, a read of the same place of that file,
      gives back, whatever is done to the other files, unless the file itself was written there or cut off. */
  lemma SystemReadsBack(calls: seq<Request>, answers: seq<Answer>, states: seq<seq<FileView>>, j: nat, data: seq<byte>)
    requires SystemTrace(calls, answers, states) && |calls| >= 2 && j < |states[0]|
    requires calls[0] == Request(j, WriteOp(data)) && answers[0].count == |data| && !answers[0].denied
    requires calls[|calls| - 1] == Request(j, ReadOp(|data|)) && !answers[|calls| - 1].denied
    requires states[|calls| - 1][j].pos == states[0][j].pos
    requires forall x :: 1 <= x < |calls| ==> states[0][j].pos + |data| <= |states[x][j].content|
    requires forall x, k :: 1 <= x < |calls| - 1 && states[0][j].pos <= k < states[0][j].pos + |data| ==>
      calls[x].file < |states[x]| && Spares(states[x], calls[x], answers[x], j, k)
    ensures answers[|calls| - 1].data == data
  {
    var n, p := |calls| - 1, states[0][j].pos;
    assert SystemStep(states[0], j, calls[0].op, answers[0], states[1]);
    assert SystemStep(states[n], j, calls[n].op, answers[n], states[n + 1]);
    if data != [] {
      forall x | 1 <= x < n ensures calls[x].file < |states[x]| {
        assert SystemStep(states[x], calls[x].file, calls[x].op, answers[x], states[x + 1]);
      }
    }
    forall i | 0 <= i < |data| ensures states[n][j].content[p + i] == data[i] {
      SystemMisses(calls, answers, states, j, p + i, 1, n);
    }
  }

  ghost function Clusters(vs: seq<FileView>): (n: nat) {
    if vs == [] then 0 else Clusters(vs[..|vs| - 1]) + vs[|vs| - 1].clusters
  }

  lemma {:induction false} ClustersAt(vs: seq<FileView>, ws: seq<FileView>, i: nat)
    requires i < |vs| == |ws| && forall j :: 0 <= j < |vs| && j != i ==> ws[j].clusters == vs[j].clusters
    ensures Clusters(ws) - ws[i].clusters == Clusters(vs) - vs[i].clusters
  {
    var n := |vs| - 1;
    if i < n {
      ClustersAt(vs[..n], ws[..n], i);
    } else {
      ClustersSame(vs[..n], ws[..n]);
    }
  }

  lemma {:induction false} ClustersSame(vs: seq<FileView>, ws: seq<FileView>)
    requires |vs| == |ws| && forall j :: 0 <= j < |vs| ==> ws[j].clusters == vs[j].clusters
    ensures Clusters(ws) == Clusters(vs)
  {
    if vs != [] {
      ClustersSame(vs[..|vs| - 1], ws[..|vs| - 1]);
    }
  }

  /** Over a run, the free clusters of the volume and those of all open files stay the same in sum. */
  lemma {:induction false} SystemConserves(calls: seq<Request>, answers: seq<Answer>, states: seq<seq<FileView>>,
    m: nat)
    requires SystemTrace(calls, answers, states) && m <= |calls| && |states[0]| > 0
    requires forall j :: 0 <= j < |states[0]| ==> states[0][j].free == states[0][0].free
    ensures forall j :: 0 <= j < |states[m]| ==> states[m][j].free == states[m][0].free
    ensures states[m][0].free + Clusters(states[m]) == states[0][0].free + Clusters(states[0])
  {
    if m > 0 {
      SystemConserves(calls, answers, states, m - 1);
      var c := calls[m - 1];
      assert SystemStep(states[m - 1], c.file, c.op, answers[m - 1], states[m]);
      ClustersAt(states[m - 1], states[m], c.file);
    }
  }

  // ---------------------------------------------------------------- the calls

  /** The files are different objects on one volume, with a buffer each. */
  ghost predicate OneVolume(files: seq<File>, fs: Volume) {
    && (forall i :: 0 <= i < |files| ==> files[i].fs == fs)
    && (forall i, j :: 0 <= i < j < |files| ==> files[i] != files[j] && files[i].buf != files[j].buf)
  }

  /** All files are usable, and the used clusters of the volume are split among them and other owners, which have the
      numbers from `|files|` on. */
  ghost predicate Shared(files: seq<File>, fs: Volume, own: Owners)
    reads fs, fs.win, files, (set f | f in files :: f.buf), set f | f in files :: f.cltbl
  {
    && OneVolume(files, fs) && fs.Valid() && Partition(fs.Fat(), own)
    && forall i :: 0 <= i < |files| ==> Usable(files[i]) && files[i].chain == ChainOf(own, i)
  }

  /** The buffer holds a sector of the file, or none. */
  ghost predicate OwnBuffer(f: File)
    reads f
  {
    f.sect == 0 || Own(f.fs.g, f.chain, f.sect)
  }

  ghost predicate Shows(files: seq<File>, fs: Volume, vs: seq<FileView>)
    requires OneVolume(files, fs)
    reads fs, fs.win, files, (set f | f in files :: f.buf), set f | f in files :: f.cltbl
  {
    |vs| == |files| && forall i :: 0 <= i < |files| ==> Usable(files[i]) && vs[i] == ViewOf(files[i])
  }

  ghost predicate Sane(fs: Volume)
    reads fs, fs.win
  {
    fs.Valid() && fs.g.reliable && !Damaged(fs.Fat())
  }

  /** Who owns what when the file of owner `o` has the chain `cs`. */
  ghost function Owning(own: Owners, o: nat, cs: seq<nat>): (own': Owners) {
    if cs == [] then own - {o} else own[o := cs]
  }

  lemma OwningChains(own: Owners, o: nat, cs: seq<nat>)
    ensures ChainOf(Owning(own, o, cs), o) == cs
    ensures forall p :: p != o ==> ChainOf(Owning(own, o, cs), p) == ChainOf(own, p)
  {
  }

  /** A call on the file of owner `o` keeps the split of the clusters. */
  lemma CallKeepsPartition(g: Geometry, own: Owners, o: nat, p: Place, q: Place)
    requires g.Wf() && |p.fat| == g.nFatent && Partition(p.fat, own) && p.chain == ChainOf(own, o) && Confined(g, p, q)
    ensures Partition(q.fat, Owning(own, o, q.chain))
  {
    hide Grown, Partition, CutFat, OthersKept, OnlyOwn;
    if Grown(p.fat, p.chain, q.fat, q.chain) {
      GrownKeepsPartition(p.fat, own, o, q.fat, q.chain);
    } else if o in own {
      CutKeepsPartition(p.fat, own, o, q.fat, q.chain);
    } else {
      assert q.fat == p.fat && Owning(own, o, q.chain) == own;
    }
  }

  /** A file that the call was not made on. */
  lemma OtherKept(g: Geometry, own: Owners, o: nat, p: Place, q: Place, other: nat, f: Fil, a: Cache, b: Cache)
    requires Partition(p.fat, own) && p.chain == ChainOf(own, o) && Confined(g, p, q)
    requires other != o && f.chain == ChainOf(own, other)
    requires Sound(g, p.fat, p.window, f, a) && CursorOk(g, f) && (f.sect == 0 || Own(g, f.chain, f.sect))
    requires a.view == p.view && b == a.(view := q.view)
    ensures Sound(g, q.fat, q.window, f, b)
    ensures Content(g, f.chain, b, f.objsize) == Content(g, f.chain, a, f.objsize)
  {
    var top := if |p.chain| <= |q.chain| then q.chain else p.chain;
    ChainsDisjoint(p.fat, own, other, o);
    forall c | c in top ensures c in p.chain || (Cluster(p.fat, c) && p.fat[c] == 0) {
      if Grown(p.fat, p.chain, q.fat, q.chain) {
        GrownEntries(p.fat, p.chain, q.fat, q.chain);
      }
    }
    hide Sound, CursorOk, Partition, Grown, CutTo, Content, Own, OthersKept, OnlyOwn;
    OtherFileKept(g, p.fat, p.window, p.chain, q.fat, q.window, top, f, a, b);
  }

  /** What a file object holds, and what its caller sees. */
  datatype Held = Held(fields: Fil, snap: Cache, view: FileView)

  ghost function Holds(f: File): (h: Held)
    requires Usable(f)
    reads f, f.buf, f.cltbl, f.fs, f.fs.win
  {
    Held(f.Fields(), f.Snap(), ViewOf(f))
  }

  /** The file was usable at place `p` of the volume. */
  ghost predicate Was(h: Held, g: Geometry, p: Place, canRead: bool, canWrite: bool, link: Link) {
    && Sound(g, p.fat, p.window, h.fields, h.snap) && CursorOk(g, h.fields) && h.snap.view == p.view
    && h.view == FileView(Content(g, h.fields.chain, h.snap, h.fields.objsize), h.fields.fptr, canRead, canWrite,
                          link, g.ClusterBytes(), |h.fields.chain|, FreeCount(p.fat))
  }

  lemma HoldsWas(f: File, p: Place)
    requires Usable(f) && p.fat == f.fs.Fat() && p.window == f.fs.winsect && p.view == f.fs.View()
    ensures Was(Holds(f), f.fs.g, p, f.canRead, f.canWrite, MapView(f))
  {
    hide FatOf, Volume.View, Sound, CursorOk, Content, FreeCount, CountOk;
  }

  /** The same of file objects: `h` is usable as before, and its caller sees the number of free clusters change. */
  lemma FileStays(h: File, was: Held, own: Owners, o: nat, other: nat, p: Place, q: Place)
    requires h.Ready() && CountOk(h.fs) && h.err == Ok && h.MapOk() && h.Fields() == was.fields && OwnBuffer(h)
    requires q.fat == h.fs.Fat() && q.window == h.fs.winsect && h.Snap() == was.snap.(view := q.view)
    requires Was(was, h.fs.g, p, h.canRead, h.canWrite, MapView(h))
    requires Partition(p.fat, own) && p.chain == ChainOf(own, o) && other != o && h.chain == ChainOf(own, other)
    requires Confined(h.fs.g, p, q)
    ensures Usable(h) && ViewOf(h) == was.view.(free := FreeCount(q.fat))
  {
    hide FatOf, Volume.View, Sound, CursorOk, Content, Confined, Partition, Own, FreeCount, ChainOf, CountOk;
    OtherKept(h.fs.g, own, o, p, q, other, h.Fields(), was.snap, h.Snap());
  }

  lemma {:induction false} AllHold(files: seq<File>, fs: Volume, p: Place) returns (hs: seq<Held>)
    requires OneVolume(files, fs) && fs.Valid() && forall j :: 0 <= j < |files| ==> Usable(files[j])
    requires p.fat == fs.Fat() && p.window == fs.winsect && p.view == fs.View()
    ensures |hs| == |files| && forall j :: 0 <= j < |files| ==>
      && hs[j] == Holds(files[j]) && Was(hs[j], fs.g, p, files[j].canRead, files[j].canWrite, MapView(files[j]))
      && files[j].Ready() && files[j].err == Ok && files[j].MapOk()
  {
    hide FatOf, Volume.View, Usable, Was, Holds, File.Ready;
    if files == [] {
      hs := [];
    } else {
      var f := files[|files| - 1];
      hs := AllHold(files[..|files| - 1], fs, p);
      hs := hs + [Holds(f)];
      UsableFacts(f);
      HoldsWas(f, p);
    }
  }

  /** What the owner `o` does, a file or not, leaves the files of others as they are. */
  lemma OthersStay(files: seq<File>, fs: Volume, was: seq<Held>, own: Owners, o: nat, p: Place, q: Place)
    requires OneVolume(files, fs) && |was| == |files| && fs.Valid() && CountOk(fs)
    requires q.fat == fs.Fat() && q.window == fs.winsect && q.view == fs.View()
    requires Partition(p.fat, own) && p.chain == ChainOf(own, o) && Confined(fs.g, p, q)
    requires forall j :: 0 <= j < |files| && j != o ==>
      && Was(was[j], fs.g, p, files[j].canRead, files[j].canWrite, MapView(files[j])) && OwnBuffer(files[j])
      && files[j].Ready() && files[j].err == Ok && files[j].MapOk() && files[j].Fields() == was[j].fields
      && files[j].Snap() == was[j].snap.(view := fs.View()) && files[j].chain == ChainOf(own, j)
    ensures forall j :: 0 <= j < |files| && j != o ==>
      Usable(files[j]) && ViewOf(files[j]) == was[j].view.(free := FreeCount(fs.Fat()))
  {
    hide FatOf, Volume.View, Partition, Confined, Own, ChainOf, Was, File.Intact, CountOk, FreeCount;
    forall j | 0 <= j < |files| && j != o
      ensures Usable(files[j]) && ViewOf(files[j]) == was[j].view.(free := FreeCount(q.fat))
    {
      FileStays(files[j], was[j], own, o, j, p, q);
    }
  }

  ghost function NextViews(vs: seq<FileView>, i: nat, v: FileView): (ws: seq<FileView>)
    ensures |ws| == |vs| && forall j :: 0 <= j < |vs| ==> ws[j] == if j == i then v else vs[j].(free := v.free)
  {
    seq(|vs|, j requires 0 <= j < |vs| => if j == i then v else vs[j].(free := v.free))
  }

  lemma UsableFacts(f: File)
    requires Usable(f)
    ensures f.Ready() && f.err == Ok && f.MapOk() && f.fs.g.Wf() && f.fs.g.csize > 0 && |f.fs.Fat()| == f.fs.g.nFatent
    ensures ViewOf(f).free == FreeCount(f.fs.Fat())
  {
  }

  lemma ReadySane(f: File)
    requires f.Ready()
    ensures Undamaged(f) <==> Sane(f.fs)
  {
  }

  /** One call on one of the files. Whatever buffers the other files have must be theirs, or empty; after a call the
      buffer of the file is, too, just if it was, or does not lie in a part that the call cut off. The file is usable
      after the call just if that leaves its link map right. */
  method CallOn(files: seq<File>, fs: Volume, i: nat, op: Op, ghost own: Owners, ghost vs: seq<FileView>)
      returns (ok: bool, r: Answer, ghost own': Owners, ghost ws: seq<FileView>)
    requires Shared(files, fs, own) && Shows(files, fs, vs) && i < |files| && Meant(files[i], op)
    requires forall j :: 0 <= j < |files| && j != i ==> OwnBuffer(files[j])
    modifies files[i], files[i].buf, fs, fs.win
    ensures old(Sane(fs)) ==> Sane(fs) && (ok <==> !Blind(vs[i], op))
    ensures ok ==> (Shared(files, fs, own') <==> op == TruncateOp ==> old(MapStays(files[i])))
    ensures ok && Shared(files, fs, own') ==> Shows(files, fs, ws) && SystemStep(vs, i, op, r, ws)
    ensures ok ==> forall p :: p != i ==> ChainOf(own', p) == ChainOf(own, p)
    ensures ok ==> forall j :: 0 <= j < |files| && j != i ==> OwnBuffer(files[j])
    ensures ok && op != TruncateOp && old(OwnBuffer(files[i])) ==> OwnBuffer(files[i])
    ensures ok && op == TruncateOp ==> (OwnBuffer(files[i]) <==> old(BufferStays(files[i])))
    ensures forall j :: 0 <= j < |files| ==> files[j].cltbl == old(files[j].cltbl)
  {
    hide FatOf, Volume.View, Usable, Step, Partition, Confined, Own, Meant, Damaged, CountOk, ChainLeft, Owning,
      ChainOf, MapStays, Blind, Undamaged, Sane, NextViews;
    hide File.Intact, File.Held, ViewOf;
    var f := files[i];
    UsableFacts(f);
    ReadySane(f);
    ghost var p := PlaceOf(f);
    ghost var was := AllHold(files, fs, p);
    ok, r := Call(f, op);
    ReadySane(f);
    own', ws := own, vs;
    if ok {
      own' := Owning(own, i, f.chain);
      SharedAfter(files, fs, was, own, i, p, vs);
      if op != TruncateOp {
        OwnStays(fs.g, old(f.chain), f.chain, f.sect);
      }
      if Usable(f) {
        ws := NextViews(vs, i, ViewOf(f));
      }
    }
  }

  /** After a call on file `i` the files are shared again if it is usable. */
  lemma SharedAfter(files: seq<File>, fs: Volume, was: seq<Held>, own: Owners, i: nat, p: Place, vs: seq<FileView>)
    requires OneVolume(files, fs) && |was| == |files| == |vs| && i < |files| && files[i].Ready() && CountOk(fs)
    requires Partition(p.fat, own) && p.chain == ChainOf(own, i) && Confined(fs.g, p, PlaceOf(files[i]))
    requires |p.fat| == fs.g.nFatent
    requires forall j :: 0 <= j < |files| && j != i ==>
      && Was(was[j], fs.g, p, files[j].canRead, files[j].canWrite, MapView(files[j])) && OwnBuffer(files[j])
      && files[j].Ready() && files[j].err == Ok && files[j].MapOk() && files[j].Fields() == was[j].fields
      && files[j].Snap() == was[j].snap.(view := fs.View()) && files[j].chain == ChainOf(own, j) && was[j].view == vs[j]
    ensures Shared(files, fs, Owning(own, i, files[i].chain)) <==> Usable(files[i])
    ensures forall o :: o != i ==> ChainOf(Owning(own, i, files[i].chain), o) == ChainOf(own, o)
    ensures Usable(files[i]) ==> Shows(files, fs, NextViews(vs, i, ViewOf(files[i])))
  {
    hide FatOf, Volume.View, Usable, Partition, Confined, Own, CountOk, Owning, ChainOf, ViewOf, Was, File.MapOk,
      File.Snap, FreeCount;
    var f := files[i];
    AfterCall(f);
    CallKeepsPartition(fs.g, own, i, p, PlaceOf(f));
    OwningChains(own, i, f.chain);
    OthersStay(files, fs, was, own, i, p, PlaceOf(f));
    if Usable(f) {
      UsableFacts(f);
    }
  }

  lemma AfterCall(f: File)
    requires f.Ready()
    ensures f.fs.g.Wf() && f.fs.g.csize > 0 && |f.fs.Fat()| == f.fs.g.nFatent
  {
  }

  // ---------------------------------------------------------------- runs

  /** Truncating leaves the buffer on a sector that stays in the file: nothing is cut, the buffer is empty, or it holds
      a sector of the last cluster that stays. */
  predicate Settled(f: File)
    reads f
  {
    var s := Clst2Sect(f.fs.g, f.clust);
    !f.canWrite || f.fptr >= f.objsize || f.sect == 0 || (f.fptr > 0 && s <= f.sect < s + f.fs.g.csize)
  }

  lemma SettledOwn(f: File)
    requires Usable(f) && OwnBuffer(f) && Settled(f)
    ensures BufferStays(f)
  {
    hide FatOf, Volume.View, Content, Geometry.DataFits, Geometry.Index, Geometry.Within, Geometry.PowerOfTwo, CountOk;
    if f.canWrite && f.fptr < f.objsize && f.sect != 0 {
      var fat, k := f.fs.Fat(), Kept(f.fs.g, f.fptr);
      KeptBounds(f.fs.g, fat, f.fs.winsect, f.Fields(), f.Snap());
      hide Sound, CursorOk;
      assert f.chain[..k][k - 1] == f.clust;
      assert InCluster(f.fs.g, f.clust, f.sect);
    }
  }

  /** The calls of a run so far, their answers, and what the callers saw before and after each. */
  datatype History = History(calls: seq<Request>, answers: seq<Answer>, states: seq<seq<FileView>>) {
    /** What the caller of file `i` sees at the end. */
    ghost function Last(i: nat): (v: FileView) {
      if |calls| < |states| && i < |states[|calls|]| then states[|calls|][i]
      else FileView([], 0, false, false, NoMap, 0, 0, 0)
    }
  }

  /** The files are as the history says. */
  ghost predicate InRun(files: seq<File>, fs: Volume, own: Owners, h: History)
    reads fs, fs.win, files, (set f | f in files :: f.buf), set f | f in files :: f.cltbl
  {
    Shared(files, fs, own) && SystemTrace(h.calls, h.answers, h.states) && Shows(files, fs, h.states[|h.calls|])
  }

  /** One call more, in any run: the other files have buffers of their own, and the call leaves its file with the right
      link map. So every program that makes its calls under these conditions performs such a run. */
  method CallMore(files: seq<File>, fs: Volume, c: Request, ghost own: Owners, ghost h: History)
      returns (ok: bool, r: Answer, ghost own': Owners, ghost h': History)
    requires InRun(files, fs, own, h) && c.file < |files| && Meant(files[c.file], c.op)
    requires c.op == TruncateOp ==> MapStays(files[c.file])
    requires forall j :: 0 <= j < |files| && j != c.file ==> OwnBuffer(files[j])
    modifies fs, fs.win, files, set f | f in files :: f.buf
    ensures old(Sane(fs)) ==> Sane(fs) && (ok <==> !Blind(h.Last(c.file), c.op))
    ensures ok ==> InRun(files, fs, own', h') && h'.calls == h.calls + [c] && h'.answers == h.answers + [r]
    ensures ok ==> |h'.states| == |h.states| + 1 && h'.states[..|h.states|] == h.states
    ensures ok ==> forall p :: p != c.file ==> ChainOf(own', p) == ChainOf(own, p)
    ensures ok ==> forall j :: 0 <= j < |files| && j != c.file ==> OwnBuffer(files[j])
    ensures ok && c.op != TruncateOp && old(OwnBuffer(files[c.file])) ==> OwnBuffer(files[c.file])
    ensures ok && c.op == TruncateOp ==> (OwnBuffer(files[c.file]) <==> old(BufferStays(files[c.file])))
    ensures forall j :: 0 <= j < |files| ==> files[j].cltbl == old(files[j].cltbl)
  {
    hide *;
    RunFacts(files, fs, own, h);
    ghost var ws;
    h' := h;
    ok, r, own', ws := CallOn(files, fs, c.file, c.op, own, h.states[|h.calls|]);
    if ok {
      SystemMore(h.calls, h.answers, h.states, c, r, ws);
      h' := History(h.calls + [c], h.answers + [r], h.states + [ws]);
      Continues(files, fs, own', h');
    }
  }

  lemma Continues(files: seq<File>, fs: Volume, own: Owners, h: History)
    requires Shared(files, fs, own) && SystemTrace(h.calls, h.answers, h.states)
    requires |h.states| > |h.calls| && OneVolume(files, fs) && Shows(files, fs, h.states[|h.calls|])
    ensures InRun(files, fs, own, h)
  {
  }

  /** Calls on the files in any order, up to the first that fails, or the first truncation that could leave a buffer or
      a link map behind. On a device that does not fail and a FAT without damage none fails but a seek with a link map
      that is older than the first cluster of its file. Who else has clusters keeps them. */
  method RunAll(files: seq<File>, fs: Volume, calls: seq<Request>, ghost own: Owners)
      returns (end: End, answers: seq<Answer>, ghost own': Owners, ghost states: seq<seq<FileView>>)
    requires Shared(files, fs, own) && forall j :: 0 <= j < |files| ==> OwnBuffer(files[j])
    requires forall k :: 0 <= k < |calls| ==> calls[k].file < |files|
    requires forall k :: 0 <= k < |calls| ==> Fits(calls[k].op, files[calls[k].file].cltbl)
    modifies fs, fs.win, files, set f | f in files :: f.buf
    ensures |answers| <= |calls| && (end == Done ==> |answers| == |calls|)
    ensures SystemTrace(calls[..|answers|], answers, states) && old(Shows(files, fs, states[0]))
    ensures end == Failed && old(Sane(fs)) ==>
      |answers| < |calls| && calls[|answers|].file < |states[|answers|]|
      && Blind(states[|answers|][calls[|answers|].file], calls[|answers|].op)
    ensures end != Failed ==> Shared(files, fs, own') && Shows(files, fs, states[|answers|])
    ensures end != Failed ==> forall j :: 0 <= j < |files| ==> OwnBuffer(files[j])
    ensures end != Failed ==> forall p :: p >= |files| ==> ChainOf(own', p) == ChainOf(own, p)
    ensures end == Unsettled ==>
              |answers| < |calls| && calls[|answers|].op == TruncateOp
              && !(Settled(files[calls[|answers|].file]) && Uncut(files[calls[|answers|].file]))
  {
    hide *;
    ghost var vs := FirstViews(files, fs, own);
    ghost var h := History([], [], [vs]);
    SystemNone([vs]);
    Begins(files, fs, own, vs);
    end, answers, own', states := Done, [], own, [vs];
    for k := 0 to |calls|
      invariant end == Done && |answers| == k && h == History(calls[..k], answers, states) && |states| == k + 1
      invariant InRun(files, fs, own', h) && (old(Sane(fs)) ==> Sane(fs)) && OneVolume(files, fs)
      invariant forall j :: 0 <= j < |files| ==> OwnBuffer(files[j])
      invariant forall j :: 0 <= j < |files| ==> files[j].cltbl == old(files[j].cltbl)
      invariant states[0] == vs && old(Shows(files, fs, states[0]))
      invariant forall p :: p >= |files| ==> ChainOf(own', p) == ChainOf(own, p)
    {
      var c := calls[k];
      RunFacts(files, fs, own', h);
      if c.op == TruncateOp && !(Settled(files[c.file]) && Uncut(files[c.file])) {
        return Unsettled, answers, own', states;
      }
      MeantIn(files, calls, k);
      var ok, r;
      ok, r, own', h := Turn(files, fs, c, own', h);
      if !ok {
        return Failed, answers, own', states;
      }
      assert calls[..k] + [c] == calls[..k + 1];
      answers, states := answers + [r], h.states;
    }
    assert calls[..|calls|] == calls;
    RunFacts(files, fs, own', h);
  }

  lemma Begins(files: seq<File>, fs: Volume, own: Owners, vs: seq<FileView>)
    requires Shared(files, fs, own) && Shows(files, fs, vs) && SystemTrace([], [], [vs])
    ensures InRun(files, fs, own, History([], [], [vs])) && OneVolume(files, fs)
  {
  }

  lemma RunFacts(files: seq<File>, fs: Volume, own: Owners, h: History)
    requires InRun(files, fs, own, h)
    ensures Shared(files, fs, own) && OneVolume(files, fs) && SystemTrace(h.calls, h.answers, h.states)
    ensures |h.states| == |h.calls| + 1 && Shows(files, fs, h.states[|h.calls|])
    ensures |h.states[|h.calls|]| == |files| && fs.g.csize > 0
    ensures forall i: nat :: i < |files| ==> h.Last(i) == h.states[|h.calls|][i]
  {
    hide Usable, SystemStep, Partition;
  }

  lemma MeantIn(files: seq<File>, calls: seq<Request>, k: nat)
    requires k < |calls| && calls[k].file < |files| && Fits(calls[k].op, files[calls[k].file].cltbl)
    ensures Meant(files[calls[k].file], calls[k].op)
  {
  }

  /** One call of a run, which leaves all files with buffers of their own. */
  method Turn(files: seq<File>, fs: Volume, c: Request, ghost own: Owners, ghost h: History)
      returns (ok: bool, r: Answer, ghost own': Owners, ghost h': History)
    requires InRun(files, fs, own, h) && c.file < |files| && Meant(files[c.file], c.op)
    requires forall j :: 0 <= j < |files| ==> OwnBuffer(files[j])
    requires c.op == TruncateOp ==> Settled(files[c.file]) && Uncut(files[c.file])
    modifies fs, fs.win, files, set f | f in files :: f.buf
    ensures old(Sane(fs)) ==> Sane(fs) && (ok <==> !Blind(h.Last(c.file), c.op))
    ensures ok ==> InRun(files, fs, own', h') && h'.calls == h.calls + [c] && h'.answers == h.answers + [r]
    ensures ok ==> |h'.states| == |h.states| + 1 && h'.states[..|h.states|] == h.states
    ensures ok ==> forall j :: 0 <= j < |files| ==> OwnBuffer(files[j])
    ensures ok ==> forall p :: p >= |files| ==> ChainOf(own', p) == ChainOf(own, p)
    ensures forall j :: 0 <= j < |files| ==> files[j].cltbl == old(files[j].cltbl)
  {
    hide FatOf, Volume.View, Usable, Partition, Own, Meant, ChainLeft, ChainOf, SystemStep, SystemTrace, Settled, Sane;
    hide Uncut, MapStays, Blind, Shows;
    RunFacts(files, fs, own, h);
    if c.op == TruncateOp {
      SettledOwn(files[c.file]);
      UncutStays(files[c.file]);
    }
    ok, r, own', h' := CallMore(files, fs, c, own, h);
  }

  lemma FirstViews(files: seq<File>, fs: Volume, own: Owners) returns (vs: seq<FileView>)
    requires Shared(files, fs, own)
    ensures OneVolume(files, fs) && Shows(files, fs, vs)
  {
    hide FatOf, Volume.View, Usable, Partition, Was, ChainOf;
    var hs := AllHold(files, fs, Place(fs.Fat(), fs.winsect, fs.View(), []));
    vs := seq(|hs|, j requires 0 <= j < |hs| => hs[j].view);
  }
}
