/** Whole runs of `f_read`, `f_write`, `f_lseek` and `f_truncate` on one open file: they are runs of a sequence of
    bytes with a cursor. */
module FileRuns {
  import opened Bytes
  import opened FatChains
  import opened Volumes
  import opened FileLayout
  import opened FileBytes
  import opened ClusterAlloc
  import opened OpenFile
  import opened FileIsolation
  import opened LinkTable
  import Division
  import LinkMap
  import FatOwnership

  datatype Op = ReadOp(want: nat) | WriteOp(data: seq<byte>) | SeekOp(ofs: nat) | TruncateOp

  /** What a call hands back: the bytes that were read, the number of bytes that were written, and whether the file is
      not open for that kind of access. */
  datatype Answer = Answer(data: seq<byte>, count: nat, denied: bool)

  /** The link map of a file: none, one of all its clusters, or one that is older than its first cluster. */
  datatype Link = NoMap | Whole | Early

  /** The file as a caller sees it: with its link map, the number of clusters that it has, of `unit` bytes each, and of
      those free on the volume. */
  datatype FileView = FileView(content: seq<byte>, pos: nat, canRead: bool, canWrite: bool, link: Link, unit: nat,
                               clusters: nat, free: nat)
  {
    /** The file pointer is at the end of the last cluster, and the file gets no other. */
    predicate Stuck() { pos == clusters * unit && (free == 0 || (link != NoMap && clusters > 0)) }

    /** The link map when the file has `n` clusters. */
    function MapOf(n: nat): (m: Link) {
      if link == NoMap then NoMap else if n == (if link == Whole then clusters else 0) then Whole else Early
    }
  }

  /** The requests that the interface can express: its lengths and offsets are 32 bits wide. The greatest offset means
      CREATE_LINKMAP for a file with a link map. */
  predicate Sized(op: Op) {
    match op
    case ReadOp(want) => want <= 0xFFFF_FFFF
    case WriteOp(data) => |data| <= 0xFFFF_FFFF
    case SeekOp(ofs) => ofs <= 0xFFFF_FFFF
    case TruncateOp => true
  }

  function Least(a: int, b: int): int { if a < b then a else b }

  /** The file is open for what the call does. */
  predicate Allowed(s: FileView, op: Op) {
    match op
    case ReadOp(_) => s.canRead
    case WriteOp(_) => s.canWrite
    case SeekOp(_) => true
    case TruncateOp => s.canWrite
  }

  /** A seek that fails: the link map is older than the first cluster of the file. */
  predicate Blind(s: FileView, op: Op) { op.SeekOp? && s.link == Early && op.ofs > 0 && |s.content| > 0 }

  /** One call that does not fail. A write stops short only at 4 GiB - 1, or at the end of the last cluster when none is
      free or the file has a link map, and a seek stops in front of its target only there when none is free; without
      write access or with a link map a target is cut to the size. What lies between the old end of the file and the
      target of a seek is unspecified. Clusters are free or in the file as before in sum. */
  ghost predicate Step(s: FileView, op: Op, r: Answer, t: FileView) {
    && s.pos <= |s.content| && t.pos <= |t.content| <= 0xFFFF_FFFF
    && t.canRead == s.canRead && t.canWrite == s.canWrite && t.free + t.clusters == s.free + s.clusters
    && t.unit == s.unit && t.link == s.MapOf(t.clusters)
    && (s.link != NoMap ==> t.clusters <= s.clusters || t.clusters == 1)
    && if Allowed(s, op) then !r.denied && Effect(s, op, r, t) else r == Answer([], 0, true) && t == s
  }

  ghost predicate Effect(s: FileView, op: Op, r: Answer, t: FileView)
    requires s.pos <= |s.content|
  {
    match op
    case ReadOp(want) =>
      && t == s.(pos := Least(s.pos + want, |s.content|))
      && r.data == s.content[s.pos..t.pos]
    case WriteOp(data) =>
      && r.count <= |data| && t.pos == s.pos + r.count
      && t.content == Overwrite(s.content, s.pos, data[..r.count])
      && s.clusters <= t.clusters && (r.count == |data| || t.pos == 0xFFFF_FFFF || t.Stuck())
    case SeekOp(ofs) =>
      var target := if s.canWrite && s.link == NoMap then ofs else Least(ofs, |s.content|);
      && !Blind(s, op) && (t.pos == target || (s.canWrite && s.link == NoMap && t.pos < target && t.Stuck()))
      && s.clusters <= t.clusters && (t.clusters != s.clusters ==> s.canWrite && s.link == NoMap)
      && |t.content| == (if t.pos > |s.content| then t.pos else |s.content|) && s.content <= t.content
    case TruncateOp =>
      t.content == s.content[..s.pos] && t.pos == s.pos && t.clusters <= s.clusters
  }

  ghost predicate Trace(ops: seq<Op>, answers: seq<Answer>, views: seq<FileView>) {
    |views| == |ops| + 1 && |answers| == |ops| && forall i :: 0 <= i < |ops| ==>
      Step(views[i], ops[i], answers[i], views[i + 1])
  }

  lemma TraceNone(views: seq<FileView>)
    requires |views| == 1
    ensures Trace([], [], views)
  {
  }

  lemma TraceMore(ops: seq<Op>, answers: seq<Answer>, views: seq<FileView>, op: Op, r: Answer, v: FileView)
    requires Trace(ops, answers, views) && Step(views[|ops|], op, r, v)
    ensures Trace(ops + [op], answers + [r], views + [v])
  {
  }

  // ---------------------------------------------------------------- what a run means for its caller

  /** No byte that the call writes lies over `k`. */
  ghost predicate Misses(s: FileView, op: Op, r: Answer, k: nat) {
    op.WriteOp? ==> !(s.pos <= k < s.pos + r.count)
  }

  lemma StepMisses(s: FileView, op: Op, r: Answer, t: FileView, k: nat)
    requires Step(s, op, r, t) && Misses(s, op, r, k) && k < |s.content| && k < |t.content|
    ensures t.content[k] == s.content[k]
  {
  }

  /** A byte that no write of this part of a run lies over, in a file that always reaches it, is what it was. */
  lemma {:induction false} RunMisses(ops: seq<Op>, answers: seq<Answer>, views: seq<FileView>, k: nat, m: nat, n: nat)
    requires Trace(ops, answers, views) && m <= n <= |ops|
    requires forall i :: m <= i <= n ==> k < |views[i].content|
    requires forall i :: m <= i < n ==> Misses(views[i], ops[i], answers[i], k)
    ensures views[n].content[k] == views[m].content[k]
    decreases n - m
  {
    if n > m {
      RunMisses(ops, answers, views, k, m, n - 1);
      StepMisses(views[n - 1], ops[n - 1], answers[n - 1], views[n], k);
    }
  }

  /** What was written by the first call of a run is read back by the last, wherever the file pointer went in between,
      if it is back at the place of the write, and nothing was written over those bytes or cut off. */
  lemma ReadsBack(ops: seq<Op>, answers: seq<Answer>, views: seq<FileView>, data: seq<byte>)
    requires Trace(ops, answers, views) && |ops| >= 2
    requires ops[0] == WriteOp(data) && answers[0].count == |data| && !answers[0].denied && !answers[|ops| - 1].denied
    requires ops[|ops| - 1] == ReadOp(|data|) && views[|ops| - 1].pos == views[0].pos
    requires forall i :: 1 <= i < |ops| ==> views[0].pos + |data| <= |views[i].content|
    requires forall i, k :: 1 <= i < |ops| - 1 && views[0].pos <= k < views[0].pos + |data| ==>
      Misses(views[i], ops[i], answers[i], k)
    ensures answers[|ops| - 1].data == data
  {
    var n, p := |ops| - 1, views[0].pos;
    assert Step(views[0], ops[0], answers[0], views[1]);
    assert Step(views[n], ops[n], answers[n], views[n + 1]);
    forall j | 0 <= j < |data| ensures views[n].content[p + j] == data[j] {
      RunMisses(ops, answers, views, p + j, 1, n);
    }
  }

  // ---------------------------------------------------------------- the calls

  ghost predicate Usable(f: File)
    reads f, f.buf, f.cltbl, f.fs, f.fs.win
  {
    f.Ready() && f.err == Ok && f.Intact() && f.MapOk() && CountOk(f.fs)
  }

  ghost function ViewOf(f: File): FileView
    requires Usable(f)
    reads f, f.buf, f.cltbl, f.fs, f.fs.win
  {
    FileView(f.Bytes(), f.fptr, f.canRead, f.canWrite, MapView(f), f.fs.g.ClusterBytes(), |f.chain|,
             FreeCount(f.fs.Fat()))
  }

  ghost function MapView(f: File): (m: Link)
    reads f
  {
    if f.cltbl == null then NoMap else if f.mapped == f.chain then Whole else Early
  }

  /** Truncating leaves the link map right: there is none, nothing is cut, or it is older than the first cluster. */
  ghost predicate MapStays(f: File)
    reads f
  {
    || f.cltbl == null || !f.canWrite || f.fptr >= f.objsize || f.mapped == []
    || (f.fs.g.csize > 0 && Kept(f.fs.g, f.fptr) == |f.chain|)
  }

  /** Truncating leaves the buffer empty or on a sector of the file. */
  ghost predicate BufferStays(f: File)
    reads f
  {
    f.sect == 0 || (f.fs.g.csize > 0 && Own(f.fs.g, ChainLeft(f), f.sect))
  }

  ghost predicate Meant(f: File, op: Op)
    reads f
  {
    Fits(op, f.cltbl)
  }

  ghost predicate Undamaged(f: File)
    requires f.Ready()
    reads f, f.buf, f.fs, f.fs.win
  {
    f.fs.g.reliable && !Damaged(f.fs.Fat())
  }

  lemma Bounds(f: File)
    requires f.Ready() && f.Intact()
    ensures f.fptr <= |f.Bytes()| == f.objsize <= 0xFFFF_FFFF
  {
  }

  /** How the link map, if there is one, fits the chain. */
  lemma MapFits(f: File)
    requires f.MapOk()
    ensures f.cltbl == null || f.mapped == f.chain || (f.mapped == [] && |f.chain| == 1)
  {
  }

  lemma NoMapFits(f: File)
    requires f.cltbl == null
    ensures f.MapOk()
  {
  }

  lemma BlindOnly(f: File, op: Op)
    requires Usable(f) && Blind(ViewOf(f), op)
    ensures op.SeekOp? && f.cltbl != null
  {
  }

  /** What the file shares with others. */
  ghost function PlaceOf(f: File): Place
    requires f.Ready()
    reads f, f.fs, f.fs.win
  {
    Place(f.fs.Fat(), f.fs.winsect, f.fs.View(), f.chain)
  }

  /** The clusters that truncating would leave in the file. */
  ghost function ChainLeft(f: File): (cs: seq<nat>)
    requires f.fs.g.csize > 0
    reads f
  {
    if f.canWrite && f.fptr < f.objsize && Kept(f.fs.g, f.fptr) <= |f.chain| then f.chain[..Kept(f.fs.g, f.fptr)]
    else f.chain
  }

  /** One call; `ok` unless it answers with an error. The buffer then holds what it held, or a sector of the file. */
  method Call(f: File, op: Op) returns (ok: bool, r: Answer)
    requires Usable(f) && Meant(f, op)
    modifies f, f.buf, f.fs, f.fs.win
    ensures f.Ready() && (old(Undamaged(f)) ==> Undamaged(f) && (ok <==> !old(Blind(ViewOf(f), op))))
    ensures ok ==> (Usable(f) <==> op == TruncateOp ==> old(MapStays(f)))
    ensures ok && Usable(f) ==> Step(old(ViewOf(f)), op, r, ViewOf(f))
    ensures ok ==> Confined(f.fs.g, old(PlaceOf(f)), PlaceOf(f))
    ensures f.cltbl == old(f.cltbl) && (ok ==> CountOk(f.fs))
    ensures ok ==> f.sect == old(f.sect) || Own(f.fs.g, f.chain, f.sect)
    ensures ok && op == TruncateOp ==> f.sect == old(f.sect) && f.chain == old(ChainLeft(f))
    ensures ok && op != TruncateOp ==> old(f.chain) <= f.chain
  {
    hide Usable, ViewOf, Undamaged, Step, File.Ready, File.Full, Confined, Own, ChainLeft, MapStays;
    if Blind(ViewOf(f), op) {
      BlindOnly(f, op);
    }
    hide Blind;
    match op
    case ReadOp(want) =>
      ok, r := CallRead(f, want);
    case WriteOp(data) =>
      ok, r := CallWrite(f, data);
    case SeekOp(ofs) =>
      if f.cltbl == null {
        ok, r := CallSeek(f, ofs);
      } else {
        ok, r := CallFastSeek(f, ofs);
      }
    case TruncateOp =>
      ok, r := CallTruncate(f);
  }

  method CallRead(f: File, want: nat) returns (ok: bool, r: Answer)
    requires Usable(f)
    modifies f, f.buf, f.fs, f.fs.win
    ensures f.Ready() && (old(Undamaged(f)) ==> ok && Undamaged(f))
    ensures ok ==> Usable(f) && Step(old(ViewOf(f)), ReadOp(want), r, ViewOf(f))
    ensures ok ==> Confined(f.fs.g, old(PlaceOf(f)), PlaceOf(f))
    ensures f.cltbl == old(f.cltbl) && (ok ==> CountOk(f.fs))
    ensures ok ==> f.sect == old(f.sect) || Own(f.fs.g, f.chain, f.sect)
    ensures ok ==> old(f.chain) <= f.chain
  {
    hide FatOf, Volume.View, Sound, Content, CursorOk, OnlyOwn, OthersKept, Grown, CutFat, EntryPut;
    hide FreeCount, Own, IsChain, IsTable, Geometry.ClusterBytes, File.MapOk, Damaged;
    Bounds(f);
    ChainFacts(f);
    MapFits(f);
    GrownRefl(f.fs.Fat(), f.chain);
    GrownKeepsOthers(f.fs.Fat(), f.chain, f.fs.Fat(), f.chain);
    var res, data := Deliver(f, want);
    ok, r := res == Ok || res == Denied, Answer(data, |data|, res == Denied);
  }

  /** `f_read`, with what it puts into the caller's memory. */
  method Deliver(f: File, want: nat) returns (res: FResult, data: seq<byte>)
    requires f.Ready() && f.err == Ok && f.Intact() && f.MapOk()
    modifies f`err, f`fptr, f`clust, f`dirty, f`sect, f.buf, f.fs`disk, f.fs`winsect, f.fs`wflag, f.fs.win
    ensures f.Ready() && f.fs.Fat() == old(f.fs.Fat()) && OnlyOwn(f.fs.g, f.chain, old(f.fs.View()), f.fs.View())
    ensures WindowMoved(f.fs.g, old(f.fs.winsect), f.fs.winsect)
    ensures res == Ok || res == Denied ==>
      f.err == Ok && f.Intact() && f.MapOk() && f.Bytes() == old(f.Bytes())
      && (f.sect == old(f.sect) || Own(f.fs.g, f.chain, f.sect))
    ensures (f.fs.g.reliable || !f.canRead ==> res == Ok || res == Denied) && (res == Denied ==> !f.canRead)
    ensures !f.canRead ==> res == Denied && data == [] && f.fptr == old(f.fptr)
    ensures res == Ok ==> f.fptr == Least(old(f.fptr) + want, f.objsize) && data == f.Bytes()[old(f.fptr)..f.fptr]
  {
    hide FatOf, Volume.View, Sound, Content, CursorOk, OnlyOwn, Patch, Own, IsTable, File.MapOk;
    Bounds(f);
    var rbuff := new byte[want](_ => 0);
    ghost var blank := rbuff[..];
    var br;
    res, br := f.Read(rbuff, want);
    data := [];
    if res == Ok {
      data := rbuff[..br];
      PatchedFront(blank, f.Bytes()[f.fptr - br..f.fptr]);
    }
  }

  method CallWrite(f: File, data: seq<byte>) returns (ok: bool, r: Answer)
    requires Usable(f) && |data| <= 0xFFFF_FFFF
    modifies f, f.buf, f.fs, f.fs.win
    ensures f.Ready() && (old(Undamaged(f)) ==> ok && Undamaged(f))
    ensures ok ==> Usable(f) && Step(old(ViewOf(f)), WriteOp(data), r, ViewOf(f))
    ensures ok ==> Confined(f.fs.g, old(PlaceOf(f)), PlaceOf(f))
    ensures f.cltbl == old(f.cltbl) && (ok ==> CountOk(f.fs))
    ensures ok ==> f.sect == old(f.sect) || Own(f.fs.g, f.chain, f.sect)
    ensures ok ==> old(f.chain) <= f.chain
  {
    hide FatOf, Volume.View, Sound, Content, CursorOk, Overwrite, OnlyOwn, OthersKept, Grown, CutFat, Patch, EntryPut;
    hide IsTable, Geometry.ClusterBytes, File.MapOk;
    hide FreeCount, Own, IsChain;
    hide Damaged, NoSpace, File.Full;
    MapFits(f);
    Bounds(f);
    ghost var fat, cs := f.fs.Fat(), f.chain;
    ChainFacts(f);
    GrownRefl(fat, cs);
    var res, bw := f.Write(data, |data|);
    ok, r := res == Ok || res == Denied, Answer([], bw, res == Denied);
    if res == Ok {
      MapFits(f);
      Bounds(f);
      DamageIsOld(fat, cs, f.fs.Fat(), f.chain);
      GrownCount(fat, cs, f.fs.Fat(), f.chain);
      NoneLeft(f);
    }
  }

  method CallSeek(f: File, ofs: nat) returns (ok: bool, r: Answer)
    requires Usable(f) && f.cltbl == null && ofs <= 0xFFFF_FFFF
    modifies f, f.buf, f.fs, f.fs.win
    ensures f.Ready() && (old(Undamaged(f)) ==> ok && Undamaged(f))
    ensures ok ==> Usable(f) && Step(old(ViewOf(f)), SeekOp(ofs), r, ViewOf(f))
    ensures ok ==> Confined(f.fs.g, old(PlaceOf(f)), PlaceOf(f))
    ensures f.cltbl == old(f.cltbl) && (ok ==> CountOk(f.fs))
    ensures ok ==> f.sect == old(f.sect) || Own(f.fs.g, f.chain, f.sect)
    ensures ok ==> old(f.chain) <= f.chain
  {
    hide FatOf, Volume.View, Sound, Content, CursorOk, Overwrite, OnlyOwn, OthersKept, Grown, CutFat, Patch, EntryPut;
    hide IsTable, Geometry.ClusterBytes, File.MapOk, File.CursorPlaced, ChainOrNone, Geometry.DataFits,
      Geometry.PowerOfTwo;
    hide FreeCount, Own, IsChain;
    hide Damaged, NoSpace, File.Full;
    Bounds(f);
    ghost var fat, cs := f.fs.Fat(), f.chain;
    ChainFacts(f);
    ghost var bytes := f.Bytes();
    var res := f.Lseek(ofs);
    ok, r := res == Ok, Answer([], 0, false);
    if res == Ok {
      NoMapFits(f);
      Bounds(f);
      assert bytes <= f.Bytes();
      DamageIsOld(fat, cs, f.fs.Fat(), f.chain);
      GrownCount(fat, cs, f.fs.Fat(), f.chain);
      NoneLeft(f);
    }
  }

  /** `f_lseek` of a file with a link map. */
  method CallFastSeek(f: File, ofs: nat) returns (ok: bool, r: Answer)
    requires Usable(f) && f.cltbl != null && ofs < 0xFFFF_FFFF
    modifies f, f.buf, f.fs, f.fs.win
    ensures f.Ready()
    ensures old(Undamaged(f)) ==> Undamaged(f) && (ok <==> !old(Blind(ViewOf(f), SeekOp(ofs))))
    ensures ok ==> Usable(f) && Step(old(ViewOf(f)), SeekOp(ofs), r, ViewOf(f))
    ensures ok ==> Confined(f.fs.g, old(PlaceOf(f)), PlaceOf(f))
    ensures f.cltbl == old(f.cltbl) && (ok ==> CountOk(f.fs))
    ensures ok ==> f.sect == old(f.sect) || Own(f.fs.g, f.chain, f.sect)
    ensures ok ==> old(f.chain) <= f.chain
  {
    hide FatOf, Volume.View, Sound, Content, CursorOk, Overwrite, OnlyOwn, OthersKept, Grown, CutFat, Patch, EntryPut;
    hide IsTable, Geometry.ClusterBytes;
    hide FreeCount, Own, IsChain, Damaged;
    Bounds(f);
    ChainFacts(f);
    GrownRefl(f.fs.Fat(), f.chain);
    GrownKeepsOthers(f.fs.Fat(), f.chain, f.fs.Fat(), f.chain);
    var res := LinkMap.FastSeek(f, ofs);
    ok, r := res == Ok, Answer([], 0, false);
    if ok {
      Bounds(f);
    }
  }

  method CallTruncate(f: File) returns (ok: bool, r: Answer)
    requires Usable(f)
    modifies f, f.buf, f.fs, f.fs.win
    ensures f.Ready() && (old(Undamaged(f)) ==> ok && Undamaged(f))
    ensures ok ==> (Usable(f) <==> old(MapStays(f)))
    ensures ok && Usable(f) ==> Step(old(ViewOf(f)), TruncateOp, r, ViewOf(f))
    ensures ok ==> Confined(f.fs.g, old(PlaceOf(f)), PlaceOf(f))
    ensures f.cltbl == old(f.cltbl) && (ok ==> CountOk(f.fs))
    ensures ok ==> f.sect == old(f.sect) && f.chain == old(ChainLeft(f))
  {
    hide FatOf, Volume.View, Sound, Content, CursorOk, Overwrite, OnlyOwn, OthersKept, Grown, CutFat, Patch, EntryPut;
    hide IsTable, Geometry.ClusterBytes;
    hide FreeCount, Own, IsChain;
    hide Damaged, CutTo, Kept;
    Bounds(f);
    ghost var fat, cs := f.fs.Fat(), f.chain;
    ChainFacts(f);
    GrownRefl(fat, cs);
    var res := f.Truncate();
    ok, r := res == Ok || res == Denied, Answer([], 0, res == Denied);
    if res == Ok {
      Bounds(f);
      CutUndamaged(fat, cs, f.fs.Fat(), f.chain);
      CutCount(fat, cs, f.fs.Fat(), f.chain);
      CutIsPrefix(fat, cs, f.fs.Fat(), f.chain);
    }
  }

  lemma CutIsPrefix(fat: seq<nat>, cs: seq<nat>, fat': seq<nat>, cs': seq<nat>)
    requires CutTo(fat, cs, fat', cs')
    ensures cs' <= cs && (|cs'| == |cs| ==> cs' == cs)
  {
  }

  lemma ChainFacts(f: File)
    requires Usable(f)
    ensures ChainOrNone(f.fs.Fat(), f.chain) && |f.fs.Fat()| <= EOC
  {
  }

  /** With a right count, `Full` means that the file is at the end of its chain, and gets no other cluster. */
  lemma NoneLeft(f: File)
    requires f.Ready() && f.fs.g.Wf() && CountOk(f.fs)
    ensures f.Full(f.fs.Fat(), f.fs.freeClst) ==>
              && f.fptr == |f.chain| * f.fs.g.ClusterBytes()
              && (FreeCount(f.fs.Fat()) == 0 || (f.cltbl != null && f.chain != []))
  {
    NoneFree(f.fs.Fat(), |f.fs.Fat()|);
    if f.Full(f.fs.Fat(), f.fs.freeClst) {
      EndOfChain(f.fs.g, f.fptr, |f.chain|);
    }
  }

  lemma EndOfChain(g: Geometry, p: nat, n: nat)
    requires g.csize > 0 && p % 512 == 0 && g.Within(p / 512) == 0 && g.Index(p / 512) == n
    ensures p == n * g.ClusterBytes()
  {
    Division.DivMod(p / 512, g.csize);
    assert p / 512 == g.csize * n;
    assert (g.csize * n) * 512 == n * (g.csize * 512);
  }

  lemma CutUndamaged(fat: seq<nat>, cs: seq<nat>, fat': seq<nat>, cs': seq<nat>)
    requires CutTo(fat, cs, fat', cs')
    ensures Damaged(fat') ==> Damaged(fat)
  {
    if Damaged(fat') {
      var c: nat :| Cluster(fat', c) && fat'[c] == 1;
      assert Cluster(fat, c) && fat[c] == 1;
    }
  }

  /** The clusters that a chain grows by are free before. */
  lemma GrownCount(fat: seq<nat>, cs: seq<nat>, fat': seq<nat>, cs': seq<nat>)
    requires Grown(fat, cs, fat', cs') && ChainOrNone(fat, cs)
    ensures FreeCount(fat') + |cs'| == FreeCount(fat) + |cs| && |cs| <= |cs'|
  {
    var more := cs'[|cs|..];
    forall i | 0 <= i < |more| ensures Cluster(fat', more[i]) && fat'[more[i]] != 0 {
      ChainInUse(fat', cs', |cs| + i);
    }
    forall i, j | 0 <= i < j < |more| ensures more[i] != more[j] {
      ChainDistinct(fat', cs', |cs| + i, |cs| + j);
    }
    FatOwnership.ZeroedCount(fat', more);
    GrownZeros(fat, cs, fat', cs');
    SameZeros(Zeroed(fat', more), fat, |fat|);
  }

  lemma GrownZeros(fat: seq<nat>, cs: seq<nat>, fat': seq<nat>, cs': seq<nat>)
    requires Grown(fat, cs, fat', cs') && ChainOrNone(fat, cs)
    ensures forall c: nat :: Cluster(fat, c) ==> (Zeroed(fat', cs'[|cs|..])[c] == 0 <==> fat[c] == 0)
  {
    hide IsChain;
    var more := cs'[|cs|..];
    if cs != [] {
      ChainInUse(fat, cs, |cs| - 1);
      ChainInUse(fat', cs', |cs| - 1);
      assert cs'[|cs| - 1] == cs[|cs| - 1];
    }
    forall c | c in more ensures fat[c] == 0 {
      var i :| 0 <= i < |more| && more[i] == c;
      assert cs'[|cs| + i] == c;
    }
  }

  lemma {:induction false} SameZeros(a: seq<nat>, b: seq<nat>, k: nat)
    requires k <= |a| == |b| && forall c: nat :: Cluster(a, c) ==> (a[c] == 0 <==> b[c] == 0)
    ensures FreeUpTo(a, k) == FreeUpTo(b, k)
  {
    if k > 2 {
      SameZeros(a, b, k - 1);
      assert Cluster(a, k - 1);
    }
  }

  /** The clusters that a chain is cut by are free after. */
  lemma CutCount(fat: seq<nat>, cs: seq<nat>, fat': seq<nat>, cs': seq<nat>)
    requires CutTo(fat, cs, fat', cs') && ChainOrNone(fat, cs) && |fat| <= EOC
    ensures FreeCount(fat') + |cs'| == FreeCount(fat) + |cs| && |cs'| <= |cs|
  {
    var k := |cs'|;
    if k < |cs| {
      var marked := if k == 0 then fat else fat[cs[k - 1] := EOC];
      var tl := cs[k..];
      if k == 0 {
        assert tl == cs;
      } else {
        CutLeavesChain(fat, cs, k);
        ChainInUse(fat, cs, k - 1);
        FreeCountSet(fat, cs[k - 1], EOC);
      }
      forall i | 0 <= i < |tl| ensures Cluster(marked, tl[i]) && marked[tl[i]] != 0 {
        ChainInUse(marked, tl, i);
      }
      forall i, j | 0 <= i < j < |tl| ensures tl[i] != tl[j] {
        ChainDistinct(marked, tl, i, j);
      }
      FatOwnership.ZeroedCount(marked, tl);
    }
  }

  /** One call more after those done. */
  method CallNext(f: File, op: Op, ghost done: seq<Op>, ghost answers: seq<Answer>, ghost views: seq<FileView>)
      returns (ok: bool, r: Answer)
    requires Usable(f) && Meant(f, op) && (op == TruncateOp ==> MapStays(f))
    requires Trace(done, answers, views) && |views| > |done| && views[|done|] == ViewOf(f)
    modifies f, f.buf, f.fs, f.fs.win
    ensures f.Ready() && f.cltbl == old(f.cltbl)
    ensures old(Undamaged(f)) ==> Undamaged(f) && (ok <==> !Blind(views[|done|], op))
    ensures ok ==> Usable(f) && Trace(done + [op], answers + [r], views + [ViewOf(f)])
  {
    hide Usable, ViewOf, Undamaged, Step, File.Ready, Meant, MapStays, Blind, Confined, Own, ChainLeft;
    ok, r := Call(f, op);
    if ok {
      TraceMore(done, answers, views, op, r, ViewOf(f));
    }
  }

  /** How a run ends: with its last call, at a call that fails, or in front of a truncation that could leave a link map
      or a buffer behind. */
  datatype End = Done | Failed | Unsettled

  /** Truncating cuts no clusters off a file with a link map. */
  predicate Uncut(f: File)
    reads f
  {
    f.cltbl == null || !f.canWrite || f.fptr >= f.objsize
  }

  lemma UncutStays(f: File)
    requires Usable(f) && Uncut(f)
    ensures MapStays(f)
  {
  }

  lemma MeantHere(f: File, ops: seq<Op>, i: nat, table: array?<nat>)
    requires i < |ops| && f.cltbl == table && forall j :: 0 <= j < |ops| ==> Fits(ops[j], table)
    ensures Meant(f, ops[i])
  {
    assert Fits(ops[i], table);
  }

  /** The request can be made on a file with that link map. */
  predicate Fits(op: Op, table: array?<nat>) { Sized(op) && (table != null && op.SeekOp? ==> op.ofs != 0xFFFF_FFFF) }

  lemma SanityReady(f: File)
    requires Usable(f)
    ensures f.Ready() && f.fs.g.csize > 0
  {
  }

  /** Any sequence of calls. On a device that does not fail and a FAT without damage none fails but a seek with a link
      map that is older than the first cluster of the file. */
  method Run(f: File, ops: seq<Op>) returns (end: End, answers: seq<Answer>, ghost views: seq<FileView>)
    requires Usable(f) && forall i :: 0 <= i < |ops| ==> Fits(ops[i], f.cltbl)
    modifies f, f.buf, f.fs, f.fs.win
    ensures |answers| <= |ops| && |views| == |answers| + 1
    ensures Trace(ops[..|answers|], answers, views) && views[0] == old(ViewOf(f))
    ensures end == Done ==> |answers| == |ops|
    ensures end != Failed ==> Usable(f) && views[|answers|] == ViewOf(f)
    ensures end == Failed && old(Undamaged(f)) ==>
      |answers| < |ops| && Blind(views[|answers|], ops[|answers|])
    ensures end == Unsettled ==> |answers| < |ops| && ops[|answers|] == TruncateOp && !Uncut(f)
  {
    hide *;
    SanityReady(f);
    end, answers, views := Done, [], [ViewOf(f)];
    TraceNone(views);
    ghost var sane := Undamaged(f);
    for i := 0 to |ops|
      invariant end == Done && Usable(f) && |answers| == i && |views| == i + 1 && f.cltbl == old(f.cltbl)
      invariant Trace(ops[..i], answers, views) && views[i] == ViewOf(f) && views[0] == old(ViewOf(f))
      invariant f.Ready() && (sane ==> Undamaged(f))
    {
      if ops[i] == TruncateOp && !Uncut(f) {
        return Unsettled, answers, views;
      }
      SanityReady(f);
      MeantHere(f, ops, i, f.cltbl);
      if ops[i] == TruncateOp {
        UncutStays(f);
      }
      var ok, r;
      ok, r := CallNext(f, ops[i], ops[..i], answers, views);
      if !ok {
        return Failed, answers, views;
      }
      assert ops[..i] + [ops[i]] == ops[..i + 1];
      ghost var now := ViewOf(f);
      answers, views := answers + [r], views + [now];
    }
    assert ops[..|ops|] == ops;
  }
}
