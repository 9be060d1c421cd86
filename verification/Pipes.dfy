/** A pipe over a semaphore over sleep and wakeup: pipe.c, sem.c and the sleep list of sched.c, on one hart.
    Each section of code that runs under a lock, or up to the switch to the scheduler, is one step. */
module Pipes {
  const SIZE := 1024

  // ---------------------------------------------------------------- the state machine

  /** Where a reader is: before the test of the loop, before `P`, in the sleep list, past `P`, or returned. */
  datatype Pc = Check | Down | Asleep | Take | Ended

  /** A process in `pipe_read` or `pipe_write`, or one that has nothing to do with this pipe. */
  datatype Proc =
    | Reader(pc: Pc, want: nat, got: seq<int>)
    | Writer(todo: seq<int>)
    | Stranger

  /** The pipe, the sleep list of the scheduler and the processes; `written` and `read` record what went through. */
  datatype System = System(
    buf: seq<int>, r: nat, w: nat, rRef: int, wRef: int, value: int,
    sleepList: seq<nat>, procs: map<nat, Proc>, written: seq<int>, read: seq<int>)

  predicate At(procs: map<nat, Proc>, p: nat, pc: Pc) { p in procs && procs[p].Reader? && procs[p].pc == pc }

  predicate WellFormed(s: System) { |s.buf| == SIZE && s.r < SIZE && s.w < SIZE }

  /** The first reader of this pipe in the sleep list, from the `i`th entry on. */
  function First(list: seq<nat>, procs: map<nat, Proc>, i: nat): (k: nat)
    requires i <= |list|
    ensures i <= k <= |list| && (k < |list| ==> At(procs, list[k], Asleep))
    ensures forall j :: i <= j < k ==> !At(procs, list[j], Asleep)
    decreases |list| - i
  {
    if i == |list| || At(procs, list[i], Asleep) then i else First(list, procs, i + 1)
  }

  function Without(list: seq<nat>, k: nat): (r: seq<nat>)
    requires k < |list|
    ensures |r| == |list| - 1
  {
    list[..k] + list[k + 1..]
  }

  function MoveTo(procs: map<nat, Proc>, p: nat, pc: Pc): (r: map<nat, Proc>)
    requires p in procs && procs[p].Reader?
  {
    procs[p := procs[p].(pc := pc)]
  }

  /** `wakeup`. */
  function WakeUp(s: System): (t: System) {
    var k := First(s.sleepList, s.procs, 0);
    if k == |s.sleepList| then s
    else s.(sleepList := Without(s.sleepList, k), procs := MoveTo(s.procs, s.sleepList[k], Take))
  }

  /** The loop test of `pipe_read`. */
  function CheckStep(s: System, p: nat): (t: System)
    requires At(s.procs, p, Check)
  {
    var over := s.procs[p].want == 0 || (s.wRef == 0 && s.r == s.w);
    s.(procs := MoveTo(s.procs, p, if over then Ended else Down))
  }

  /** `P`. */
  function DownStep(s: System, p: nat): (t: System)
    requires At(s.procs, p, Down)
  {
    var t := s.(value := s.value - 1);
    if t.value < 0 then t.(procs := MoveTo(s.procs, p, Asleep), sleepList := s.sleepList + [p])
    else t.(procs := MoveTo(s.procs, p, Take))
  }

  /** The rest of the loop of `pipe_read`, after `P`. */
  function TakeStep(s: System, p: nat): (t: System)
    requires WellFormed(s) && At(s.procs, p, Take)
  {
    var b, me := s.buf[s.r], s.procs[p];
    s.(r := (s.r + 1) % SIZE, read := s.read + [b],
       procs := s.procs[p := Reader(Check, if me.want > 0 then me.want - 1 else 0, me.got + [b])])
  }

  /** One round of the loop of `pipe_write`, without the `wakeup` of `V`. */
  function Pushed(s: System, p: nat): (t: System)
    requires WellFormed(s) && p in s.procs && s.procs[p].Writer? && s.procs[p].todo != []
  {
    var b, rest := s.procs[p].todo[0], s.procs[p].todo[1..];
    s.(buf := s.buf[s.w := b], w := (s.w + 1) % SIZE, written := s.written + [b], value := s.value + 1,
       procs := s.procs[p := Writer(if s.rRef == 0 then [] else rest)])
  }

  /** One round of the loop of `pipe_write`. */
  function PutStep(s: System, p: nat): (t: System)
    requires WellFormed(s) && p in s.procs && s.procs[p].Writer? && s.procs[p].todo != []
  {
    var t := Pushed(s, p);
    if t.value <= 0 then WakeUp(t) else t
  }

  /** What can happen next: a step of one process, a process entering the pipe, or something elsewhere in the kernel. */
  datatype Event =
    | Checks(p: nat) | Downs(p: nat) | Takes(p: nat) | Puts(p: nat)
    | StartsRead(p: nat, want: nat) | StartsWrite(p: nat, bytes: seq<int>)
    | References(rRef: int, wRef: int)
    | SleepsElsewhere(p: nat) | WokenElsewhere(k: nat)

  /** An event that is not possible now changes nothing. */
  function Step(s: System, e: Event): (t: System)
    requires WellFormed(s)
  {
    match e
    case Checks(p) => if At(s.procs, p, Check) then CheckStep(s, p) else s
    case Downs(p) => if At(s.procs, p, Down) then DownStep(s, p) else s
    case Takes(p) => if At(s.procs, p, Take) then TakeStep(s, p) else s
    case Puts(p) => if p in s.procs && s.procs[p].Writer? && s.procs[p].todo != [] then PutStep(s, p) else s
    case StartsRead(p, want) => if Idle(s, p) then s.(procs := s.procs[p := Reader(Check, want, [])]) else s
    case StartsWrite(p, bytes) => if Idle(s, p) then s.(procs := s.procs[p := Writer(bytes)]) else s
    case References(rRef, wRef) => s.(rRef := rRef, wRef := wRef)
    case SleepsElsewhere(p) =>
      if p in s.procs && s.procs[p].Stranger? && p !in s.sleepList then s.(sleepList := s.sleepList + [p]) else s
    case WokenElsewhere(k) =>
      if k < |s.sleepList| && s.sleepList[k] in s.procs && s.procs[s.sleepList[k]].Stranger?
      then s.(sleepList := Without(s.sleepList, k)) else s
  }

  /** Not in the pipe now, and not asleep. */
  predicate Idle(s: System, p: nat) {
    p !in s.sleepList && (p !in s.procs || s.procs[p].Stranger? || s.procs[p] == Writer([]) || At(s.procs, p, Ended))
  }

  /** `pipe_alloc`. */
  predicate Init(s: System) {
    && WellFormed(s) && s.r == 0 && s.w == 0 && s.value == 0 && s.written == [] && s.read == []
    && (forall p :: p in s.procs ==> s.procs[p].Stranger?)
    && (forall p :: p in s.sleepList ==> p in s.procs) && Distinct(s.sleepList)
  }

  predicate Distinct(list: seq<nat>) { forall i, j :: 0 <= i < j < |list| ==> list[i] != list[j] }

  // ---------------------------------------------------------------- the invariant

  /** The readers that are at `pc`. */
  ghost function Readers(procs: map<nat, Proc>, pc: Pc): (ps: set<nat>) { set p | p in procs && At(procs, p, pc) }

  /** The buffer holds the last 1024 bytes written, and the positions count bytes round it. */
  ghost predicate Buffered(s: System) {
    && WellFormed(s) && |s.read| <= |s.written|
    && s.r == |s.read| % SIZE && s.w == |s.written| % SIZE
    && forall k :: 0 <= k < |s.written| && |s.written| <= k + SIZE ==> s.buf[k % SIZE] == s.written[k]
  }

  /** Just the readers asleep on this pipe, and strangers, are in the sleep list, once each. */
  ghost predicate Listed(s: System) {
    && Distinct(s.sleepList)
    && (forall p :: At(s.procs, p, Asleep) ==> p in s.sleepList)
    && (forall p :: p in s.sleepList ==> p in s.procs && (s.procs[p].Stranger? || At(s.procs, p, Asleep)))
  }

  /** Bytes written and not read are `value`, less the readers asleep, and those past `P`. */
  ghost predicate Counted(s: System) {
    && |s.written| - |s.read| == s.value + |Readers(s.procs, Asleep)| + |Readers(s.procs, Take)|
    && |Readers(s.procs, Asleep)| == if s.value < 0 then -s.value else 0
  }

  ghost predicate Inv(s: System) { Buffered(s) && Listed(s) && Counted(s) }

  lemma Recount(procs: map<nat, Proc>, p: nat, q: Proc, pc: Pc)
    ensures var was, now := At(procs, p, pc), q.Reader? && q.pc == pc;
            |Readers(procs[p := q], pc)| == |Readers(procs, pc)|
              + (if now && !was then 1 else 0) - (if was && !now then 1 else 0)
  {
    var now, more := q.Reader? && q.pc == pc, procs[p := q];
    var a, b := Readers(procs, pc), Readers(more, pc);
    forall x ensures x in b <==> if x == p then now else x in a {
      assert At(more, x, pc) <==> if x == p then now else At(procs, x, pc);
    }
    hide Readers, At;
    assert b == if now then a + {p} else a - {p};
    assert p in a <==> At(procs, p, pc) by { InReaders(procs, p, pc); }
  }

  lemma InReaders(procs: map<nat, Proc>, p: nat, pc: Pc)
    ensures p in Readers(procs, pc) <==> At(procs, p, pc)
  {
  }

  /** Slots of the buffer for positions less than 1024 apart are different, and following a position follows its
      slot. */
  lemma Slots(k: nat, n: nat)
    ensures k < n < k + SIZE ==> k % SIZE != n % SIZE
    ensures (n % SIZE + 1) % SIZE == (n + 1) % SIZE
  {
  }

  lemma PutBuffered(s: System, b: int)
    requires Buffered(s)
    ensures Buffered(s.(buf := s.buf[s.w := b], w := (s.w + 1) % SIZE, written := s.written + [b]))
  {
    var t := s.(buf := s.buf[s.w := b], w := (s.w + 1) % SIZE, written := s.written + [b]);
    var n := |s.written|;
    Slots(0, n);
    forall k | 0 <= k < n + 1 && n + 1 <= k + SIZE ensures t.buf[k % SIZE] == t.written[k] {
      if k < n {
        Slots(k, n);
      }
    }
  }

  lemma TakeBuffered(s: System, p: nat)
    requires Buffered(s) && At(s.procs, p, Take) && |s.read| < |s.written|
    ensures Buffered(TakeStep(s, p))
  {
    Slots(0, |s.read|);
  }

  /** A reader past `P` finds a byte that was written and not read. */
  lemma TakerHasByte(s: System, p: nat)
    requires Counted(s) && At(s.procs, p, Take)
    ensures |s.read| < |s.written|
  {
    assert p in Readers(s.procs, Take);
  }

  lemma WithoutAt(list: seq<nat>, k: nat)
    requires k < |list| && Distinct(list)
    ensures Distinct(Without(list, k)) && forall p :: p in Without(list, k) <==> p in list && p != list[k]
  {
    var r := Without(list, k);
    forall i | 0 <= i < |r| ensures r[i] == list[if i < k then i else i + 1] {
    }
    forall p ensures p in r <==> p in list && p != list[k] {
      if p in list && p != list[k] {
        var i :| 0 <= i < |list| && list[i] == p;
        assert r[if i < k then i else i - 1] == p;
      }
    }
  }

  /** `wakeup` finds a reader if one is asleep, and moves just it past `P`. */
  lemma WakeListed(s: System)
    requires Listed(s)
    ensures Listed(WakeUp(s))
    ensures |Readers(WakeUp(s).procs, Asleep)| == if |Readers(s.procs, Asleep)| > 0
      then |Readers(s.procs, Asleep)| - 1 else 0
    ensures |Readers(WakeUp(s).procs, Asleep)| + |Readers(WakeUp(s).procs, Take)| == |Readers(s.procs, Asleep)|
      + |Readers(s.procs, Take)|
  {
    var k := First(s.sleepList, s.procs, 0);
    if k == |s.sleepList| {
      assert forall p :: p in s.sleepList ==> !At(s.procs, p, Asleep);
      assert Readers(s.procs, Asleep) == {};
    } else {
      var p := s.sleepList[k];
      WithoutAt(s.sleepList, k);
      Recount(s.procs, p, s.procs[p].(pc := Take), Asleep);
      Recount(s.procs, p, s.procs[p].(pc := Take), Take);
      assert p in Readers(s.procs, Asleep);
    }
  }

  // ---------------------------------------------------------------- every step keeps the invariant

  lemma CheckKeeps(s: System, p: nat)
    requires Inv(s) && At(s.procs, p, Check)
    ensures Inv(CheckStep(s, p))
  {
    var q := CheckStep(s, p).procs[p];
    Recount(s.procs, p, q, Asleep);
    Recount(s.procs, p, q, Take);
    hide Readers;
  }

  lemma DownKeeps(s: System, p: nat)
    requires Inv(s) && At(s.procs, p, Down)
    ensures Inv(DownStep(s, p))
  {
    var q := DownStep(s, p).procs[p];
    Recount(s.procs, p, q, Asleep);
    Recount(s.procs, p, q, Take);
    hide Readers;
  }

  lemma TakeKeeps(s: System, p: nat)
    requires Inv(s) && At(s.procs, p, Take)
    ensures |s.read| < |s.written| && Inv(TakeStep(s, p))
  {
    var q := TakeStep(s, p).procs[p];
    TakerHasByte(s, p);
    TakeBuffered(s, p);
    Recount(s.procs, p, q, Asleep);
    Recount(s.procs, p, q, Take);
    hide Readers, Buffered;
  }

  lemma PutKeeps(s: System, p: nat)
    requires Inv(s) && p in s.procs && s.procs[p].Writer? && s.procs[p].todo != []
    ensures Inv(PutStep(s, p))
  {
    PushedKeeps(s, p);
    var t := Pushed(s, p);
    hide Readers, Buffered, Listed, WakeUp, Pushed;
    WakeListed(t);
    WakeOnly(t);
  }

  /** Before `wakeup` a byte is not accounted for yet. */
  lemma PushedKeeps(s: System, p: nat)
    requires Inv(s) && p in s.procs && s.procs[p].Writer? && s.procs[p].todo != []
    ensures var t := Pushed(s, p);
            && Buffered(t) && Listed(t) && t.value == s.value + 1
            && |t.written| - |t.read| == t.value + |Readers(t.procs, Asleep)| + |Readers(t.procs, Take)|
            && |Readers(t.procs, Asleep)| == if s.value < 0 then -s.value else 0
  {
    PushedListed(s, p);
    PushedCounts(s, p);
    PutBuffered(s, s.procs[p].todo[0]);
    hide Listed, Readers;
  }

  lemma PushedListed(s: System, p: nat)
    requires WellFormed(s) && Listed(s) && p in s.procs && s.procs[p].Writer? && s.procs[p].todo != []
    ensures Listed(Pushed(s, p))
  {
  }

  lemma PushedCounts(s: System, p: nat)
    requires WellFormed(s) && p in s.procs && s.procs[p].Writer? && s.procs[p].todo != []
    ensures |Readers(Pushed(s, p).procs, Asleep)| == |Readers(s.procs, Asleep)|
    ensures |Readers(Pushed(s, p).procs, Take)| == |Readers(s.procs, Take)|
  {
    Recount(s.procs, p, Pushed(s, p).procs[p], Asleep);
    Recount(s.procs, p, Pushed(s, p).procs[p], Take);
    hide Readers;
  }

  lemma WakeOnly(s: System)
    ensures WakeUp(s) == s.(sleepList := WakeUp(s).sleepList, procs := WakeUp(s).procs)
    ensures Buffered(s) ==> Buffered(WakeUp(s))
  {
  }

  lemma StartKeeps(s: System, p: nat, q: Proc)
    requires Inv(s) && Idle(s, p) && (q.Writer? || (q.Reader? && q.pc == Check))
    ensures Inv(s.(procs := s.procs[p := q]))
  {
    Recount(s.procs, p, q, Asleep);
    Recount(s.procs, p, q, Take);
    hide Readers;
  }

  lemma ElsewhereKeeps(s: System, k: nat)
    requires Inv(s) && k < |s.sleepList| && s.sleepList[k] in s.procs && s.procs[s.sleepList[k]].Stranger?
    ensures Inv(s.(sleepList := Without(s.sleepList, k)))
  {
    WithoutAt(s.sleepList, k);
    hide Readers;
  }

  lemma StepKeeps(s: System, e: Event)
    requires Inv(s)
    ensures Inv(Step(s, e))
  {
    hide Inv, CheckStep, DownStep, TakeStep, PutStep;
    match e
    case Checks(p) => if At(s.procs, p, Check) { CheckKeeps(s, p); }
    case Downs(p) => if At(s.procs, p, Down) { DownKeeps(s, p); }
    case Takes(p) => if At(s.procs, p, Take) { TakeKeeps(s, p); }
    case Puts(p) => if p in s.procs && s.procs[p].Writer? && s.procs[p].todo != [] { PutKeeps(s, p); }
    case StartsRead(p, want) => if Idle(s, p) { StartKeeps(s, p, Reader(Check, want, [])); }
    case StartsWrite(p, bytes) => if Idle(s, p) { StartKeeps(s, p, Writer(bytes)); }
    case References(rRef, wRef) => ReferencesKeep(s, rRef, wRef);
    case SleepsElsewhere(p) => SleepsKeep(s, p);
    case WokenElsewhere(k) =>
      if k < |s.sleepList| && s.sleepList[k] in s.procs && s.procs[s.sleepList[k]].Stranger? { ElsewhereKeeps(s, k); }
  }

  lemma ReferencesKeep(s: System, rRef: int, wRef: int)
    requires Inv(s)
    ensures Inv(s.(rRef := rRef, wRef := wRef))
  {
  }

  lemma SleepsKeep(s: System, p: nat)
    requires Inv(s)
    ensures p in s.procs && s.procs[p].Stranger? && p !in s.sleepList ==> Inv(s.(sleepList := s.sleepList + [p]))
  {
    hide Readers;
  }

  // ---------------------------------------------------------------- every run

  /** The state after the events in order, in any interleaving of the processes. */
  function Run(s: System, es: seq<Event>): (t: System)
    requires Inv(s)
    ensures Inv(t)
    decreases |es|
  {
    if es == [] then s
    else
      StepKeeps(s, es[0]);
      Run(Step(s, es[0]), es[1..])
  }

  lemma InitInv(s: System)
    requires Init(s)
    ensures Inv(s)
  {
    assert Readers(s.procs, Asleep) == {} && Readers(s.procs, Take) == {};
  }

  /** After any run, bytes written and not read are the value of the semaphore, the readers asleep and those past `P`;
      and no reader is asleep while there is a byte that none of the readers past `P` will take. */
  lemma RunCounts(s: System, es: seq<Event>)
    requires Init(s)
    ensures Inv(s)
    ensures var t := Run(s, es); var asleep, taking := |Readers(t.procs, Asleep)|, |Readers(t.procs, Take)|;
            && |t.written| - |t.read| == t.value + asleep + taking
            && taking <= |t.written| - |t.read| && (asleep > 0 ==> taking == |t.written| - |t.read|)
  {
    InitInv(s);
    var t := Run(s, es);
    assert Counted(t);
  }

  // ---------------------------------------------------------------- the bytes

  ghost predicate InOrder(s: System) { s.read <= s.written }

  /** At no time of the run are more bytes unread than the buffer holds. */
  ghost predicate NeverOverrun(s: System, es: seq<Event>)
    requires Inv(s)
    decreases |es|
  {
    && |s.written| <= |s.read| + 1024
    && (es != [] ==> Inv(Step(s, es[0])) && NeverOverrun(Step(s, es[0]), es[1..]))
  }

  /** The place in what was written of the byte that a reader takes: the last one that went to its slot. */
  function Newest(i: nat, n: nat): (k: nat)
    requires i < n
    ensures i <= k < n <= k + 1024 && k % 1024 == i % 1024 && (n <= i + 1024 <==> k == i)
  {
    var u := (n - 1 - i) / SIZE;
    assert (i + SIZE * u) % SIZE == i % SIZE;
    i + SIZE * u
  }

  /** The byte that is taken, whatever was overrun before. */
  lemma TakenByte(s: System, p: nat)
    requires Inv(s) && At(s.procs, p, Take)
    ensures |s.read| < |s.written|
    ensures TakeStep(s, p).read == s.read + [s.written[Newest(|s.read|, |s.written|)]]
    ensures TakeStep(s, p).procs[p].got == s.procs[p].got + [s.written[Newest(|s.read|, |s.written|)]]
    ensures s.procs[p].want > 0 ==>
      At(TakeStep(s, p).procs, p, Check) && TakeStep(s, p).procs[p].want == s.procs[p].want - 1
    ensures InOrder(s) ==>
      (InOrder(TakeStep(s, p)) <==> s.written[Newest(|s.read|, |s.written|)] == s.written[|s.read|])
  {
    TakerHasByte(s, p);
    var k, n := Newest(|s.read|, |s.written|), |s.read|;
    assert s.buf[k % SIZE] == s.written[k];
    var t := TakeStep(s, p);
    assert t.read[..n] == s.read && t.read[n] == s.written[k];
    if InOrder(s) && s.written[k] == s.written[n] {
      assert s.written[..n + 1] == s.written[..n] + [s.written[n]];
    }
  }

  lemma StepInOrder(s: System, e: Event)
    requires Inv(s) && InOrder(s) && |s.written| <= |s.read| + SIZE
    ensures InOrder(Step(s, e))
  {
    match e
    case Takes(p) =>
      if At(s.procs, p, Take) {
        TakenByte(s, p);
      }
    case _ =>
  }

  /** In any interleaving that never overruns the buffer, what was read is a prefix of what was written. */
  lemma {:induction false} ReadsPrefix(s: System, es: seq<Event>)
    requires Inv(s) && InOrder(s) && NeverOverrun(s, es)
    ensures InOrder(Run(s, es))
    decreases |es|
  {
    if es != [] {
      StepInOrder(s, es[0]);
      hide Inv;
      ReadsPrefix(Step(s, es[0]), es[1..]);
    }
  }

  /** The only reader gets, in order, just the bytes that are read. */
  lemma {:induction false} OnlyReader(s: System, es: seq<Event>, p: nat)
    requires Inv(s) && p in s.procs && s.procs[p].Reader? && forall q :: q in s.procs && s.procs[q].Reader? ==> q == p
    requires forall i :: 0 <= i < |es| ==> !es[i].StartsRead? && !(es[i].StartsWrite? && es[i].p == p)
    ensures var t := Run(s, es);
            s.read <= t.read && p in t.procs && t.procs[p].Reader?
              && t.procs[p].got == s.procs[p].got + t.read[|s.read|..]
    decreases |es|
  {
    hide Inv, Step;
    if es == [] {
      assert s.read[|s.read|..] == [];
    } else {
      InvShape(s);
      StepKeeps(s, es[0]);
      OnlyReaderStep(s, es[0], p);
      var u, rest := Step(s, es[0]), es[1..];
      forall i | 0 <= i < |rest| ensures !rest[i].StartsRead? && !(rest[i].StartsWrite? && rest[i].p == p) {
        assert rest[i] == es[i + 1];
      }
      OnlyReader(u, rest, p);
      Appended(s.read, u.read, Run(u, rest).read, s.procs[p].got);
    }
  }

  lemma InvShape(s: System)
    requires Inv(s)
    ensures WellFormed(s)
  {
  }

  lemma Appended(a: seq<int>, b: seq<int>, c: seq<int>, got: seq<int>)
    requires |a| <= |b| <= |c| && b == c[..|b|]
    ensures got + b[|a|..] + c[|b|..] == got + c[|a|..]
  {
    assert b[|a|..] + c[|b|..] == c[|a|..];
  }

  lemma OnlyReaderStep(s: System, e: Event, p: nat)
    requires Inv(s) && p in s.procs && s.procs[p].Reader? && forall q :: q in s.procs && s.procs[q].Reader? ==> q == p
    requires !e.StartsRead? && !(e.StartsWrite? && e.p == p)
    ensures var t := Step(s, e);
            && s.read <= t.read && p in t.procs && t.procs[p].Reader?
              && t.procs[p].got == s.procs[p].got + t.read[|s.read|..]
            && forall q :: q in t.procs && t.procs[q].Reader? ==> q == p
  {
    hide Inv, Readers;
  }

  /** A reader that wants more stops at the loop test just if no writer is left and the unread bytes fill the buffer
      a whole number of times, which an empty and a full buffer both do. */
  lemma EndOfPipe(s: System, p: nat)
    requires Inv(s) && At(s.procs, p, Check) && s.procs[p].want > 0
    ensures At(CheckStep(s, p).procs, p, Ended) <==> s.wRef == 0 && (|s.written| - |s.read|) % 1024 == 0
    ensures |s.written| - |s.read| < 1024 ==>
      (At(CheckStep(s, p).procs, p, Ended) <==> s.wRef == 0 && |s.written| == |s.read|)
  {
    var n, m := |s.written|, |s.read|;
    assert n % SIZE == m % SIZE <==> (n - m) % SIZE == 0;
  }

  // ---------------------------------------------------------------- overrunning the buffer

  function Again(e: Event, n: nat): (es: seq<Event>)
    ensures |es| == n
  {
    seq(n, i => e)
  }

  lemma AgainLess(e: Event, n: nat)
    requires n > 0
    ensures Again(e, n)[0] == e && Again(e, n)[1..] == Again(e, n - 1)
  {
  }

  /** A writer that runs `n` rounds with nobody asleep. */
  lemma {:induction false} WritesOn(s: System, p: nat, todo: seq<int>, n: nat)
    requires Inv(s) && p in s.procs && s.procs[p] == Writer(todo) && n <= |todo| && s.value >= 0 && s.rRef != 0
    ensures var t := Run(s, Again(Puts(p), n));
            && t.written == s.written + todo[..n] && t.read == s.read && t.value == s.value + n
            && t.procs == s.procs[p := Writer(todo[n..])] && t.sleepList == s.sleepList
    decreases n
  {
    hide Inv, Step, WellFormed, Again;
    InvShape(s);
    if n == 0 {
      assert todo[..0] == [] && todo[0..] == todo && s.written + [] == s.written;
    } else {
      StepKeeps(s, Puts(p));
      var u := Step(s, Puts(p));
      AgainLess(Puts(p), n);
      WritesOnStep(s, p, todo);
      WritesOn(u, p, todo[1..], n - 1);
      assert todo[..n] == [todo[0]] + todo[1..][..n - 1];
      assert todo[1..][n - 1..] == todo[n..];
    }
  }

  lemma WritesOnStep(s: System, p: nat, todo: seq<int>)
    requires Inv(s) && p in s.procs && s.procs[p] == Writer(todo) && todo != [] && s.value >= 0 && s.rRef != 0
    ensures var t := Step(s, Puts(p));
            && t.written == s.written + [todo[0]] && t.read == s.read && t.value == s.value + 1 && t.rRef == s.rRef
            && t.procs == s.procs[p := Writer(todo[1..])] && t.sleepList == s.sleepList
  {
  }

  /** What 1025 bytes written and then one read lead to: a reader that gets the last byte for the first. */
  lemma Overrun(s: System, bytes: seq<int>, n: nat)
    requires Inv(s) && 1 in s.procs && 2 in s.procs && s.procs[1] == Writer(bytes) && s.procs[2] == Reader(Check, 1, [])
    requires n == 1024 && |bytes| == n + 1 && s.written == [] && s.read == [] && s.value == 0 && s.rRef == 1
      && s.wRef == 1
    ensures Run(Run(s, Again(Puts(1), n + 1)), [Checks(2), Downs(2), Takes(2)]).read == [bytes[n]]
    ensures bytes[n] != bytes[0] ==> !InOrder(Run(Run(s, Again(Puts(1), n + 1)), [Checks(2), Downs(2), Takes(2)]))
  {
    hide Inv, Run, At, Step, Again;
    WritesOn(s, 1, bytes, n + 1);
    var t := Run(s, Again(Puts(1), n + 1));
    assert t.written == bytes;
    AtCheck(s, t);
    assert (n + 1) % 1024 == 1;
    ReadsOne(t, 2);
    assert bytes[Newest(0, n + 1)] == bytes[n];
    WrongFirst(Run(t, [Checks(2), Downs(2), Takes(2)]), bytes, n);
  }

  lemma WrongFirst(s: System, bytes: seq<int>, n: nat)
    requires n < |bytes| && s.written == bytes && s.read == [bytes[n]]
    ensures bytes[n] != bytes[0] ==> !InOrder(s)
  {
  }

  lemma AtCheck(s: System, t: System)
    requires 2 in s.procs && s.procs[2] == Reader(Check, 1, []) && 2 in t.procs && t.procs[2] == s.procs[2]
    ensures At(t.procs, 2, Check)
  {
  }

  /** One byte read with nobody in the way. */
  lemma ReadsOne(s: System, p: nat)
    requires Inv(s) && At(s.procs, p, Check) && s.procs[p].want > 0 && s.value > 0
      && (|s.written| - |s.read|) % SIZE != 0
    ensures |s.read| < |s.written|
    ensures var t := Run(s, [Checks(p), Downs(p), Takes(p)]);
            t.read == s.read + [s.written[Newest(|s.read|, |s.written|)]] && t.written == s.written
  {
    EndOfPipe(s, p);
    var a := Step(s, Checks(p));
    StepKeeps(s, Checks(p));
    var b := Step(a, Downs(p));
    StepKeeps(a, Downs(p));
    TakenByte(b, p);
    var c := Step(b, Takes(p));
    StepKeeps(b, Takes(p));
    RunThree(s, Checks(p), Downs(p), Takes(p));
  }

  lemma RunThree(s: System, d: Event, e: Event, f: Event)
    requires Inv(s) && Inv(Step(s, d)) && Inv(Step(Step(s, d), e))
    ensures Run(s, [d, e, f]) == Step(Step(Step(s, d), e), f)
  {
    var a, b := Step(s, d), Step(Step(s, d), e);
    StepKeeps(b, f);
    InvShape(b);
    hide Inv, Step;
    assert [d, e, f][1..] == [e, f] && [e, f][1..] == [f] && [f][1..] == [];
    assert Run(b, [f]) == Step(b, f);
    assert Run(a, [e, f]) == Run(b, [f]);
    assert Run(s, [d, e, f]) == Run(a, [e, f]);
  }

  // ---------------------------------------------------------------- the code

  /** The pipe object and the part of the scheduler that it uses; each method is one step of the state machine. */
  class Kernel {
    const buf: array<int>
    var rPos: nat
    var wPos: nat
    var rRef: int
    var wRef: int
    var value: int
    var sleepList: seq<nat>
    var procs: map<nat, Proc>
    ghost var written: seq<int>
    ghost var read: seq<int>

    ghost function State(): (s: System)
      reads this, buf
    {
      System(buf[..], rPos, wPos, rRef, wRef, value, sleepList, procs, written, read)
    }

    ghost predicate Valid()
      reads this, buf
    {
      Inv(State())
    }

    /** `pipe_alloc`, with one reference to each end. */
    constructor (sleepList: seq<nat>, procs: map<nat, Proc>)
      requires Distinct(sleepList) && (forall p :: p in procs ==> procs[p].Stranger?) && forall p ::
        p in sleepList ==> p in procs
      ensures Valid() && fresh(buf) && Init(State()) && rRef == 1 && wRef == 1
    {
      this.buf := new int[SIZE];
      this.rPos, this.wPos, this.rRef, this.wRef, this.value := 0, 0, 1, 1, 0;
      this.sleepList, this.procs := sleepList, procs;
      this.written, this.read := [], [];
      new;
      InitInv(State());
    }

    /** `wakeup`: the first process in the sleep list that waits for this pipe can go on. */
    method Wakeup()
      modifies `sleepList, `procs
      ensures State() == WakeUp(old(State()))
    {
      var i := 0;
      while i < |sleepList| && !At(procs, sleepList[i], Asleep)
        invariant 0 <= i <= |sleepList| && First(sleepList, procs, 0) == First(sleepList, procs, i)
      {
        i := i + 1;
      }
      if i < |sleepList| {
        var p := sleepList[i];
        procs := MoveTo(procs, p, Take);
        sleepList := Without(sleepList, i);
      }
    }

    /** The test of the loop of `pipe_read`; `go` if the reader goes on to `P`. */
    method Test(p: nat) returns (go: bool)
      requires Valid() && At(procs, p, Check)
      modifies `procs
      ensures Valid() && State() == Step(old(State()), Checks(p)) && go == At(procs, p, Down)
    {
      ghost var s := State();
      go := procs[p].want > 0 && !(wRef == 0 && rPos == wPos);
      procs := MoveTo(procs, p, if go then Down else Ended);
      StepKeeps(s, Checks(p));
    }

    /** `P`, with `sleep` when the value was not positive. */
    method P(p: nat)
      requires Valid() && At(procs, p, Down)
      modifies `value, `procs, `sleepList
      ensures Valid() && State() == Step(old(State()), Downs(p))
    {
      ghost var s := State();
      value := value - 1;
      if value < 0 {
        procs := MoveTo(procs, p, Asleep);
        sleepList := sleepList + [p];
      } else {
        procs := MoveTo(procs, p, Take);
      }
      StepKeeps(s, Downs(p));
    }

    /** The rest of the loop of `pipe_read`: it takes the byte that was written last to its slot, which is the next one
        in order unless the buffer was overrun. */
    method TakeByte(p: nat) returns (b: int)
      requires Valid() && At(procs, p, Take)
      modifies `rPos, `procs, `read
      ensures Valid() && State() == Step(old(State()), Takes(p))
      ensures |old(read)| < |written| && b == written[Newest(|old(read)|, |written|)]
      ensures |written| <= |old(read)| + 1024 ==> b == written[|old(read)|]
    {
      ghost var s := State();
      TakenByte(s, p);
      TakeKeeps(s, p);
      hide Inv;
      b := buf[rPos];
      rPos := rPos + 1;
      rPos := rPos % SIZE;
      var me := procs[p];
      procs := procs[p := Reader(Check, if me.want > 0 then me.want - 1 else 0, me.got + [b])];
      read := read + [b];
      assert State() == TakeStep(s, p);
      assert TakeStep(s, p).read[|s.read|] == b;
    }

    /** `V`. */
    method V()
      modifies `value, `sleepList, `procs
      ensures var s := old(State()).(value := old(value) + 1); State() == if s.value <= 0 then WakeUp(s) else s
    {
      value := value + 1;
      if value <= 0 {
        Wakeup();
      }
    }

    /** The byte goes into the buffer. */
    method Store(p: nat)
      requires WellFormed(State()) && p in procs && procs[p].Writer? && procs[p].todo != []
      modifies `wPos, `procs, `written, buf
      ensures State().(value := value + 1) == Pushed(old(State()), p)
    {
      var todo := procs[p].todo;
      ghost var was := buf[..];
      buf[wPos] := todo[0];
      assert buf[..] == was[wPos := todo[0]];
      wPos := wPos + 1;
      wPos := wPos % SIZE;
      written := written + [todo[0]];
      procs := procs[p := Writer(if rRef == 0 then [] else todo[1..])];
    }

    /** One round of the loop of `pipe_write`, with `V`. */
    method PutByte(p: nat)
      requires Valid() && p in procs && procs[p].Writer? && procs[p].todo != []
      modifies this, buf
      ensures Valid() && State() == Step(old(State()), Puts(p))
    {
      ghost var s := State();
      StepKeeps(s, Puts(p));
      InvShape(s);
      hide Inv, WellFormed, Pushed, WakeUp;
      Store(p);
      V();
    }

    /** `pipe_write` when no other process runs before it returns. */
    method PipeWrite(p: nat, bytes: seq<int>) returns (cnt: nat)
      requires Valid() && p in procs && procs[p] == Writer(bytes)
      modifies this, buf
      ensures Valid() && p in procs && procs[p] == Writer([]) && read == old(read) && rRef == old(rRef)
      ensures cnt == if rRef == 0 && |bytes| > 0 then 1 else |bytes|
      ensures written == old(written) + bytes[..cnt]
    {
      hide Inv, Step;
      cnt := 0;
      while procs[p].todo != []
        invariant Valid() && p in procs && procs[p].Writer? && cnt <= |bytes| && read == old(read) && rRef == old(rRef)
        invariant written == old(written) + bytes[..cnt]
        invariant procs[p].todo == if rRef == 0 && cnt > 0 then [] else bytes[cnt..]
        invariant rRef == 0 ==> cnt <= 1
        decreases |procs[p].todo|
      {
        ghost var s := State();
        PutByte(p);
        PutFacts(s, p);
        assert bytes[..cnt + 1] == bytes[..cnt] + [bytes[cnt]];
        cnt := cnt + 1;
      }
    }
  }

  lemma PutFacts(s: System, p: nat)
    requires Inv(s) && p in s.procs && s.procs[p].Writer? && s.procs[p].todo != []
    ensures var t := Step(s, Puts(p));
            && p in t.procs && t.procs[p] == Writer(if s.rRef == 0 then [] else s.procs[p].todo[1..])
            && t.written == s.written + [s.procs[p].todo[0]] && t.read == s.read && t.rRef == s.rRef
  {
  }
}
