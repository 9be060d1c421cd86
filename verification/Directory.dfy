/** A FAT directory as a table of 32-byte entries that grows by zeroed clusters: finding, registering and removing
    names, as in ff.c. Section "FAT Directory Structure" of the FAT32 File System Specification. */
module Directories {
  import opened Bytes
  import Division
  import opened LongNames
  import opened ShortNames

  const MAX_ENTRIES: nat := 0x1_0000
  const DDEM: byte := 0xE5

  // ---------------------------------------------------------------- entries

  function Attr(e: Entry): (a: nat) { e[11] % 64 }

  predicate IsFree(e: Entry) { e[0] == 0 || e[0] == DDEM }

  predicate IsLong(e: Entry) { Attr(e) == 0x0F }

  /** A volume label, or anything else with that bit that is no long-name slot. */
  predicate IsVolume(e: Entry) { Attr(e) / 8 % 2 == 1 && !IsLong(e) }

  /** An entry of a file or directory. */
  predicate IsShort(e: Entry) { !IsFree(e) && Attr(e) / 8 % 2 == 0 }

  lemma Kinds(e: Entry)
    ensures !(IsLong(e) && IsVolume(e)) && (IsShort(e) ==> !IsLong(e) && !IsVolume(e))
      && (!IsFree(e) && !IsLong(e) && !IsVolume(e) ==> IsShort(e))
  {
  }

  /** No entry in use comes after an end mark. */
  ghost predicate Ended(table: seq<Entry>) {
    forall i, j :: 0 <= i < j < |table| && table[i][0] == 0 ==> IsFree(table[j])
  }

  /** No two entries of files have the same name. */
  ghost predicate Unique(table: seq<Entry>) {
    forall i, j :: 0 <= i < j < |table| && IsShort(table[i]) && IsShort(table[j]) ==> table[i][..11] != table[j][..11]
  }

  ghost predicate WellFormed(table: seq<Entry>) { Ended(table) && Unique(table) }

  // ---------------------------------------------------------------- finding

  /** What `dir_find` looks for: a short name, unless it is lossy, and a long name, unless that is not to be found. */
  datatype Query = Query(fn: seq<byte>, lossy: bool, noLong: bool, buf: seq<nat>, up: nat -> nat)

  predicate QueryOk(q: Query) { |q.fn| == 11 && |q.buf| == MAX_LFN + 1 }

  /** How far a sequence of slots has matched: the next order byte, its checksum and where it began, or -1. */
  datatype Progress = Progress(ord: byte, sum: byte, blk: int)

  const NONE: Progress := Progress(0xFF, 0xFF, -1)

  function Lost(st: Progress): (r: Progress) { st.(ord := 0xFF, blk := -1) }

  function LongStep(e: Entry, i: nat, st: Progress, q: Query): (r: Progress)
    requires QueryOk(q)
  {
    var c: byte := if Last(e) then e[0] - 0x40 else e[0];
    var t := if Last(e) then Progress(c, e[13], i) else st;
    t.(ord := if c == t.ord && t.sum == e[13] && Matches(q.buf, q.up, e) then (if t.ord == 0 then 0xFF else t.ord - 1)
      else 0xFF)
  }

  predicate ShortHit(e: Entry, st: Progress, q: Query)
    requires QueryOk(q)
  {
    (st.ord == 0 && st.sum == Sum(0, e[..11])) || (!q.lossy && e[..11] == q.fn)
  }

  predicate Hit(e: Entry, st: Progress, q: Query)
    requires QueryOk(q)
  {
    e[0] != DDEM && !IsVolume(e) && !IsLong(e) && ShortHit(e, st, q)
  }

  /** The progress after an entry that is no hit. */
  function Pass(e: Entry, i: nat, st: Progress, q: Query): (r: Progress)
    requires QueryOk(q)
  {
    if e[0] == DDEM || IsVolume(e) then Lost(st)
    else if IsLong(e) then (if q.noLong then st else LongStep(e, i, st, q))
    else Lost(st)
  }

  datatype Found = At(index: nat, blk: int) | Nowhere

  /** The loop of `dir_find` from entry `i` on. */
  function Find(table: seq<Entry>, i: nat, st: Progress, q: Query): (r: Found)
    requires i <= |table| && QueryOk(q)
    decreases |table| - i
  {
    if i == |table| || table[i][0] == 0 then Nowhere
    else if Hit(table[i], st, q) then Found.At(i, st.blk)
    else Find(table, i + 1, Pass(table[i], i, st, q), q)
  }

  /** A search that finds nothing has seen no file of that name before the end mark. */
  lemma {:induction false} NowhereNoName(table: seq<Entry>, i: nat, st: Progress, q: Query, k: nat)
    requires QueryOk(q) && i <= k < |table| && Find(table, i, st, q) == Nowhere && !q.lossy && IsShort(table[k])
    requires forall j :: i <= j < k ==> table[j][0] != 0
    ensures table[k][..11] != q.fn
    decreases k - i
  {
    hide Pass, IsVolume, IsLong;
    if i == k {
      Kinds(table[k]);
    } else {
      NowhereNoName(table, i + 1, Pass(table[i], i, st, q), q, k);
    }
  }

  lemma NotTaken(table: seq<Entry>, q: Query)
    requires QueryOk(q) && Ended(table) && Find(table, 0, NONE, q) == Nowhere && !q.lossy
    ensures forall k :: 0 <= k < |table| && IsShort(table[k]) ==> table[k][..11] != q.fn
  {
    forall k | 0 <= k < |table| && IsShort(table[k]) ensures table[k][..11] != q.fn {
      NowhereNoName(table, 0, NONE, q, k);
    }
  }

  /** Entries in front of place `s`, where a search found nothing, lead it to `s` alike in any two tables that begin
      with them. */
  lemma {:induction false} FindBoth(table: seq<Entry>, more: seq<Entry>, i: nat, s: nat, st: Progress, q: Query)
      returns (st': Progress)
    requires QueryOk(q) && i <= s <= |table| && s <= |more| && Find(table, i, st, q) == Nowhere
    requires forall j :: i <= j < s ==> more[j] == table[j] && table[j][0] != 0
    ensures Find(more, i, st, q) == Find(more, s, st', q) && Find(table, i, st, q) == Find(table, s, st', q)
    decreases s - i
  {
    hide Pass, Hit;
    if i == s {
      st' := st;
    } else {
      st' := FindBoth(table, more, i + 1, s, Pass(table[i], i, st, q), q);
    }
  }

  /** The slots and the short entry of a name, from place `s` on. */
  ghost predicate HasBlock(table: seq<Entry>, s: nat, name: seq<nat>, sum: byte, m: nat) {
    && s + m < |table| && (forall i :: s <= i < s + m ==> IsSlot(table[i], name, m - (i - s), sum))
    && IsShort(table[s + m]) && Sum(0, table[s + m][..11]) == sum
  }

  lemma SlotStep(e: Entry, i: nat, st: Progress, q: Query, name: seq<nat>, ord: nat, sum: byte)
    requires QueryOk(q) && !q.noLong && IsName(name) && |name| < MAX_LFN && 1 <= ord <= SlotCount(|name|)
      && IsSlot(e, name, ord, sum)
    requires Holds(q.buf, name) && (ord == SlotCount(|name|) || (st.ord == ord && st.sum == sum))
    ensures e[0] != 0 && !Hit(e, st, q)
    ensures Pass(e, i, st, q) == Progress(ord - 1, sum, if ord == SlotCount(|name|) then i else st.blk)
  {
    SlotShape(e, name, ord, sum);
    MatchSlot(q.buf, q.up, e, name, ord, sum);
    hide Matches, LfnOfs, Unit, ZeroFrom, Filled, Part;
    forall i | 0 <= i < |name| ensures q.buf[i] == name[i] {
      assert q.buf[..|name|][i] == name[i];
    }
    assert Matches(q.buf, q.up, e);
  }

  lemma ShortMet(e: Entry, st: Progress, q: Query)
    requires QueryOk(q) && IsShort(e) && st.ord == 0 && st.sum == Sum(0, e[..11])
    ensures e[0] != 0 && Hit(e, st, q)
  {
    hide Sum;
    Kinds(e);
  }

  /** The search runs through the slots of the name to its short entry. */
  lemma {:induction false} FindBlock(table: seq<Entry>, s: nat, j: nat, st: Progress, q: Query, name: seq<nat>,
    sum: byte, m: nat)
    requires QueryOk(q) && !q.noLong && IsName(name) && 0 < |name| < MAX_LFN && m == SlotCount(|name|)
      && HasBlock(table, s, name, sum, m)
    requires Holds(q.buf, name) && j <= m && (j > 0 ==> st == Progress(m - j, sum, s))
    ensures Find(table, s + j, st, q) == Found.At(s + m, s)
    decreases m - j
  {
    hide IsSlot, IsShort, Pass, Hit, Holds, IsName, Sum;
    if j == m {
      ShortMet(table[s + m], st, q);
    } else {
      var i := s + j;
      assert IsSlot(table[i], name, m - j, sum);
      SlotStep(table[i], i, st, q, name, m - j, sum);
      FindBlock(table, s, j + 1, Progress(m - j - 1, sum, s), q, name, sum, m);
    }
  }

  // ---------------------------------------------------------------- room for new entries

  function Blank(): (e: Entry)
    ensures forall k :: 0 <= k < 32 ==> e[k] == 0
  {
    seq(32, _ => 0)
  }

  /** The table with some clusters full of zeros behind it. */
  ghost predicate Extends(table: seq<Entry>, more: seq<Entry>) {
    && |table| <= |more| && (forall i :: 0 <= i < |table| ==> more[i] == table[i])
    && forall i :: |table| <= i < |more| ==> more[i] == Blank()
  }

  ghost predicate Run(table: seq<Entry>, s: int, n: nat) {
    0 <= s && s + n <= |table| && forall i :: s <= i < s + n ==> IsFree(table[i])
  }

  /** No `n` free entries together end in front of place `k`. */
  ghost predicate NoRun(table: seq<Entry>, n: nat, k: nat) { forall s: int :: s + n <= k ==> !Run(table, s, n) }

  /** Place `s` is the first, or the one in front of it is in use. */
  ghost predicate Begins(table: seq<Entry>, s: int) { 0 <= s <= |table| && (s == 0 || !IsFree(table[s - 1])) }

  lemma ExtendsTrans(a: seq<Entry>, b: seq<Entry>, c: seq<Entry>)
    requires Extends(a, b) && Extends(b, c)
    ensures Extends(a, c)
  {
  }

  lemma RunsKept(a: seq<Entry>, b: seq<Entry>, n: nat, k: nat, s: int, m: nat)
    requires Extends(a, b) && k <= |a| && n > 0
    ensures NoRun(a, n, k) ==> NoRun(b, n, k)
    ensures Run(a, s, m) ==> Run(b, s, m)
    ensures Begins(a, s) && s <= k ==> Begins(b, s)
  {
    forall s: int | s + n <= k && Run(b, s, n) ensures Run(a, s, n) {
    }
  }

  /** One more free entry, or one in use. */
  lemma RunStep(table: seq<Entry>, nent: nat, k: nat, n: nat)
    requires k < |table| && n < nent && Run(table, k - n, n) && Begins(table, k - n) && NoRun(table, nent, k)
    ensures IsFree(table[k]) ==> Run(table, k - n, n + 1) && (n + 1 < nent ==> NoRun(table, nent, k + 1))
    ensures !IsFree(table[k]) ==> Run(table, k + 1, 0) && Begins(table, k + 1) && NoRun(table, nent, k + 1)
  {
    if IsFree(table[k]) && n + 1 < nent {
      forall s: int | s + nent <= k + 1 ensures !Run(table, s, nent) {
        if s + nent == k + 1 && s >= 0 {
          assert s <= k - n - 1 && !IsFree(table[k - n - 1]);
        }
      }
    }
  }

  // ---------------------------------------------------------------- a name registered

  /** `now` is `more` with new entries just at places `s` to `s + m`: the slots of the name and its short entry. */
  ghost predicate Placed(more: seq<Entry>, now: seq<Entry>, s: nat, m: nat, name: seq<nat>, fn: seq<byte>, nt: byte)
    requires |fn| == 11
  {
    && |now| == |more| && s + m < |more| && Run(more, s, m + 1) && Begins(more, s)
    && (forall i :: 0 <= i < |more| && !(s <= i <= s + m) ==> now[i] == more[i])
    && (forall i :: s <= i < s + m ==> IsSlot(now[i], name, m - (i - s), Sum(0, fn)))
    && now[s + m] == ShortEntry(fn, nt)
  }

  function ShortEntry(fn: seq<byte>, nt: byte): (e: Entry)
    requires |fn| == 11
  {
    fn + [0, nt] + seq(19, _ => 0)
  }

  /** The entry of a new file or directory: name, attribute 0, the byte for case, and zeros. */
  lemma ShortBytes(fn: seq<byte>, nt: byte, k: nat)
    requires |fn| == 11 && k < 32
    ensures ShortEntry(fn, nt)[k] == if k < 11 then fn[k] else if k == 12 then nt else 0
  {
  }

  lemma ShortIs(fn: seq<byte>, nt: byte)
    requires |fn| == 11 && fn[0] != 0 && fn[0] != DDEM
    ensures IsShort(ShortEntry(fn, nt)) && ShortEntry(fn, nt)[..11] == fn && ShortEntry(fn, nt)[0] == fn[0]
  {
    assert ShortEntry(fn, nt)[11] == 0;
  }

  lemma SlotUsed(e: Entry, name: seq<nat>, ord: nat, sum: byte)
    requires IsSlot(e, name, ord, sum) && ord <= SlotCount(|name|) && |name| <= MAX_LFN
    ensures !IsFree(e) && !IsShort(e)
  {
    hide Unit, Part;
  }

  /** The first place of the new entries comes before any end mark. */
  lemma BeforeEnd(more: seq<Entry>, s: nat, m: nat)
    requires Ended(more) && Run(more, s, m + 1) && Begins(more, s)
    ensures forall i :: 0 <= i < s ==> more[i][0] != 0
  {
    if s > 0 {
      assert forall i :: 0 <= i < s - 1 && more[i][0] == 0 ==> IsFree(more[s - 1]);
    }
  }

  lemma ExtendsEnded(table: seq<Entry>, more: seq<Entry>)
    requires Extends(table, more)
    ensures Ended(table) ==> Ended(more)
    ensures Unique(table) ==> Unique(more)
  {
    assert IsFree(Blank()) && !IsShort(Blank());
  }

  lemma BeginsInside(table: seq<Entry>, more: seq<Entry>, s: nat)
    requires Extends(table, more) && Begins(more, s)
    ensures s <= |table|
  {
    assert IsFree(Blank());
  }

  lemma PlacedEnded(more: seq<Entry>, now: seq<Entry>, s: nat, m: nat, name: seq<nat>, fn: seq<byte>, nt: byte)
    requires Ended(more) && |fn| == 11 && Placed(more, now, s, m, name, fn, nt) && fn[0] != 0 && fn[0] != DDEM
    requires m <= SlotCount(|name|) && |name| <= MAX_LFN
    ensures Ended(now)
  {
    BeforeEnd(more, s, m);
    ShortIs(fn, nt);
    forall i | s <= i < s + m ensures now[i][0] != 0 {
      SlotUsed(now[i], name, m - (i - s), Sum(0, fn));
    }
    hide IsSlot, ShortEntry, IsFree;
    forall i, j | 0 <= i < j < |now| && now[i][0] == 0 ensures IsFree(now[j]) {
      assert i > s + m && more[i][0] == 0;
    }
  }

  lemma PlacedUnique(more: seq<Entry>, now: seq<Entry>, s: nat, m: nat, name: seq<nat>, fn: seq<byte>, nt: byte)
    requires Unique(more) && |fn| == 11 && Placed(more, now, s, m, name, fn, nt) && fn[0] != 0 && fn[0] != DDEM
    requires m <= SlotCount(|name|) && |name| <= MAX_LFN
    requires forall k :: 0 <= k < |more| && IsShort(more[k]) ==> more[k][..11] != fn
    ensures Unique(now)
  {
    ShortIs(fn, nt);
    forall i | s <= i < s + m ensures !IsShort(now[i]) {
      SlotUsed(now[i], name, m - (i - s), Sum(0, fn));
    }
    hide IsSlot, ShortEntry, IsShort;
  }

  /** Registering a name that was not found keeps the directory well formed. */
  lemma PlacedWellFormed(table: seq<Entry>, more: seq<Entry>, now: seq<Entry>, s: nat, m: nat, name: seq<nat>,
    q: Query, nt: byte)
    requires WellFormed(table) && Extends(table, more) && QueryOk(q) && Placed(more, now, s, m, name, q.fn, nt)
      && q.fn[0] != 0 && q.fn[0] != DDEM
    requires m <= SlotCount(|name|) && |name| <= MAX_LFN
    requires !q.lossy && Find(table, 0, NONE, q) == Nowhere
    ensures WellFormed(now)
  {
    NotTaken(table, q);
    ExtendsEnded(table, more);
    forall k | 0 <= k < |more| && IsShort(more[k]) ensures more[k][..11] != q.fn {
      assert k < |table| by { assert !IsShort(Blank()); }
    }
    hide Placed, IsShort, Extends;
    PlacedEnded(more, now, s, m, name, q.fn, nt);
    PlacedUnique(more, now, s, m, name, q.fn, nt);
  }

  /** And a new search for the name comes to its entry, from the first of its long-name slots if there are any. */
  lemma PlacedFound(table: seq<Entry>, more: seq<Entry>, now: seq<Entry>, s: nat, m: nat, name: seq<nat>,
    fn: seq<byte>, q: Query, nt: byte)
    requires Ended(table) && Extends(table, more) && QueryOk(q) && |fn| == 11 && Placed(more, now, s, m, name, fn, nt)
      && fn[0] != 0 && fn[0] != DDEM
    requires IsName(name) && |name| <= MAX_LFN && Holds(q.buf, name) && m == (if m > 0 then SlotCount(|name|) else 0)
    requires m > 0 ==> !q.noLong
    requires m == 0 || |name| == MAX_LFN ==> !q.lossy && q.fn == fn
    requires Find(table, 0, NONE, q) == Nowhere
    ensures Find(now, 0, NONE, q).At? && Find(now, 0, NONE, q).index == s + m
    ensures m > 0 ==> Find(now, 0, NONE, q).blk == s
  {
    hide IsSlot, ShortEntry, Find, IsFree, IsShort, Placed, Extends, Ended;
    ShortIs(fn, nt);
    PlacedFront(table, more, now, s, m, name, fn, nt);
    PlacedBlock(more, now, s, m, name, fn, nt);
    var st := FindBoth(table, now, 0, s, NONE, q);
    if m > 0 && |name| == MAX_LFN {
      var st' := SlotsMissed(now, s, 0, st, q, name, Sum(0, fn), m);
      FindShort(now, s + m, st', q);
    } else if m > 0 {
      FindBlock(now, s, 0, st, q, name, Sum(0, fn), m);
    } else {
      FindShort(now, s, st, q);
    }
  }

  lemma PlacedFront(table: seq<Entry>, more: seq<Entry>, now: seq<Entry>, s: nat, m: nat, name: seq<nat>,
    fn: seq<byte>, nt: byte)
    requires Ended(table) && Extends(table, more) && |fn| == 11 && Placed(more, now, s, m, name, fn, nt)
    ensures s <= |table| && s <= |now| == |more|
    ensures forall j :: 0 <= j < s ==> now[j] == table[j] == more[j] && table[j][0] != 0
  {
    ExtendsEnded(table, more);
    BeforeEnd(more, s, m);
    BeginsInside(table, more, s);
    hide IsSlot, ShortEntry, IsFree;
  }

  lemma PlacedBlock(more: seq<Entry>, now: seq<Entry>, s: nat, m: nat, name: seq<nat>, fn: seq<byte>, nt: byte)
    requires |fn| == 11 && Placed(more, now, s, m, name, fn, nt) && fn[0] != 0 && fn[0] != DDEM
    ensures HasBlock(now, s, name, Sum(0, fn), m) && now[s + m] == ShortEntry(fn, nt)
  {
    ShortIs(fn, nt);
    hide IsSlot, ShortEntry, IsFree, IsShort;
  }

  lemma FindShort(table: seq<Entry>, s: nat, st: Progress, q: Query)
    requires QueryOk(q) && s < |table| && IsShort(table[s]) && !q.lossy && table[s][..11] == q.fn
    ensures Find(table, s, st, q) == Found.At(s, st.blk)
  {
    Kinds(table[s]);
  }

  /** The whole of it: when a name was looked for and not found, and then registered, the directory is well formed as
      before, and looking for it again comes to its new entry, from the first of its long-name slots on, just if the
      name has less than 255 units or its short name is not lossy. Otherwise it is not found. */
  lemma Registered(table: seq<Entry>, more: seq<Entry>, now: seq<Entry>, s: nat, m: nat, name: seq<nat>, q: Query,
                   fn: seq<byte>, nt: byte)
    requires WellFormed(table) && Extends(table, more) && QueryOk(q) && !q.noLong && q.fn[0] != 0 && q.fn[0] != DDEM
    requires IsName(name) && 0 < |name| <= MAX_LFN && Holds(q.buf, name) && Find(table, 0, NONE, q) == Nowhere
    requires |fn| == 11 && Placed(more, now, s, m, name, fn, nt) && (m == 0 || m == SlotCount(|name|))
    requires if q.lossy then m > 0 && Find(table, 0, NONE, Query(fn, false, true, q.buf, q.up)) == Nowhere
      else fn == q.fn
    requires q.lossy ==> exists num: nat :: num < 0x1_0000 && fn == Numbered(q.fn, num)
    ensures WellFormed(now) && IsShort(now[s + m]) && now[s + m][..11] == fn
    ensures |name| < MAX_LFN || !q.lossy <==> Find(now, 0, NONE, q).At? && Find(now, 0, NONE, q).index == s + m
    ensures (|name| < MAX_LFN || !q.lossy) && m > 0 ==> Find(now, 0, NONE, q) == Found.At(s + m, s)
    ensures |name| == MAX_LFN && q.lossy ==> Find(now, 0, NONE, q) == Nowhere
  {
    hide Find, Placed, Extends, WellFormed, ShortEntry, IsSlot, Numbered, IsShort;
    if q.lossy {
      var num: nat :| num < 0x1_0000 && fn == Numbered(q.fn, num);
      NumberedFirst(q.fn, num);
      PlacedWellFormed(table, more, now, s, m, name, Query(fn, false, true, q.buf, q.up), nt);
    } else {
      PlacedWellFormed(table, more, now, s, m, name, q, nt);
    }
    IsEnded(table);
    if |name| == MAX_LFN && q.lossy {
      LongestLost(table, more, now, s, m, name, fn, q, nt);
    } else {
      PlacedFound(table, more, now, s, m, name, fn, q, nt);
    }
    PlacedBlock(more, now, s, m, name, fn, nt);
    ShortIs(fn, nt);
    hide HasBlock;
  }

  lemma IsEnded(table: seq<Entry>)
    requires WellFormed(table)
    ensures Ended(table)
  {
  }

  /** The slots of a name of 255 units are passed over, because the last part never matches; the place of the first is
      remembered. */
  lemma {:induction false} SlotsMissed(table: seq<Entry>, s: nat, j: nat, st: Progress, q: Query, name: seq<nat>,
    sum: byte, m: nat)
      returns (st': Progress)
    requires QueryOk(q) && !q.noLong && IsName(name) && |name| == MAX_LFN && m == SlotCount(|name|)
      && HasBlock(table, s, name, sum, m)
    requires j <= m && (j > 0 ==> st.ord == 0xFF && st.blk == s)
    ensures Find(table, s + j, st, q) == Find(table, s + m, st', q) && st'.ord == 0xFF && st'.blk == s
    decreases m - j
  {
    hide IsSlot;
    if j == m {
      st' := st;
    } else {
      var i := s + j;
      assert IsSlot(table[i], name, m - j, sum);
      SlotMissed(table[i], i, st, q, name, m - j, sum);
      hide Pass, Hit;
      st' := SlotsMissed(table, s, j + 1, Pass(table[i], i, st, q), q, name, sum, m);
    }
  }

  /** Two searches that both wait for the start of a name find something or nothing alike. */
  lemma {:induction false} SameSearch(a: seq<Entry>, b: seq<Entry>, i: nat, st: Progress, st': Progress, q: Query)
    requires QueryOk(q) && i <= |a| == |b| && forall k :: i <= k < |a| ==> a[k] == b[k]
    requires st == st' || st.ord == st'.ord == 0xFF
    ensures Find(a, i, st, q) == Nowhere <==> Find(b, i, st', q) == Nowhere
    decreases |a| - i
  {
    hide Matches, Sum;
    if i < |a| && a[i][0] != 0 && !Hit(a[i], st, q) {
      SameStep(a[i], i, st, st', q);
      hide Pass, Hit;
      SameSearch(a, b, i + 1, Pass(a[i], i, st, q), Pass(a[i], i, st', q), q);
    }
  }

  lemma SameStep(e: Entry, i: nat, st: Progress, st': Progress, q: Query)
    requires QueryOk(q) && (st == st' || st.ord == st'.ord == 0xFF)
    ensures Hit(e, st, q) <==> Hit(e, st', q)
    ensures Pass(e, i, st, q) == Pass(e, i, st', q) || Pass(e, i, st, q).ord == Pass(e, i, st', q).ord == 0xFF
  {
    hide Matches, Sum;
  }

  /** In a run of free entries a search ends, or it comes out waiting for the start of a name. */
  lemma {:induction false} ThroughFree(table: seq<Entry>, i: nat, n: nat, st: Progress, q: Query)
    returns (st': Progress)
    requires QueryOk(q) && i < n <= |table| && forall k :: i <= k < n ==> IsFree(table[k])
    ensures st'.ord == 0xFF
    ensures (forall k :: i <= k < n ==> table[k][0] != 0) ==> Find(table, i, st, q) == Find(table, n, st', q)
    decreases n - i
  {
    st' := Lost(st);
    if table[i][0] != 0 && i + 1 < n {
      st' := ThroughFree(table, i + 1, n, Lost(st), q);
    }
  }

  lemma {:induction false} FreeTail(table: seq<Entry>, i: nat, st: Progress, q: Query)
    requires QueryOk(q) && i <= |table| && forall k :: i <= k < |table| ==> IsFree(table[k])
    ensures Find(table, i, st, q) == Nowhere
    decreases |table| - i
  {
    if i < |table| && table[i][0] != 0 {
      FreeTail(table, i + 1, Lost(st), q);
    }
  }

  /** A search that found nothing finds nothing in a table with clusters of zeros behind it either. */
  lemma {:induction false} ExtendedNowhere(table: seq<Entry>, more: seq<Entry>, i: nat, st: Progress, q: Query)
    requires QueryOk(q) && Extends(table, more) && i <= |table| && Find(table, i, st, q) == Nowhere
    ensures Find(more, i, st, q) == Nowhere
    decreases |table| - i
  {
    hide Pass, Hit;
    if i < |table| && table[i][0] != 0 {
      ExtendedNowhere(table, more, i + 1, Pass(table[i], i, st, q), q);
    }
  }

  /** But a name of 255 units whose short name is lossy is not found once it is registered. */
  lemma LongestLost(table: seq<Entry>, more: seq<Entry>, now: seq<Entry>, s: nat, m: nat, name: seq<nat>, fn: seq<byte>,
                    q: Query, nt: byte)
    requires Ended(table) && Extends(table, more) && QueryOk(q) && |fn| == 11 && Placed(more, now, s, m, name, fn, nt)
    requires fn[0] != 0 && fn[0] != DDEM && !q.noLong && q.lossy && Find(table, 0, NONE, q) == Nowhere
    requires IsName(name) && |name| == MAX_LFN && m == SlotCount(|name|)
    ensures Find(now, 0, NONE, q) == Nowhere
  {
    hide IsSlot, ShortEntry, Find, IsFree, IsShort, Placed, Extends, Ended;
    PlacedFront(table, more, now, s, m, name, fn, nt);
    PlacedBlock(more, now, s, m, name, fn, nt);
    ExtendedNowhere(table, more, 0, NONE, q);
    var st := FindBoth(more, now, 0, s, NONE, q);
    var st' := SlotsMissed(now, s, 0, st, q, name, Sum(0, fn), m);
    ShortMissed(now, s + m, st', q);
    PlacedTail(table, more, now, s, m, name, fn, nt);
    if forall k :: s <= k < s + m + 1 ==> more[k][0] != 0 {
      var free := ThroughFree(more, s, s + m + 1, st, q);
      SameSearch(more, now, s + m + 1, free, Lost(st'), q);
    } else {
      FreeTail(now, s + m + 1, Lost(st'), q);
    }
  }

  lemma ShortMissed(table: seq<Entry>, k: nat, st: Progress, q: Query)
    requires QueryOk(q) && k < |table| && IsShort(table[k]) && st.ord == 0xFF && q.lossy
    ensures Find(table, k, st, q) == Find(table, k + 1, Lost(st), q)
  {
    Kinds(table[k]);
  }

  /** What is behind the new entries is as it was, and free if one of the entries taken was an end mark. */
  lemma PlacedTail(table: seq<Entry>, more: seq<Entry>, now: seq<Entry>, s: nat, m: nat, name: seq<nat>,
    fn: seq<byte>, nt: byte)
    requires Ended(table) && Extends(table, more) && |fn| == 11 && Placed(more, now, s, m, name, fn, nt)
    ensures |now| == |more| && s + m < |more| && forall k :: s <= k < s + m + 1 ==> IsFree(more[k])
    ensures forall k :: s + m + 1 <= k < |now| ==> now[k] == more[k]
    ensures (exists k :: s <= k < s + m + 1 && more[k][0] == 0) ==>
      forall k :: s + m + 1 <= k < |now| ==> IsFree(now[k])
  {
    ExtendsEnded(table, more);
    hide IsSlot, ShortEntry, IsFree;
  }

  lemma SlotMissed(e: Entry, i: nat, st: Progress, q: Query, name: seq<nat>, ord: nat, sum: byte)
    requires QueryOk(q) && !q.noLong && IsName(name) && |name| == MAX_LFN && 1 <= ord <= SlotCount(|name|)
      && IsSlot(e, name, ord, sum)
    requires ord == SlotCount(|name|) || st.ord == 0xFF
    ensures e[0] != 0 && !Hit(e, st, q)
    ensures Pass(e, i, st, q).ord == 0xFF && Pass(e, i, st, q).blk == if ord == SlotCount(|name|) then i else st.blk
  {
    SlotShape(e, name, ord, sum);
    MatchSlot(q.buf, q.up, e, name, ord, sum);
    hide Matches, LfnOfs, Unit, ZeroFrom, Filled, Part;
  }

  // ---------------------------------------------------------------- a name removed

  /** `now` is `table` with entries `lo` to `hi` marked deleted. */
  ghost predicate Deleted(table: seq<Entry>, now: seq<Entry>, lo: nat, hi: nat) {
    && |now| == |table| && hi < |table|
    && (forall i :: 0 <= i < |table| && !(lo <= i <= hi) ==> now[i] == table[i])
    && (forall i :: lo <= i <= hi ==> now[i] == table[i][0 := 0xE5])
  }

  /** Deleting entries keeps the directory well formed, and the name of the short one among them is gone. */
  lemma DeletedWellFormed(table: seq<Entry>, now: seq<Entry>, lo: nat, hi: nat)
    requires WellFormed(table) && lo <= hi && Deleted(table, now, lo, hi)
    ensures WellFormed(now)
    ensures forall i :: 0 <= i < |now| ==> (IsShort(now[i]) <==> IsShort(table[i]) && !(lo <= i <= hi))
    ensures IsShort(table[hi]) ==> forall i :: 0 <= i < |now| && IsShort(now[i]) ==> now[i][..11] != table[hi][..11]
  {
    assert forall i :: lo <= i <= hi ==> now[i][0] == DDEM;
  }

  // ---------------------------------------------------------------- the code

  /** One round of the loop of `dir_find`, at an entry that is no end mark. */
  method Examine(e: Entry, i: nat, st: Progress, q: Query) returns (hit: bool, next: Progress)
    requires QueryOk(q) && e[0] != 0
    ensures hit == Hit(e, st, q) && (!hit ==> next == Pass(e, i, st, q)) && (hit ==> next == st)
  {
    Rounds(e, i, st, q);
    hide LongStep, ShortHit, Matches, Sum;
    var c, ord, sum, blk := e[0], st.ord, st.sum, st.blk;
    hit := false;
    if c == DDEM || IsVolume(e) {
      ord, blk := 0xFF, -1;
    } else if IsLong(e) {
      if !q.noLong {
        if Last(e) {
          sum := e[13];
          c := c - 0x40;
          ord := c;
          blk := i;
        }
        var same := CmpLfn(q.buf, q.up, e);
        ord := if c == ord && sum == e[13] && same then (if ord == 0 then 0xFF else ord - 1) else 0xFF;
      }
    } else {
      var s := SumSfn(e);
      hit := (ord == 0 && sum == s) || (!q.lossy && e[..11] == q.fn);
      if !hit {
        ord, blk := 0xFF, -1;
      }
    }
    next := Progress(ord, sum, blk);
  }

  /** The length of the name in the buffer. */
  method Length(buf: seq<nat>, ghost name: seq<nat>) returns (n: nat)
    requires Holds(buf, name) && IsName(name)
    ensures n == |name| && buf[..n] == name
  {
    forall i | 0 <= i < |name| ensures buf[i] == name[i] {
      assert buf[..|name|][i] == name[i];
    }
    n := 0;
    while buf[n] != 0
      invariant 0 <= n <= |name|
      decreases |name| - n
    {
      n := n + 1;
    }
  }

  /** A file of that short name is there. */
  ghost predicate Taken(table: seq<Entry>, q: Query)
    requires QueryOk(q)
  {
    Find(table, 0, NONE, q) != Nowhere
  }

  lemma ShortEntryIs(fn: seq<byte>, nt: byte)
    requires |fn| == 11
    ensures ShortEntry(fn, nt) == fn + [0, nt] + seq(19, _ => 0)
  {
  }

  lemma Rounds(e: Entry, i: nat, st: Progress, q: Query)
    requires QueryOk(q)
    ensures ShortHit(e, st, q) <==> (st.ord == 0 && st.sum == Sum(0, e[..11])) || (!q.lossy && e[..11] == q.fn)
    ensures var c: byte := if Last(e) then e[0] - 0x40 else e[0];
            var t := if Last(e) then Progress(c, e[13], i) else st;
            LongStep(e, i, st, q) == t.(ord := if c == t.ord && t.sum == e[13]
              && Matches(q.buf, q.up, e) then (if t.ord == 0 then 0xFF else t.ord - 1) else 0xFF)
  {
  }

  lemma RunNone(table: seq<Entry>, nent: nat)
    requires nent > 0
    ensures Run(table, 0, 0) && Begins(table, 0) && NoRun(table, nent, 0)
  {
  }

  lemma StillExtends(table: seq<Entry>)
    ensures Extends(table, table)
  {
  }

  lemma BlankNowhere(table: seq<Entry>, q: Query)
    requires QueryOk(q) && |table| > 0 && table[0] == Blank()
    ensures Find(table, 0, NONE, q) == Nowhere
  {
  }

  lemma BlankRun(table: seq<Entry>, more: seq<Entry>, n: nat)
    requires Extends(table, more) && 0 < n <= |table| && forall i :: 0 <= i < |table| ==> table[i] == Blank()
    ensures WellFormed(table) && !NoRun(more, n, |more|)
  {
    assert IsFree(Blank()) && !IsShort(Blank());
    assert Run(more, 0, n);
  }
}
