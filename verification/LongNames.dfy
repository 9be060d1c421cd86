/** Long-name slots of a FAT directory, as ff.c writes, reads and compares them: section "FAT Long Directory Entries"
    of the FAT32 File System Specification. A slot carries 13 units of the name. */
module LongNames {
  import opened Bytes
  import SlotBytes

  const MAX_LFN: nat := 255

  /** `LfnOfs`: where the units of a slot are. */
  function LfnOfs(s: nat): (o: nat)
    requires s < 13
    ensures 1 <= o <= 30
  {
    if s < 5 then 1 + 2 * s else if s < 11 then 14 + 2 * (s - 5) else 28 + 2 * (s - 11)
  }

  type Entry = e: seq<byte> | |e| == 32 witness seq(32, _ => 0)

  function Unit(e: Entry, s: nat): (u: nat)
    requires s < 13
    ensures u < 0x1_0000
  {
    LdWord(e, LfnOfs(s))
  }

  /** A name: 16-bit units, none of them the terminator or the filler. */
  predicate IsName(name: seq<nat>) { forall i :: 0 <= i < |name| ==> 0 < name[i] < 0xFFFF }

  /** The unit at place `i` of the slots of a name: after the name a terminator, then filler. */
  function Part(name: seq<nat>, i: nat): (u: nat) { if i < |name| then name[i] else if i == |name| then 0 else 0xFFFF }

  function SlotCount(n: nat): (m: nat)
    ensures 13 * m < n + 13 && n <= 13 * m
  {
    (n + 12) / 13
  }

  /** `e` is slot number `ord` of the name. */
  predicate IsSlot(e: Entry, name: seq<nat>, ord: nat, sum: byte) {
    && e[0] == ord + (if ord == SlotCount(|name|) then 0x40 else 0)
    && e[11] == 0x0F && e[12] == 0 && e[13] == sum && LdWord(e, 26) == 0
    && 1 <= ord && forall s: nat :: s < 13 ==> Unit(e, s) == Part(name, 13 * (ord - 1) + s)
  }

  /** A zero-terminated name in a buffer, as the file system object holds it; what comes after is left over. */
  predicate Holds(buf: seq<nat>, name: seq<nat>) {
    |buf| == MAX_LFN + 1 && |name| <= MAX_LFN && buf[..|name|] == name && buf[|name|] == 0
  }

  // ---------------------------------------------------------------- writing a slot

  /** The entry with the words from the `s`th unit on still to be written. */
  ghost predicate Written(e: Entry, name: seq<nat>, ord: nat, s: nat)
    requires s <= 13 && ord >= 1
  {
    forall k: nat :: k < s ==> Unit(e, k) == Part(name, 13 * (ord - 1) + k)
  }

  lemma WordAt(r: seq<byte>, i: nat, v: nat, j: nat)
    requires i + 2 <= |r| && v < 0x1_0000 && j + 2 <= |r| && (i == j || i + 2 <= j || j + 2 <= i)
    ensures LdWord(Patch(r, i, Word(v)), j) == if i == j then v else LdWord(r, j)
  {
    var t := Patch(r, i, Word(v));
    if i == j {
      assert t[i] == Word(v)[0] && t[i + 1] == Word(v)[1];
    }
  }

  lemma OfsApart(s: nat, k: nat)
    requires s < 13 && k < 13 && s != k
    ensures LfnOfs(s) + 2 <= LfnOfs(k) || LfnOfs(k) + 2 <= LfnOfs(s)
  {
  }

  lemma WriteUnit(e: Entry, name: seq<nat>, ord: nat, s: nat, v: nat)
    requires s < 13 && ord >= 1 && Written(e, name, ord, s) && v == Part(name, 13 * (ord - 1) + s) && v < 0x1_0000
    ensures Written(Patch(e, LfnOfs(s), Word(v)), name, ord, s + 1)
  {
    var t := Patch(e, LfnOfs(s), Word(v));
    forall k: nat | k < s + 1 ensures Unit(t, k) == Part(name, 13 * (ord - 1) + k) {
      if k == s {
        WordAt(e, LfnOfs(s), v, LfnOfs(s));
      } else {
        OfsApart(s, k);
        WordAt(e, LfnOfs(s), v, LfnOfs(k));
        assert Unit(e, k) == Part(name, 13 * (ord - 1) + k);
      }
    }
  }

  /** Writing a unit leaves the other fields of the entry as they were. */
  lemma UnitFrame(e: Entry, s: nat, v: nat)
    requires s < 13 && v < 0x1_0000
    ensures var t := Patch(e, LfnOfs(s), Word(v));
            t[0] == e[0] && t[11] == e[11] && t[12] == e[12] && t[13] == e[13] && t[26] == e[26] && t[27] == e[27]
  {
  }

  /** The part of the window that holds the entry. */
  function At(win: seq<byte>, at: nat): (e: Entry)
    requires at + 32 <= |win|
  {
    win[at..at + 32]
  }

  lemma PatchAt(win: seq<byte>, at: nat, i: nat, t: seq<byte>)
    requires at + 32 <= |win| && i + |t| <= 32
    ensures At(Patch(win, at + i, t), at) == Patch(At(win, at), i, t)
    ensures forall k :: 0 <= k < |win| && !(at <= k < at + 32) ==> Patch(win, at + i, t)[k] == win[k]
  {
    var r := Patch(win, at + i, t);
    forall k | 0 <= k < 32 ensures r[at + k] == Patch(At(win, at), i, t)[k] {
      if i <= k < i + |t| {
        assert r[at + k] == t[k - i];
      }
    }
  }

  /** The units of `put_lfn`; `full` if the name goes on after the slot or ends just there. */
  method PutUnits(lfn: seq<nat>, win: array<byte>, at: nat, ord: nat, ghost name: seq<nat>) returns (full: bool)
    requires at + 32 <= win.Length && Holds(lfn, name) && IsName(name) && 1 <= ord && 13 * (ord - 1) < |name|
    modifies win
    ensures Written(At(win[..], at), name, ord, 13)
    ensures full <==> 13 * ord <= |name|
    ensures forall k :: 0 <= k < win.Length && !(at <= k < at + 32) ==> win[k] == old(win[k])
    ensures var e, w := old(At(win[..], at)), At(win[..], at);
            w[0] == e[0] && w[11] == e[11] && w[12] == e[12] && w[13] == e[13] && w[26] == e[26] && w[27] == e[27]
  {
    var i, wc := 13 * (ord - 1), 0;
    ghost var was := win[..];
    hide LfnOfs, Patch, Part, Written;
    NoneWritten(At(win[..], at), name, ord);
    for s := 0 to 13
      invariant Written(At(win[..], at), name, ord, s)
      invariant if 13 * (ord - 1) + s <= |name| then wc != 0xFFFF && i == 13 * (ord - 1) + s else wc == 0xFFFF
      invariant forall k :: 0 <= k < win.Length && !(at <= k < at + 32) ==> win[k] == was[k]
      invariant var e, w := At(was, at), At(win[..], at);
            w[0] == e[0] && w[11] == e[11] && w[12] == e[12] && w[13] == e[13] && w[26] == e[26] && w[27] == e[27]
    {
      if wc != 0xFFFF {
        wc := lfn[i];
        i := i + 1;
      }
      PartIs(lfn, name, 13 * (ord - 1) + s);
      WriteUnit(At(win[..], at), name, ord, s, wc);
      UnitFrame(At(win[..], at), s, wc);
      PatchAt(win[..], at, LfnOfs(s), Word(wc));
      StWord(win, at + LfnOfs(s), wc);
      if wc == 0 {
        wc := 0xFFFF;
      }
    }
    full := wc != 0xFFFF;
  }

  lemma NoneWritten(e: Entry, name: seq<nat>, ord: nat)
    requires ord >= 1
    ensures Written(e, name, ord, 0)
  {
  }

  lemma PartIs(lfn: seq<nat>, name: seq<nat>, i: nat)
    requires Holds(lfn, name) && IsName(name)
    ensures Part(name, i) <= 0xFFFF && (Part(name, i) == 0 <==> i == |name|)
      && (Part(name, i) == 0xFFFF <==> i > |name|)
    ensures i <= |name| ==> Part(name, i) == lfn[i]
  {
    assert i < |name| ==> lfn[..|name|][i] == name[i];
  }

  /** `put_lfn`. */
  method PutLfn(lfn: seq<nat>, win: array<byte>, at: nat, ord: nat, sum: byte, ghost name: seq<nat>)
    requires at + 32 <= win.Length && Holds(lfn, name) && IsName(name) && 1 <= ord <= SlotCount(|name|)
    modifies win
    ensures IsSlot(At(win[..], at), name, ord, sum)
    ensures forall k :: 0 <= k < win.Length && !(at <= k < at + 32) ==> win[k] == old(win[k])
    ensures SlotBytes.HoldsPart(win[..], at, name, ord, sum)
  {
    hide LfnOfs, Part;
    win[at + 13] := sum;
    win[at + 11] := 0x0F;
    win[at + 12] := 0;
    win[at + 26], win[at + 27] := 0, 0;
    var full := PutUnits(lfn, win, at, ord, name);
    ghost var units := At(win[..], at);
    var last := !full || lfn[13 * ord] == 0;
    win[at] := if last then ord + 0x40 else ord;
    var e := At(win[..], at);
    FirstByte(units, e);
    NameEnd(lfn, name, ord);
    SlotInBytes(win[..], at, name, ord, sum);
  }

  /** The units of a slot, by their places. */
  lemma TextIs(s: seq<byte>, at: nat)
    requires at + 32 <= |s|
    ensures forall k: nat :: k < 13 ==> SlotBytes.Text(s, at)[k] == Unit(At(s, at), k)
  {
    forall k: nat | k < 13 ensures SlotBytes.Text(s, at)[k] == Unit(At(s, at), k) {
      assert SlotBytes.PLACES[k] == LfnOfs(k);
    }
  }

  lemma SlotInBytes(s: seq<byte>, at: nat, name: seq<nat>, ord: nat, sum: byte)
    requires at + 32 <= |s| && IsSlot(At(s, at), name, ord, sum) && ord <= SlotCount(|name|)
    ensures SlotBytes.HoldsPart(s, at, name, ord, sum)
  {
    TextIs(s, at);
    hide SlotBytes.Text, LfnOfs;
    var e := At(s, at);
    forall k: nat | k < 13 ensures SlotBytes.Text(s, at)[k] == Part(name, 13 * (ord - 1) + k) {
      assert Unit(e, k) == Part(name, 13 * (ord - 1) + k);
    }
  }

  lemma FirstByte(e: Entry, t: Entry)
    requires forall k :: 1 <= k < 32 ==> t[k] == e[k]
    ensures forall s: nat :: s < 13 ==> Unit(t, s) == Unit(e, s)
  {
  }

  lemma NameEnd(lfn: seq<nat>, name: seq<nat>, ord: nat)
    requires Holds(lfn, name) && IsName(name) && 1 <= ord <= SlotCount(|name|)
    ensures 13 * ord <= |name| ==> (lfn[13 * ord] == 0 <==> ord == SlotCount(|name|))
    ensures 13 * ord > |name| ==> ord == SlotCount(|name|)
    ensures ord <= 20
  {
    if 13 * ord < |name| {
      assert lfn[..|name|][13 * ord] == name[13 * ord];
    }
  }

  // ---------------------------------------------------------------- reading a slot

  predicate Last(e: Entry) { e[0] / 64 % 2 == 1 }

  /** The first zero unit from the `s`th on; 13 if there is none. */
  function ZeroFrom(e: Entry, s: nat): (z: nat)
    requires s <= 13
    ensures s <= z <= 13 && (z < 13 ==> Unit(e, z) == 0) && forall k :: s <= k < z ==> Unit(e, k) != 0
    decreases 13 - s
  {
    if s == 13 || Unit(e, s) == 0 then s else ZeroFrom(e, s + 1)
  }

  /** All that follows the terminator is filler. */
  predicate Filled(e: Entry) { forall k: nat :: ZeroFrom(e, 0) < k < 13 ==> Unit(e, k) == 0xFFFF }

  /** The number of units up to the terminator. */
  function Count(e: Entry): (c: nat)
    ensures c <= 13
  {
    if ZeroFrom(e, 0) < 13 then ZeroFrom(e, 0) + 1 else 13
  }

  /** The place in the name of the units of slot number `o`; far away, by 32-bit arithmetic, for 0. */
  function Offset(o: nat): (i: nat) { if o == 0 then 0xFFFF_FFF3 else (o - 1) * 13 }

  function PickOrd(e: Entry): (o: nat) { if Last(e) then e[0] - 64 else e[0] }

  predicate Pickable(e: Entry) {
    && LdWord(e, 26) == 0 && Filled(e) && Offset(PickOrd(e)) + Count(e) <= MAX_LFN
    && (Last(e) ==> Offset(PickOrd(e)) + Count(e) < MAX_LFN)
  }

  function Picked(buf: seq<nat>, e: Entry): (r: seq<nat>)
    requires |buf| == MAX_LFN + 1 && Pickable(e)
    ensures |r| == |buf|
  {
    var o, c := Offset(PickOrd(e)), Count(e);
    seq(|buf|, k requires 0 <= k < |buf| => if o <= k < o + c then Unit(e, k - o)
      else if Last(e) && k == o + c then 0 else buf[k])
  }

  /** After `s` units: `n` of them up to the terminator, which is yet to come if `live`, and filler since. */
  ghost predicate Read(e: Entry, s: nat, n: nat, live: bool)
    requires s <= 13
  {
    && (live <==> s <= ZeroFrom(e, 0)) && n == (if live then s else ZeroFrom(e, 0) + 1)
    && forall k: nat :: ZeroFrom(e, 0) < k < s ==> Unit(e, k) == 0xFFFF
  }

  lemma ReadStart(e: Entry)
    ensures Read(e, 0, 0, true)
  {
  }

  lemma ReadStep(e: Entry, s: nat, n: nat, live: bool)
    requires s < 13 && Read(e, s, n, live)
    ensures s == 0 ==> live
    ensures live ==> n == s < Count(e) && Read(e, s + 1, n + 1, Unit(e, s) != 0)
    ensures !live ==> if Unit(e, s) == 0xFFFF then Read(e, s + 1, n, false) else !Filled(e)
  {
    hide LfnOfs, Unit;
  }

  lemma ReadDone(e: Entry, n: nat, live: bool)
    requires Read(e, 13, n, live)
    ensures n == Count(e) && Filled(e) && (live <==> ZeroFrom(e, 0) == 13) && (live ==> n == 13)
  {
    hide LfnOfs, Unit;
  }

  ghost predicate Copied(buf: seq<nat>, was: seq<nat>, e: Entry, o: nat, n: nat)
    requires |buf| == |was| == MAX_LFN + 1 && n <= 13
  {
    forall k :: 0 <= k <= MAX_LFN ==> buf[k] == if o <= k < o + n then Unit(e, k - o) else was[k]
  }

  lemma CopyStep(buf: seq<nat>, was: seq<nat>, e: Entry, o: nat, n: nat)
    requires |buf| == |was| == MAX_LFN + 1 && n < 13 && Copied(buf, was, e, o, n) && o + n <= MAX_LFN
    ensures Copied(buf[o + n := Unit(e, n)], was, e, o, n + 1)
  {
    hide Unit;
  }

  /** `pick_lfn`. */
  method PickLfn(buf: array<nat>, e: Entry) returns (ok: bool)
    requires buf.Length == MAX_LFN + 1
    modifies buf
    ensures ok == Pickable(e)
    ensures ok ==> buf[..] == Picked(old(buf[..]), e)
    ensures ok <==> exists n: nat :: SlotBytes.Taken(e, n)
    ensures ok ==> forall n: nat :: SlotBytes.Taken(e, n) ==> SlotBytes.Copy(buf[..], old(buf[..]), e, n)
  {
    hide *;
    ok := PickLoop(buf, e);
    PickedBytes(old(buf[..]), e);
  }

  /** The body of `pick_lfn`. */
  method PickLoop(buf: array<nat>, e: Entry) returns (ok: bool)
    requires buf.Length == MAX_LFN + 1
    modifies buf
    ensures ok == Pickable(e)
    ensures ok ==> buf[..] == Picked(old(buf[..]), e)
  {
    hide LfnOfs, Unit, Read, Copied, ZeroFrom, Filled, Count, Picked, Offset;
    ghost var was := buf[..];
    if LdWord(e, 26) != 0 {
      return false;
    }
    var o := Offset(if Last(e) then e[0] - 64 else e[0]);
    var i, wc := o, 1;
    ReadStart(e);
    assert Copied(buf[..], was, e, o, 0) by { CopyNone(was, e, o); }
    for s := 0 to 13
      invariant o <= i && i - o <= s && Read(e, s, i - o, wc != 0) && Copied(buf[..], was, e, o, i - o)
        && (s > 0 ==> i <= MAX_LFN)
    {
      var uc := Unit(e, s);
      ReadStep(e, s, i - o, wc != 0);
      if wc != 0 {
        if i >= MAX_LFN {
          return false;
        }
        CopyStep(buf[..], was, e, o, i - o);
        buf[i] := uc;
        wc := uc;
        i := i + 1;
      } else if uc != 0xFFFF {
        return false;
      }
    }
    ReadDone(e, i - o, wc != 0);
    if Last(e) {
      if i >= MAX_LFN {
        return false;
      }
      ghost var mid := buf[..];
      buf[i] := 0;
      assert buf[..] == mid[i := 0];
      PickedIs(mid, was, e);
    } else {
      PickedIs(buf[..], was, e);
    }
    ok := true;
  }

  /** Where the text of a slot ends. */
  lemma EndsIs(e: Entry, n: nat)
    ensures SlotBytes.Ends(SlotBytes.Text(e, 0), n) <==> Filled(e) && n == Count(e)
  {
    TextIs(e, 0);
    assert At(e, 0) == e;
    hide SlotBytes.Text, LfnOfs, Unit;
    var t := SlotBytes.Text(e, 0);
    assert forall k: nat :: k < 13 ==> t[k] == Unit(e, k);
    if SlotBytes.Ends(t, n) {
      FirstZero(e, 0, if n < 13 || t[12] == 0 then n - 1 else 13);
      forall k: nat | ZeroFrom(e, 0) < k < 13 ensures Unit(e, k) == 0xFFFF {
        assert t[k] == 0xFFFF;
      }
    }
    if Filled(e) && n == Count(e) {
      forall k | n <= k < 13 ensures t[k] == 0xFFFF {
        assert ZeroFrom(e, 0) < k && t[k] == Unit(e, k);
      }
    }
  }

  /** What is picked, and when, byte by byte. */
  lemma PickedBytes(was: seq<nat>, e: Entry)
    requires |was| == MAX_LFN + 1
    ensures Pickable(e) <==> exists n: nat :: SlotBytes.Taken(e, n)
    ensures Pickable(e) ==> forall n: nat :: SlotBytes.Taken(e, n) ==> SlotBytes.Copy(Picked(was, e), was, e, n)
  {
    hide *;
    TakenIs(e, Count(e));
    forall n: nat | SlotBytes.Taken(e, n) ensures Pickable(e) && SlotBytes.Copy(Picked(was, e), was, e, n) {
      TakenIs(e, n);
      PickedCopy(was, e);
    }
  }

  lemma TakenIs(e: Entry, n: nat)
    ensures SlotBytes.Taken(e, n) <==> Pickable(e) && n == Count(e)
  {
    hide SlotBytes.Text, SlotBytes.Ends, SlotBytes.Plain, LfnOfs, Unit, Filled, ZeroFrom, LdWord, Count;
    EndsIs(e, n);
    PlainIs(e);
  }

  lemma PickedCopy(was: seq<nat>, e: Entry)
    requires |was| == MAX_LFN + 1 && Pickable(e)
    ensures SlotBytes.Copy(Picked(was, e), was, e, Count(e))
  {
    hide SlotBytes.Text, LfnOfs, Unit, Filled, ZeroFrom, LdWord, Count;
    TextOf(e);
    CountSome(e);
    assert Offset(PickOrd(e)) == 13 * ((if e[0] / 0x40 % 2 == 1 then e[0] as int - 0x40 else e[0] as int) - 1);
    hide Offset;
  }

  lemma CountSome(e: Entry)
    ensures Count(e) > 0
  {
    hide Unit;
  }

  lemma MatchesBytes(buf: seq<nat>, up: nat -> nat, e: Entry)
    requires |buf| == MAX_LFN + 1
    ensures Matches(buf, up, e) <==> exists n: nat :: SlotBytes.Equal(buf, up, e, n)
  {
    hide SlotBytes.Equal, Matches;
    if Matches(buf, up, e) {
      MatchesEqual(buf, up, e);
    }
    forall n: nat | SlotBytes.Equal(buf, up, e, n) ensures Matches(buf, up, e) {
      EqualMatches(buf, up, e, n);
    }
  }

  lemma TextOf(e: Entry)
    ensures forall k: nat :: k < 13 ==> SlotBytes.Text(e, 0)[k] == Unit(e, k)
  {
    TextIs(e, 0);
    assert At(e, 0) == e;
  }

  lemma PlainIs(e: Entry)
    ensures SlotBytes.Plain(e) <==> LdWord(e, 26) == 0
  {
  }

  lemma MatchesEqual(buf: seq<nat>, up: nat -> nat, e: Entry)
    requires |buf| == MAX_LFN + 1 && Matches(buf, up, e)
    ensures SlotBytes.Equal(buf, up, e, Count(e))
  {
    hide SlotBytes.Text, SlotBytes.Ends, SlotBytes.Plain, LfnOfs, Unit, Filled, ZeroFrom, LdWord;
    EndsIs(e, Count(e));
    TextOf(e);
    PlainIs(e);
    var u := Unit(e, 0);
    var t, n, o := SlotBytes.Text(e, 0), Count(e), Offset(e[0] % 64);
    assert o == 13 * (e[0] as int % 0x40 - 1);
    forall k: nat | k < n ensures o + k < MAX_LFN && up(Unit(e, k)) == up(buf[o + k]) {
      var u := Unit(e, k);
    }
    hide Matches;
    assert n == 13 && t[12] != 0 ==> ZeroFrom(e, 0) == 13;
  }

  lemma EqualMatches(buf: seq<nat>, up: nat -> nat, e: Entry, n: nat)
    requires |buf| == MAX_LFN + 1 && SlotBytes.Equal(buf, up, e, n)
    ensures Matches(buf, up, e)
  {
    hide SlotBytes.Text, SlotBytes.Ends, SlotBytes.Plain, LfnOfs, Unit, Filled, ZeroFrom, LdWord, Matches, Count, Same;
    EndsIs(e, n);
    TextOf(e);
    PlainIs(e);
    var t, o := SlotBytes.Text(e, 0), Offset(e[0] % 64);
    assert o == 13 * (e[0] as int % 0x40 - 1);
    EqualSame(buf, up, e, t, o, n);
    LastUnit(e);
    SameAll(buf, up, e, o);
  }

  lemma LastUnit(e: Entry)
    ensures ZeroFrom(e, 0) == 13 ==> Count(e) == 13 && Unit(e, 12) != 0
  {
    hide LfnOfs, Unit;
  }

  lemma EqualSame(buf: seq<nat>, up: nat -> nat, e: Entry, t: seq<int>, o: nat, n: nat)
    requires |buf| == MAX_LFN + 1 && |t| == 13 && n <= 13 && o + n <= MAX_LFN && forall k: nat :: k < 13 ==>
      t[k] == Unit(e, k)
    requires forall k :: 0 <= k < n ==> t[k] >= 0 && up(t[k]) == up(buf[o + k])
    ensures Same(buf, up, e, o, n)
  {
    hide Unit;
    forall k: nat | k < n ensures up(Unit(e, k)) == up(buf[o + k]) {
      assert up(t[k]) == up(buf[o + k]);
    }
  }

  lemma CopyNone(was: seq<nat>, e: Entry, o: nat)
    requires |was| == MAX_LFN + 1
    ensures Copied(was, was, e, o, 0)
  {
  }

  lemma PickedIs(buf: seq<nat>, was: seq<nat>, e: Entry)
    requires |buf| == |was| == MAX_LFN + 1 && Pickable(e) && Copied(buf, was, e, Offset(PickOrd(e)), Count(e))
    ensures Picked(was, e) == if Last(e) then buf[Offset(PickOrd(e)) + Count(e) := 0] else buf
  {
    hide Unit, ZeroFrom, Filled, Offset;
  }

  // ---------------------------------------------------------------- comparing a slot

  /** The units of the slot are those of the buffer, but for case, and a name that ends with a full slot ends there. */
  predicate Matches(buf: seq<nat>, up: nat -> nat, e: Entry)
    requires |buf| == MAX_LFN + 1
  {
    var o, z := Offset(e[0] % 64), ZeroFrom(e, 0);
    && LdWord(e, 26) == 0 && Filled(e)
    && (forall k: nat :: k < Count(e) ==> o + k < MAX_LFN && up(Unit(e, k)) == up(buf[o + k]))
    && (Last(e) && z == 13 ==> buf[o + 13] == 0)
  }

  ghost predicate Same(buf: seq<nat>, up: nat -> nat, e: Entry, o: nat, n: nat)
    requires |buf| == MAX_LFN + 1 && n <= 13
  {
    forall k: nat :: k < n ==> o + k < MAX_LFN && up(Unit(e, k)) == up(buf[o + k])
  }

  lemma SameStep(buf: seq<nat>, up: nat -> nat, e: Entry, o: nat, n: nat)
    requires |buf| == MAX_LFN + 1 && n < 13 && Same(buf, up, e, o, n)
    ensures Same(buf, up, e, o, n + 1) <==> o + n < MAX_LFN && up(Unit(e, n)) == up(buf[o + n])
  {
    hide Unit;
    var m := n + 1;
    if o + n < MAX_LFN && up(Unit(e, n)) == up(buf[o + n]) {
      forall k: nat | k < m ensures o + k < MAX_LFN && up(Unit(e, k)) == up(buf[o + k]) {
        if k < n {
          assert up(Unit(e, k)) == up(buf[o + k]);
        }
      }
    }
    if Same(buf, up, e, o, m) {
      var u := Unit(e, n);
      assert n < m && o + n < MAX_LFN && up(Unit(e, n)) == up(buf[o + n]);
    }
  }

  lemma SameLess(buf: seq<nat>, up: nat -> nat, e: Entry, o: nat, n: nat)
    requires |buf| == MAX_LFN + 1 && n <= Count(e) && Matches(buf, up, e) && o == Offset(e[0] % 64)
    ensures Same(buf, up, e, o, n)
  {
    hide Unit, ZeroFrom, Filled, Offset;
  }

  lemma SameAll(buf: seq<nat>, up: nat -> nat, e: Entry, o: nat)
    requires |buf| == MAX_LFN + 1 && o == Offset(e[0] % 64) && LdWord(e, 26) == 0 && Filled(e)
      && Same(buf, up, e, o, Count(e))
    ensures Matches(buf, up, e) <==> !(Last(e) && ZeroFrom(e, 0) == 13 && (o + 13 > MAX_LFN || buf[o + 13] != 0))
  {
    hide Unit, Filled, Offset;
    if ZeroFrom(e, 0) == 13 {
      assert o + 12 < MAX_LFN;
    }
  }

  /** `cmp_lfn`. */
  method CmpLfn(buf: seq<nat>, up: nat -> nat, e: Entry) returns (ok: bool)
    requires |buf| == MAX_LFN + 1
    ensures ok == Matches(buf, up, e)
    ensures ok <==> exists n: nat :: SlotBytes.Equal(buf, up, e, n)
  {
    hide *;
    ok := CmpLoop(buf, up, e);
    MatchesBytes(buf, up, e);
  }

  /** The body of `cmp_lfn`. */
  method CmpLoop(buf: seq<nat>, up: nat -> nat, e: Entry) returns (ok: bool)
    requires |buf| == MAX_LFN + 1
    ensures ok == Matches(buf, up, e)
  {
    hide LfnOfs, Unit, Read, Same, ZeroFrom, Filled, Count, Matches, Offset;
    Mismatches(buf, up, e);
    if LdWord(e, 26) != 0 {
      return false;
    }
    var o := Offset(e[0] % 64);
    var i, wc := o, 1;
    ReadStart(e);
    assert Same(buf, up, e, o, 0) by { SameNone(buf, up, e, o); }
    for s := 0 to 13
      invariant o <= i && i - o <= s && Read(e, s, i - o, wc != 0) && Same(buf, up, e, o, i - o)
        && (s > 0 ==> i <= MAX_LFN)
    {
      var uc := Unit(e, s);
      ReadStep(e, s, i - o, wc != 0);
      if wc != 0 {
        SameStep(buf, up, e, o, i - o);
        if i >= MAX_LFN || up(uc) != up(buf[i]) {
          if Matches(buf, up, e) {
            SameLess(buf, up, e, o, i - o + 1);
          }
          return false;
        }
        i := i + 1;
        wc := uc;
      } else if uc != 0xFFFF {
        return false;
      }
    }
    ReadDone(e, i - o, wc != 0);
    SameAll(buf, up, e, o);
    ok := !(Last(e) && wc != 0 && buf[i] != 0);
  }

  lemma SameNone(buf: seq<nat>, up: nat -> nat, e: Entry, o: nat)
    requires |buf| == MAX_LFN + 1
    ensures Same(buf, up, e, o, 0)
  {
  }

  lemma Mismatches(buf: seq<nat>, up: nat -> nat, e: Entry)
    requires |buf| == MAX_LFN + 1
    ensures Matches(buf, up, e) ==> LdWord(e, 26) == 0 && Filled(e)
  {
  }

  // ---------------------------------------------------------------- what was written is read and recognised

  /** The terminator of a slot of the name, and its order byte. */
  lemma SlotShape(e: Entry, name: seq<nat>, ord: nat, sum: byte)
    requires IsName(name) && |name| <= MAX_LFN && 1 <= ord <= SlotCount(|name|) && IsSlot(e, name, ord, sum)
    ensures ZeroFrom(e, 0) == if 13 * ord <= |name| then 13 else |name| - 13 * (ord - 1)
    ensures Filled(e) && (Last(e) <==> ord == SlotCount(|name|)) && PickOrd(e) == ord == e[0] % 64
    ensures ord < SlotCount(|name|) ==> 13 * ord < |name|
  {
    var z := if 13 * ord <= |name| then 13 else |name| - 13 * (ord - 1);
    hide LfnOfs, Unit;
    forall k: nat | k < z ensures Unit(e, k) != 0 {
      assert Unit(e, k) == name[13 * (ord - 1) + k];
    }
    assert z < 13 ==> Unit(e, z) == 0;
    FirstZero(e, 0, z);
  }

  lemma {:induction false} FirstZero(e: Entry, s: nat, z: nat)
    requires s <= z <= 13 && (z < 13 ==> Unit(e, z) == 0) && forall k: nat :: s <= k < z ==> Unit(e, k) != 0
    ensures ZeroFrom(e, s) == z
    decreases 13 - s
  {
    if s < z {
      FirstZero(e, s + 1, z);
    }
  }

  /** The slots of a name in the order of the directory, the last part of the name first. */
  predicate AreSlots(slots: seq<Entry>, name: seq<nat>, sum: byte) {
    && |slots| <= SlotCount(|name|)
    && forall j :: 0 <= j < |slots| ==> IsSlot(slots[j], name, |slots| - j, sum)
  }

  datatype Option<T> = None | Some(value: T)

  /** `pick_lfn` on one slot after another; nothing if one of them fails. */
  function PickAll(buf: seq<nat>, slots: seq<Entry>): (r: Option<seq<nat>>)
    requires |buf| == MAX_LFN + 1
    decreases |slots|
  {
    if slots == [] then Some(buf)
    else if Pickable(slots[0]) then PickAll(Picked(buf, slots[0]), slots[1..]) else None
  }

  /** The buffer holds the name from place `i` on. */
  ghost predicate Tail(buf: seq<nat>, name: seq<nat>, i: nat) {
    && |buf| == MAX_LFN + 1 && |name| <= MAX_LFN
    && (forall k :: i <= k < |name| ==> buf[k] == name[k]) && buf[|name|] == 0
  }

  /** `e` carries the units of the name from place `o` on. */
  ghost predicate Carries(e: Entry, name: seq<nat>, o: nat) {
    && LdWord(e, 26) == 0 && Filled(e) && Offset(e[0] % 64) == Offset(PickOrd(e)) == o < |name| <= MAX_LFN
      && o % 13 == 0
    && Count(e) == (if o + 13 <= |name| then 13 else |name| + 1 - o) && (ZeroFrom(e, 0) == 13 <==> o + 13 <= |name|)
    && (if Last(e) then |name| <= o + 13 else o + 13 < |name|)
    && forall k: nat :: k < Count(e) ==> Unit(e, k) == if o + k < |name| then name[o + k] else 0
  }

  lemma PickSlot(buf: seq<nat>, e: Entry, name: seq<nat>, ord: nat, sum: byte)
    requires IsName(name) && |name| <= MAX_LFN && 1 <= ord <= SlotCount(|name|) && IsSlot(e, name, ord, sum)
      && |buf| == MAX_LFN + 1
    ensures Pickable(e) <==> ord < SlotCount(|name|) || |name| <= MAX_LFN - 2
    ensures Pickable(e) && (ord == SlotCount(|name|) || Tail(buf, name, 13 * ord)) ==>
      Tail(Picked(buf, e), name, 13 * (ord - 1))
  {
    hide LfnOfs, Unit, ZeroFrom, Filled, IsSlot, Part, Offset, Count, SlotCount, LdWord, Last, Pickable, Picked,
      Tail, PickOrd;
    SlotFacts(e, name, ord, sum);
    PickThen(buf, e, name, 13 * (ord - 1));
  }

  lemma PickThen(buf: seq<nat>, e: Entry, name: seq<nat>, o: nat)
    requires Carries(e, name, o) && |buf| == MAX_LFN + 1
    ensures Pickable(e) <==> !Last(e) || |name| <= MAX_LFN - 2
    ensures Pickable(e) && (Last(e) || Tail(buf, name, o + 13)) ==> Tail(Picked(buf, e), name, o)
  {
    hide LfnOfs, Unit, ZeroFrom, Filled, Offset, Count, LdWord, Last;
    assert |name| == o + 13 ==> |name| % 13 == 0;
    if Pickable(e) && (Last(e) || Tail(buf, name, o + 13)) {
      var r, n := Picked(buf, e), |name|;
      forall k | o <= k < n ensures r[k] == name[k] {
        if k < o + 13 {
          assert Unit(e, k - o) == name[o + (k - o)];
        }
      }
      if n < o + 13 {
        assert Unit(e, n - o) == 0;
      }
    }
  }

  /** What a slot of the name says, unit by unit. */
  lemma SlotFacts(e: Entry, name: seq<nat>, ord: nat, sum: byte)
    requires IsName(name) && |name| <= MAX_LFN && 1 <= ord <= SlotCount(|name|) && IsSlot(e, name, ord, sum)
    ensures LdWord(e, 26) == 0 && Filled(e) && (Last(e) <==> ord == SlotCount(|name|))
    ensures Offset(PickOrd(e)) == Offset(e[0] % 64) == 13 * (ord - 1) && 13 * (ord - 1) < |name|
    ensures ord < SlotCount(|name|) ==> 13 * ord < |name|
    ensures ord == SlotCount(|name|) ==> |name| <= 13 * ord
    ensures Count(e) == if 13 * ord <= |name| then 13 else |name| + 1 - 13 * (ord - 1)
    ensures ZeroFrom(e, 0) == 13 <==> 13 * ord <= |name|
    ensures forall k: nat :: k < Count(e) ==>
      Unit(e, k) == if 13 * (ord - 1) + k < |name| then name[13 * (ord - 1) + k] else 0
  {
    SlotShape(e, name, ord, sum);
    hide LfnOfs, Unit, ZeroFrom, Filled;
    forall k: nat | k < Count(e) ensures Unit(e, k) == if 13 * (ord - 1) + k < |name| then name[13 * (ord - 1) + k]
      else 0 {
      assert Unit(e, k) == Part(name, 13 * (ord - 1) + k);
    }
  }

  lemma {:induction false} PickRest(buf: seq<nat>, slots: seq<Entry>, name: seq<nat>, sum: byte)
    requires IsName(name) && |name| <= MAX_LFN - 2 && AreSlots(slots, name, sum) && |buf| == MAX_LFN + 1
    requires |slots| == SlotCount(|name|) || Tail(buf, name, 13 * |slots|)
    requires |slots| == SlotCount(|name|) ==> |name| > 0
    ensures PickAll(buf, slots).Some? && Tail(PickAll(buf, slots).value, name, 0)
    decreases |slots|
  {
    if slots != [] {
      PickSlot(buf, slots[0], name, |slots|, sum);
      forall j | 0 <= j < |slots| - 1 ensures slots[1..][j] == slots[j + 1] {
      }
      hide IsSlot, Pickable, Picked, Tail;
      PickRest(Picked(buf, slots[0]), slots[1..], name, sum);
    }
  }

  /** Reading back all slots of a name gives the name, just if it has at most 253 units: `pick_lfn` needs room for the
      terminator below the last place of the buffer. */
  lemma PickBack(buf: seq<nat>, slots: seq<Entry>, name: seq<nat>, sum: byte)
    requires IsName(name) && 0 < |name| <= MAX_LFN && AreSlots(slots, name, sum) && |slots| == SlotCount(|name|)
      && |buf| == MAX_LFN + 1
    ensures PickAll(buf, slots).Some? <==> |name| <= MAX_LFN - 2
    ensures |name| <= MAX_LFN - 2 ==> Holds(PickAll(buf, slots).value, name)
  {
    PickSlot(buf, slots[0], name, |slots|, sum);
    if |name| <= MAX_LFN - 2 {
      PickRest(buf, slots, name, sum);
      var r := PickAll(buf, slots).value;
      assert r[..|name|] == name;
    }
  }

  // ---------------------------------------------------------------- comparing names

  /** Folding case maps the terminator, and only it, to 0. */
  ghost predicate Folds(up: nat -> nat) { forall x: nat :: up(x) == 0 <==> x == 0 }

  predicate NonZero(name: seq<nat>) { forall i :: 0 <= i < |name| ==> name[i] != 0 }

  ghost predicate SameName(a: seq<nat>, b: seq<nat>, up: nat -> nat) { |a| == |b| && forall i :: 0 <= i < |a| ==>
    up(a[i]) == up(b[i]) }

  lemma MatchSlot(buf: seq<nat>, up: nat -> nat, e: Entry, name: seq<nat>, ord: nat, sum: byte)
    requires IsName(name) && |name| <= MAX_LFN && 1 <= ord <= SlotCount(|name|) && IsSlot(e, name, ord, sum)
      && |buf| == MAX_LFN + 1
    ensures Matches(buf, up, e) <==>
              && (|name| < MAX_LFN || ord < SlotCount(|name|))
              && (forall i :: 13 * (ord - 1) <= i < 13 * ord && i < |name| ==> up(name[i]) == up(buf[i]))
              && (ord == SlotCount(|name|) && |name| < 13 * ord ==> up(0) == up(buf[|name|]))
              && (ord == SlotCount(|name|) && |name| == 13 * ord ==> buf[|name|] == 0)
  {
    hide Matches, LfnOfs, Unit, ZeroFrom, Filled, IsSlot, Part, Offset, Count, SlotCount, LdWord, Last;
    var o := 13 * (ord - 1);
    SlotFacts(e, name, ord, sum);
    MatchThen(buf, up, e, name, o);
    if (|name| < MAX_LFN || !Last(e)) && (forall i :: o <= i < o + 13 && i < |name| ==> up(name[i]) == up(buf[i]))
      && (Last(e) ==> if |name| < o + 13 then up(0) == up(buf[|name|]) else buf[|name|] == 0)
    {
      MatchIf(buf, up, e, name, o);
    }
  }

  lemma MatchThen(buf: seq<nat>, up: nat -> nat, e: Entry, name: seq<nat>, o: nat)
    requires Carries(e, name, o) && |buf| == MAX_LFN + 1
    ensures Matches(buf, up, e) ==> |name| < MAX_LFN || !Last(e)
    ensures Matches(buf, up, e) ==> forall i :: o <= i < o + 13 && i < |name| ==> up(name[i]) == up(buf[i])
    ensures Matches(buf, up, e) && Last(e) ==> if |name| < o + 13 then up(0) == up(buf[|name|]) else buf[|name|] == 0
  {
    hide LfnOfs, Unit, ZeroFrom, Filled, Offset, Count, LdWord, Last;
    if Matches(buf, up, e) {
      forall i | o <= i < o + Count(e) ensures i < MAX_LFN && up(if i < |name| then name[i] else 0) == up(buf[i]) {
        var u := Unit(e, i - o);
        assert o + (i - o) < MAX_LFN && up(u) == up(buf[o + (i - o)]);
      }
      if |name| < o + 13 {
        var u := Unit(e, |name| - o);
        assert o + (|name| - o) < MAX_LFN;
      }
      assert |name| == o + 13 ==> |name| % 13 == 0;
    }
  }

  lemma MatchIf(buf: seq<nat>, up: nat -> nat, e: Entry, name: seq<nat>, o: nat)
    requires Carries(e, name, o) && |buf| == MAX_LFN + 1 && (|name| < MAX_LFN || !Last(e))
    requires forall i :: o <= i < o + 13 && i < |name| ==> up(name[i]) == up(buf[i])
    requires Last(e) ==> if |name| < o + 13 then up(0) == up(buf[|name|]) else buf[|name|] == 0
    ensures Matches(buf, up, e)
  {
    hide LfnOfs, Unit, ZeroFrom, Filled, Offset, Count, LdWord, Last;
    forall k: nat | k < Count(e) ensures o + k < MAX_LFN && up(Unit(e, k)) == up(buf[o + k]) {
      if o + k < |name| {
        assert up(name[o + k]) == up(buf[o + k]);
      }
    }
  }

  /** `cmp_lfn` accepts every slot of a name of at most 254 units just if the name looked for is the same but for case;
      with 255 units it never accepts the last part. */
  lemma MatchAll(buf: seq<nat>, q: seq<nat>, up: nat -> nat, slots: seq<Entry>, name: seq<nat>, sum: byte)
    requires IsName(name) && 0 < |name| <= MAX_LFN && AreSlots(slots, name, sum) && |slots| == SlotCount(|name|)
    requires Folds(up) && Holds(buf, q) && NonZero(q)
    ensures |name| < MAX_LFN ==>
      ((forall j :: 0 <= j < |slots| ==> Matches(buf, up, slots[j])) <==> SameName(q, name, up))
    ensures |name| == MAX_LFN ==> !Matches(buf, up, slots[0])
  {
    var n, m := |name|, SlotCount(|name|);
    forall j | 0 <= j < m
      ensures Matches(buf, up, slots[j]) <==>
                && (n < MAX_LFN || m - j < m)
                && (forall i :: 13 * (m - j - 1) <= i < 13 * (m - j) && i < n ==> up(name[i]) == up(buf[i]))
                && (j == 0 ==> buf[n] == 0)
    {
      MatchSlot(buf, up, slots[j], name, m - j, sum);
      hide Matches;
    }
    assert forall i :: 0 <= i < |q| ==> buf[i] == q[i] by { assert forall i :: 0 <= i < |q| ==> buf[..|q|][i] == q[i]; }
    hide Matches, IsSlot;
    if n < MAX_LFN && forall j :: 0 <= j < m ==> Matches(buf, up, slots[j]) {
      forall i | 0 <= i < n ensures up(name[i]) == up(buf[i]) && buf[i] != 0 {
        var j := m - 1 - i / 13;
        assert Matches(buf, up, slots[j]);
      }
      assert Matches(buf, up, slots[0]);
      assert |q| == n;
    }
  }
}
