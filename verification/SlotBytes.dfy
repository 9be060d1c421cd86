/** A long-name slot, byte by byte: section "FAT Long Directory Entries" of the FAT32 File System Specification, without
    the functions that the code is specified by. */
module SlotBytes {
  import opened Bytes

  /** Where the 13 units begin: 5, 6 and 2 of them in a row. */
  const PLACES: seq<nat> := [1, 3, 5, 7, 9, 14, 16, 18, 20, 22, 24, 28, 30]

  /** Two bytes, the low one first. */
  function Wide(s: seq<byte>, i: nat): (v: int)
    requires i + 1 < |s|
  {
    (s[i] as int) + (s[i + 1] as int) * 256
  }

  /** The units of the slot in bytes `at` to `at + 31`. */
  function Text(s: seq<byte>, at: nat): (t: seq<int>)
    requires at + 32 <= |s|
    ensures |t| == 13
  {
    seq<int>(13, k requires 0 <= k < 13 => Wide(s, at + PLACES[k]))
  }

  /** The slot in these bytes is number `ord` of the name: units `13 * (ord - 1)` on, then one 0, then 0xFFFF. */
  ghost predicate HoldsPart(s: seq<byte>, at: nat, name: seq<nat>, ord: nat, sum: byte) {
    && at + 32 <= |s| && s[at] == ord + (if 13 * ord >= |name| then 0x40 else 0)
    && s[at + 11] == 0x0F && s[at + 12] == 0 && s[at + 13] == sum && s[at + 26] == 0 && s[at + 27] == 0
    && forall k :: 0 <= k < 13 ==>
         Text(s, at)[k] == var i := 13 * (ord - 1) + k;
           if 0 <= i < |name| then name[i] else if i == |name| then 0 else 0xFFFF
  }

  /** The text has `n` units up to a terminator, or 13 of them, and nothing but 0xFFFF behind. */
  ghost predicate Ends(t: seq<int>, n: nat) {
    && 1 <= n <= 13 == |t| && (forall k :: 0 <= k < n - 1 ==> t[k] != 0) && (n < 13 ==> t[n - 1] == 0)
    && forall k :: n <= k < 13 ==> t[k] == 0xFFFF
  }

  predicate Plain(e: seq<byte>) { |e| == 32 && e[26] == 0 && e[27] == 0 }

  /** What `pick_lfn` takes: a slot of `n` units that fit in front of place 255, with room for a terminator there if it
      is the last part of the name. */
  ghost predicate Taken(e: seq<byte>, n: nat) {
    && Plain(e) && Ends(Text(e, 0), n)
    && if e[0] / 0x40 % 2 == 1 then e[0] > 0x40 && 13 * (e[0] as int - 0x41) + n < 255
       else e[0] > 0 && 13 * (e[0] as int - 1) + n <= 255
  }

  /** The buffer with the `n` units of the slot from place `o` on, and a terminator behind the last part. */
  ghost predicate Copy(buf: seq<nat>, was: seq<nat>, e: seq<byte>, n: nat) {
    && |buf| == |was| && |e| == 32 && n <= 13
    && var o := 13 * ((if e[0] / 0x40 % 2 == 1 then e[0] as int - 0x40 else e[0] as int) - 1);
       forall k :: 0 <= k < |buf| ==>
         buf[k] == if o <= k < o + n then Text(e, 0)[k - o]
                   else if k == o + n && e[0] / 0x40 % 2 == 1 then 0 else was[k]
  }

  /** What `cmp_lfn` accepts: the `n` units are those of the buffer but for case, and a full last part is the end of the
      name there. */
  ghost predicate Equal(buf: seq<nat>, up: nat -> nat, e: seq<byte>, n: nat) {
    && |buf| == 256 && Plain(e) && Ends(Text(e, 0), n) && e[0] % 0x40 > 0 && 13 * (e[0] as int % 0x40 - 1) + n <= 255
    && (forall k :: 0 <= k < n ==>
      Text(e, 0)[k] >= 0 && up(Text(e, 0)[k]) == up(buf[13 * (e[0] as int % 0x40 - 1) + k]))
    && (e[0] / 0x40 % 2 == 1 && n == 13 && Text(e, 0)[12] != 0 ==> buf[13 * (e[0] as int % 0x40)] == 0)
  }
}
