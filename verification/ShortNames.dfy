/** Short names of directory entries: the checksum that ties long-name slots to them, and numbered names. */
module ShortNames {
  import opened Bytes

  // ---------------------------------------------------------------- the checksum

  /** One round of `sum_sfn`: rotate right by one bit and add, in a byte. */
  function Round(sum: byte, b: byte): (r: byte) { (sum / 2 + sum * 128 + b) % 256 }

  function Sum(sum: byte, s: seq<byte>): (r: byte)
    decreases |s|
  {
    if s == [] then sum else Sum(Round(sum, s[0]), s[1..])
  }

  lemma {:induction false} SumAppend(sum: byte, s: seq<byte>, b: byte)
    ensures Sum(sum, s + [b]) == Round(Sum(sum, s), b)
    decreases |s|
  {
    if s == [] {
      assert [b][1..] == [];
    } else {
      assert (s + [b])[1..] == s[1..] + [b];
      SumAppend(Round(sum, s[0]), s[1..], b);
    }
  }

  /** `sum_sfn`. */
  method SumSfn(dir: seq<byte>) returns (sum: byte)
    requires |dir| >= 11
    ensures sum == Sum(0, dir[..11])
  {
    sum := 0;
    for n := 0 to 11
      invariant sum == Sum(0, dir[..n])
    {
      SumAppend(0, dir[..n], dir[n]);
      assert dir[..n + 1] == dir[..n] + [dir[n]];
      sum := (sum / 2 + sum * 128 + dir[n]) % 256;
    }
  }

  lemma RoundInjective(x: byte, y: byte, a: byte, b: byte)
    ensures Round(x, a) == Round(y, a) ==> x == y
    ensures Round(x, a) == Round(x, b) ==> a == b
  {
    Rotated(x, a);
    Rotated(y, a);
    Rotated(x, b);
    hide Round;
    SameShift(x / 2 + x % 2 * 128, y / 2 + y % 2 * 128, a);
    SameShift(a, b, x / 2 + x % 2 * 128);
  }

  lemma SameShift(x: int, y: int, a: int)
    requires 0 <= x < 256 && 0 <= y < 256 && 0 <= a < 256
    ensures (x + a) % 256 == (y + a) % 256 ==> x == y
  {
    assert x + a < 512 && y + a < 512;
  }

  /** Halving and doubling modulo 256 together rotate a byte. */
  lemma Rotated(x: byte, a: byte)
    ensures Round(x, a) == (x / 2 + x % 2 * 128 + a) % 256 && 0 <= x / 2 + x % 2 * 128 < 256
  {
    var h := x / 2;
    assert x == 2 * h + x % 2;
    assert x / 2 + x * 128 + a == (x / 2 + x % 2 * 128 + a) + 256 * h;
    Wrapped(x / 2 + x % 2 * 128 + a, h);
  }

  lemma Wrapped(r: int, q: int)
    ensures (r + 256 * q) % 256 == r % 256
  {
  }

  lemma {:induction false} SumInjective(x: byte, y: byte, s: seq<byte>)
    requires x != y
    ensures Sum(x, s) != Sum(y, s)
    decreases |s|
  {
    if s != [] {
      RoundInjective(x, y, s[0], s[0]);
      SumInjective(Round(x, s[0]), Round(y, s[0]), s[1..]);
    }
  }

  /** Names that differ in just one byte have different checksums. */
  lemma {:induction false} SumDetects(x: byte, s: seq<byte>, k: nat, b: byte)
    requires k < |s| && b != s[k]
    ensures Sum(x, s[k := b]) != Sum(x, s)
    decreases |s|
  {
    if k == 0 {
      assert s[0 := b][1..] == s[1..];
      RoundInjective(x, x, s[0], b);
      SumInjective(Round(x, s[0]), Round(x, b), s[1..]);
    } else {
      assert s[k := b][1..] == s[1..][k - 1 := b];
      SumDetects(Round(x, s[0]), s[1..], k - 1, b);
    }
  }

  // ---------------------------------------------------------------- numbered names

  /** `dbc_1st` for code page 936. */
  predicate Lead(c: byte) { 0x81 <= c <= 0xFE }

  function Digit(d: nat): (c: byte)
    requires d < 16
  {
    if d < 10 then 0x30 + d else 0x41 + (d - 10)
  }

  /** The number in hexadecimal, without leading zeros. */
  function Hex(num: nat): (s: seq<byte>)
    ensures |s| >= 1 && forall k :: 0 <= k < |s| ==> s[k] != 0x20
    ensures num < 0x1_0000 ==> |s| <= 4
    ensures num < 0x1000 ==> |s| <= 3
    ensures num < 0x100 ==> |s| <= 2
    ensures num < 0x10 ==> |s| == 1
  {
    if num < 16 then [Digit(num)] else Hex(num / 16) + [Digit(num % 16)]
  }

  /** The number of bytes of the body that are kept in front of the place `i`: up to a space, and no half character. */
  function Stop(src: seq<byte>, i: nat, j: nat): (r: nat)
    requires |src| == 11 && i <= 8
    ensures j <= i ==> j <= r <= i
    decreases i - j
  {
    if j >= i || src[j] == 0x20 then j
    else if Lead(src[j]) then (if j == i - 1 then j else Stop(src, i, j + 2)) else Stop(src, i, j + 1)
  }

  /** The short name with "~" and a number in its body. */
  function Numbered(src: seq<byte>, num: nat): (dst: seq<byte>)
    requires |src| == 11 && num < 0x1_0000
    ensures |dst| == 11
  {
    var t := [0x7E as byte] + Hex(num);
    var j := Stop(src, 8 - |t|, 0);
    src[..j] + t + seq(8 - j - |t|, k => 0x20 as byte) + src[8..]
  }

  /** The first byte stays, unless there was no body. */
  lemma NumberedFirst(src: seq<byte>, num: nat)
    requires |src| == 11 && num < 0x1_0000
    ensures Numbered(src, num)[0] == if src[0] == 0x20 then 0x7E else src[0]
  {
    var i := 7 - |Hex(num)|;
    assert i >= 3;
    if src[0] != 0x20 {
      assert Stop(src, i, 0) >= 1;
    }
  }

  /** The first five numbers give five names. */
  lemma NumberedApart(src: seq<byte>, a: nat, b: nat)
    requires |src| == 11 && a < b < 16
    ensures Numbered(src, a) != Numbered(src, b)
  {
    var j := Stop(src, 6, 0);
    assert Numbered(src, a)[j + 1] == Digit(a) && Numbered(src, b)[j + 1] == Digit(b);
  }

  /** The bit of weight 1, 32 or 4096 inverted. */
  function Flip0(t: nat): (r: nat) { if t % 2 == 1 then t - 1 else t + 1 }

  function Flip5(t: nat): (r: nat) { if t / 32 % 2 == 1 then t - 32 else t + 32 }

  function Flip12(t: nat): (r: nat) { if t / 4096 % 2 == 1 then t - 4096 else t + 4096 }

  /** One bit of the hash: shift it in, and reduce by the polynomial 0x11021 if bit 16 is set. */
  function Shift(sr: nat, bit: nat): (r: nat)
    requires sr < 0x1_0000 && bit < 2
  {
    var t := 2 * sr + bit;
    if t >= 0x1_0000 then Flip0(Flip5(Flip12(t - 0x1_0000))) else t
  }

  lemma ShiftBound(sr: nat, bit: nat)
    requires sr < 0x1_0000 && bit < 2
    ensures Shift(sr, bit) < 0x1_0000
  {
    var t := 2 * sr + bit;
    if t >= 0x1_0000 {
      FlipBound(t - 0x1_0000);
    }
  }

  lemma FlipBound(t: nat)
    requires t < 0x1_0000
    ensures Flip12(t) < 0x1_0000 && Flip5(t) < 0x1_0000 && Flip0(t) < 0x1_0000
    ensures Flip0(Flip5(Flip12(t))) < 0x1_0000
  {
    FlipOne(t);
    FlipOne(Flip12(t));
    FlipOne(Flip5(Flip12(t)));
  }

  lemma FlipOne(t: nat)
    requires t < 0x1_0000
    ensures Flip12(t) < 0x1_0000 && Flip5(t) < 0x1_0000 && Flip0(t) < 0x1_0000
  {
  }

  function Mix(sr: nat, wc: nat, k: nat): (r: nat)
    requires sr < 0x1_0000
    ensures r < 0x1_0000
    decreases k
  {
    if k == 0 then sr
    else
      ShiftBound(sr, wc % 2);
      Mix(Shift(sr, wc % 2), wc / 2, k - 1)
  }

  function Hash(sr: nat, lfn: seq<nat>): (r: nat)
    requires sr < 0x1_0000
    ensures r < 0x1_0000
    decreases |lfn|
  {
    if lfn == [] then sr else Hash(Mix(sr, lfn[0], 16), lfn[1..])
  }

  /** The number in the name: the first five as they are, then hashes of the long name. */
  function Number(n: nat, lfn: seq<nat>): (num: nat)
    requires n < 0x1_0000
    ensures num < 0x1_0000 && (n <= 5 ==> num == n)
  {
    if n > 5 then Hash(n, lfn) else n
  }

  /** The hash of `gen_numname`. */
  method HashName(lfn: seq<nat>, n: nat) returns (sr: nat)
    requires n < 0x1_0000
    ensures sr == Hash(n, lfn)
  {
    sr := n;
    var k := 0;
    while k < |lfn|
      invariant 0 <= k <= |lfn| && sr < 0x1_0000 && Hash(sr, lfn[k..]) == Hash(n, lfn)
    {
      sr := MixUnit(lfn[k], sr);
      assert lfn[k..][1..] == lfn[k + 1..];
      k := k + 1;
    }
  }

  method MixUnit(unit: nat, from: nat) returns (sr: nat)
    requires from < 0x1_0000
    ensures sr == Mix(from, unit, 16)
  {
    hide Shift;
    var wc := unit;
    sr := from;
    for i := 0 to 16
      invariant sr < 0x1_0000 && Mix(sr, wc, 16 - i) == Mix(from, unit, 16)
    {
      ShiftBound(sr, wc % 2);
      sr := Shift(sr, wc % 2);
      wc := wc / 2;
    }
  }

  /** The digits of `gen_numname`, from the back of `ns`. */
  method Digits(num: nat) returns (ns: seq<byte>)
    ensures ns == Hex(num)
  {
    ns := [];
    var rest := num;
    while true
      invariant Hex(num) == Hex(rest) + ns
      decreases rest
    {
      ns := [Digit(rest % 16)] + ns;
      rest := rest / 16;
      if rest == 0 {
        break;
      }
    }
  }

  /** The loop of `gen_numname` over the body. */
  method FindStop(src: seq<byte>, i: nat) returns (j: nat)
    requires |src| == 11 && i <= 8
    ensures j == Stop(src, i, 0)
  {
    j := 0;
    while j < i && src[j] != 0x20
      invariant 0 <= j <= i && Stop(src, i, 0) == Stop(src, i, j)
    {
      if Lead(src[j]) {
        if j == i - 1 {
          break;
        }
        j := j + 1;
      }
      j := j + 1;
    }
  }

  /** `gen_numname`. */
  method GenNumname(src: seq<byte>, lfn: seq<nat>, n: nat) returns (dst: seq<byte>)
    requires |src| == 11 && n < 0x1_0000
    ensures dst == Numbered(src, Number(n, lfn))
  {
    hide Stop, Hex, Hash;
    var num := n;
    if n > 5 {
      num := HashName(lfn, n);
    }
    var ns := Digits(num);
    ns := [0x7E] + ns;
    var j := FindStop(src, 8 - |ns|);
    dst := src[..j] + ns + seq(8 - j - |ns|, k => 0x20) + src[8..];
  }
}
