/** What the functions on short names stand for: the digits of a number, the whole characters in front of it, and the
    hash, which is the remainder of a polynomial division. */
module NameMeaning {
  import opened Bytes
  import opened ShortNames
  import Division

  // ---------------------------------------------------------------- digits

  /** The value of a digit, '0' to '9' or 'A' to 'F'. */
  function Value(c: byte): (d: int) { if 0x30 <= c <= 0x39 then c as int - 0x30
    else if 0x41 <= c <= 0x46 then c as int - 0x37
    else -1 }

  /** The number that some digits stand for, the first one of most weight; -1 if one is no digit. */
  function Number16(s: seq<byte>): (n: int) {
    if s == [] then 0
    else if Number16(s[..|s| - 1]) == -1 || Value(s[|s| - 1]) == -1 then -1
    else 16 * Number16(s[..|s| - 1]) + Value(s[|s| - 1])
  }

  lemma {:induction false} HexBack(num: nat)
    ensures Number16(Hex(num)) == num && (num > 0 ==> Hex(num)[0] != 0x30)
    decreases num
  {
    var s := Hex(num);
    if num >= 16 {
      HexBack(num / 16);
      assert s[..|s| - 1] == Hex(num / 16);
    } else {
      assert s[..0] == [];
    }
  }

  // ---------------------------------------------------------------- the numbered name

  /** From byte `k` of the body to byte `j` there are whole characters of one or two bytes and no space. */
  ghost predicate Characters(src: seq<byte>, k: nat, j: nat)
    requires |src| == 11 && j <= 8
    decreases 8 - k
  {
    k == j || (k < j && src[k] != 0x20 && Characters(src, if 0x81 <= src[k] <= 0xFE then k + 2 else k + 1, j))
  }

  lemma {:induction false} StopIs(src: seq<byte>, i: nat, j: nat)
    requires |src| == 11 && j <= i <= 8
    ensures var r := Stop(src, i, j);
            j <= r <= i && Characters(src, j, r)
            && (r == i || src[r] == 0x20 || (r == i - 1 && 0x81 <= src[r] <= 0xFE))
    decreases i - j
  {
    if j < i && src[j] != 0x20 {
      if !Lead(src[j]) {
        StopIs(src, i, j + 1);
      } else if j < i - 1 {
        StopIs(src, i, j + 2);
      }
    }
  }

  /** The first `j` bytes of the body, '~' and the digits of the number, then spaces; the extension as it was. */
  ghost predicate IsNumbered(dst: seq<byte>, src: seq<byte>, num: nat, j: nat, d: nat) {
    && |dst| == |src| == 11 && d <= 4 && j + d <= 7
    && dst[..j] == src[..j] && dst[j] == 0x7E && Number16(dst[j + 1..j + 1 + d]) == num
    && (forall k :: j + 1 + d <= k < 8 ==> dst[k] == 0x20) && dst[8..] == src[8..]
  }

  /** As many whole characters of the body as there are and as fit. */
  ghost predicate Fills(src: seq<byte>, j: nat, d: nat)
    requires |src| == 11 && j + d <= 7
  {
    Characters(src, 0, j) && (j + d == 7 || src[j] == 0x20 || (j + d == 6 && 0x81 <= src[j] <= 0xFE))
  }

  lemma NumberedIs(src: seq<byte>, num: nat)
    requires |src| == 11 && num < 0x1_0000
    ensures exists j: nat, d: nat :: IsNumbered(Numbered(src, num), src, num, j, d) && Fills(src, j, d)
  {
    hide Number16, Characters, Hex, Lead;
    var s, d, dst := Hex(num), |Hex(num)|, Numbered(src, num);
    var j := Stop(src, 7 - d, 0);
    StopIs(src, 7 - d, 0);
    HexBack(num);
    hide Stop;
    assert dst == src[..j] + ([0x7E as byte] + s) + seq(7 - j - d, k => 0x20 as byte) + src[8..];
    assert dst[j + 1..j + 1 + d] == s;
    assert dst[..j] == src[..j] && dst[8..] == src[8..];
    assert IsNumbered(dst, src, num, j, d) && Fills(src, j, d);
  }

  // ---------------------------------------------------------------- the hash

  /** Bit `k` of a number. */
  function Bit(x: nat, k: int): (b: bool) {
    if k < 0 then false else if k == 0 then x % 2 == 1 else Bit(x / 2, k - 1)
  }

  /** x^16 + x^12 + x^5 + 1, times the polynomial of `q`: bit `k`. */
  function Times(q: nat, k: nat): (b: bool) {
    ((Bit(q, k - 16) != Bit(q, k - 12)) != Bit(q, k - 5)) != Bit(q, k)
  }

  /** `d` is that product plus `r`, as polynomials over the field of two elements. */
  ghost predicate Divides(d: nat, q: nat, r: nat) {
    r < 0x1_0000 && forall k: nat :: Bit(d, k) == (Times(q, k) != Bit(r, k))
  }

  /** The bits of a unit, from the lowest on, one after the other behind those of `d`. */
  function Append(d: nat, wc: nat, n: nat): (e: nat)
    decreases n
  {
    if n == 0 then d else Append(2 * d + wc % 2, wc / 2, n - 1)
  }

  /** The bits of all units behind those of `d`. */
  function Stream(d: nat, lfn: seq<nat>): (e: nat)
    decreases |lfn|
  {
    if lfn == [] then d else Stream(Append(d, lfn[0], 16), lfn[1..])
  }

  function Pow2(n: nat): (p: nat) { if n == 0 then 1 else 2 * Pow2(n - 1) }

  lemma Powers()
    ensures Pow2(5) == 32 && Pow2(12) == 0x1000 && Pow2(16) == 0x1_0000
  {
    assert Pow2(3) == 8;
    assert Pow2(7) == 128;
    assert Pow2(10) == 1024;
    assert Pow2(14) == 0x4000;
  }

  /** A number of `n` low bits and a higher part. */
  lemma {:induction false} BitSplit(h: nat, l: nat, n: nat, k: nat)
    requires l < Pow2(n)
    ensures Bit(h * Pow2(n) + l, k) == if k < n then Bit(l, k) else Bit(h, k - n)
    decreases n
  {
    if n == 0 {
      assert h * Pow2(0) + l == h;
    } else {
      var p := Pow2(n - 1);
      assert h * Pow2(n) + l == 2 * (h * p + l / 2) + l % 2;
      if k > 0 {
        BitSplit(h, l / 2, n - 1, k - 1);
      }
    }
  }

  lemma {:induction false} BitZero(k: nat)
    ensures !Bit(0, k)
  {
    if k > 0 {
      BitZero(k - 1);
    }
  }

  /** Inverting bit `n`, the lowest of the higher part. */
  lemma FlipBit(h: nat, l: nat, n: nat, k: nat)
    requires l < Pow2(n)
    ensures Bit(Flip0(h) * Pow2(n) + l, k) == (Bit(h * Pow2(n) + l, k) != (k == n))
  {
    BitSplit(h, l, n, k);
    BitSplit(Flip0(h), l, n, k);
    assert Flip0(h) / 2 == h / 2;
  }

  lemma Flips(t: nat, k: nat)
    ensures Bit(Flip12(t), k) == (Bit(t, k) != (k == 12)) && Bit(Flip5(t), k) == (Bit(t, k) != (k == 5))
    ensures Bit(Flip0(t), k) == (Bit(t, k) != (k == 0))
  {
    Powers();
    hide Bit, Pow2;
    var a, b, c, d := t / 4096, t % 4096, t / 32, t % 32;
    FlipBit(a, b, 12, k);
    assert t == a * 4096 + b && Flip12(t) == Flip0(a) * 4096 + b;
    FlipBit(c, d, 5, k);
    assert t == c * 32 + d && Flip5(t) == Flip0(c) * 32 + d;
    FlipLow(t, k);
  }

  lemma FlipLow(t: nat, k: nat)
    ensures Bit(Flip0(t), k) == (Bit(t, k) != (k == 0))
  {
    assert Flip0(t) / 2 == t / 2;
  }

  lemma TopBit(t: nat, k: nat)
    requires 0x1_0000 <= t < 0x2_0000
    ensures Bit(t, k) == (Bit(t - 0x1_0000, k) != (k == 16))
  {
    Powers();
    var u := t - 0x1_0000;
    BitSplit(1, u, 16, k);
    BitSplit(0, u, 16, k);
    BitZero(if k > 16 then k - 17 else 0);
    BitZero(if k > 16 then k - 16 else 0);
  }

  /** One bit of the hash: the bits move up, and the polynomial goes out where the top one was set. */
  lemma ShiftBits(sr: nat, bit: nat, k: nat)
    requires sr < 0x1_0000 && bit < 2
    ensures Bit(Shift(sr, bit), k) ==
      (Bit(2 * sr + bit, k) != (sr >= 0x8000 && (k == 0 || k == 5 || k == 12 || k == 16)))
  {
    hide Flip0, Flip5, Flip12, Bit;
    var t := 2 * sr + bit;
    if t >= 0x1_0000 {
      var u := t - 0x1_0000;
      TopBit(t, k);
      Flips(u, k);
      Flips(Flip12(u), k);
      Flips(Flip5(Flip12(u)), k);
    }
  }

  lemma Doubled(d: nat, b: nat, k: int)
    requires b < 2
    ensures Bit(2 * d + b, k) == if k == 0 then b == 1 else Bit(d, k - 1)
  {
    assert (2 * d + b) / 2 == d && (2 * d + b) % 2 == b;
  }

  /** A division goes on with one bit more. */
  lemma DividesMore(d: nat, q: nat, r: nat, bit: nat)
    requires Divides(d, q, r) && bit < 2
    ensures Divides(2 * d + bit, 2 * q + (if r >= 0x8000 then 1 else 0), Shift(r, bit))
  {
    var top := if r >= 0x8000 then 1 else 0;
    ShiftBound(r, bit);
    forall k: nat ensures Bit(2 * d + bit, k) == (Times(2 * q + top, k) != Bit(Shift(r, bit), k)) {
      BitsMore(d, q, r, bit, top, k);
    }
  }

  lemma BitsMore(d: nat, q: nat, r: nat, bit: nat, top: nat, k: nat)
    requires Divides(d, q, r) && bit < 2 && top == (if r >= 0x8000 then 1 else 0)
    ensures Bit(2 * d + bit, k) == (Times(2 * q + top, k) != Bit(Shift(r, bit), k))
  {
    hide Bit, Shift;
    Doubled(d, bit, k);
    Doubled(r, bit, k);
    Doubled(q, top, k);
    Doubled(q, top, k - 5);
    Doubled(q, top, k - 12);
    Doubled(q, top, k - 16);
    ShiftBits(r, bit, k);
    BitBelow(q, r);
    if k > 0 {
      assert Bit(d, k - 1) == (Times(q, k - 1) != Bit(r, k - 1));
    }
  }

  lemma BitBelow(q: nat, r: nat)
    ensures forall k: int :: k < 0 ==> !Bit(q, k) && !Bit(r, k)
  {
  }

  lemma {:induction false} MixDivides(d: nat, q: nat, r: nat, wc: nat, n: nat) returns (q': nat)
    requires Divides(d, q, r)
    ensures Divides(Append(d, wc, n), q', Mix(r, wc, n))
    decreases n
  {
    hide Divides, Shift;
    q' := q;
    DividesRange(d, q, r);
    if n > 0 {
      var bit := wc % 2;
      DividesMore(d, q, r, bit);
      ShiftBound(r, bit);
      q' := MixDivides(2 * d + bit, 2 * q + (if r >= 0x8000 then 1 else 0), Shift(r, bit), wc / 2, n - 1);
    }
  }

  lemma DividesRange(d: nat, q: nat, r: nat)
    requires Divides(d, q, r)
    ensures r < 0x1_0000
  {
  }

  /** The hash is the remainder of the start value and the bits of the name by x^16 + x^12 + x^5 + 1. */
  lemma {:induction false} HashDivides(d: nat, q: nat, r: nat, lfn: seq<nat>) returns (q': nat)
    requires Divides(d, q, r)
    ensures Divides(Stream(d, lfn), q', Hash(r, lfn))
    decreases |lfn|
  {
    hide Divides;
    q' := q;
    DividesRange(d, q, r);
    if lfn != [] {
      q' := MixDivides(d, q, r, lfn[0], 16);
      q' := HashDivides(Append(d, lfn[0], 16), q', Mix(r, lfn[0], 16), lfn[1..]);
    }
  }

  /** So is the number in the name, from the sixth on. */
  lemma HashIsRemainder(n: nat, lfn: seq<nat>)
    requires 5 < n < 0x1_0000
    ensures exists q: nat :: Divides(Stream(n, lfn), q, Number(n, lfn))
  {
    forall k: nat ensures Bit(n, k) == (Times(0, k) != Bit(n, k)) {
      forall j: nat ensures !Bit(0, j) {
        BitZero(j);
      }
    }
    assert Divides(n, 0, n) && Number(n, lfn) == Hash(n, lfn);
    var q := HashDivides(n, 0, n, lfn);
  }
}
