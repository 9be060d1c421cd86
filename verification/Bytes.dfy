/** Little-endian words stored in byte buffers, as `ld_word`, `ld_dword`,
    `st_word` and `st_dword` of ff.c read and write them. */
module Bytes {

  type byte = x: int | 0 <= x < 0x100

  /** One sector of the device: `SS(fs)` is 512, both limits in ffconf.h being 512. */
  type Sector = s: seq<byte> | |s| == 512 witness seq(512, _ => 0)

  function LdWord(s: seq<byte>, i: nat): (v: nat)
    requires i + 2 <= |s|
    ensures v < 0x1_0000
  {
    (s[i] as int) + 0x100 * (s[i + 1] as int)
  }

  function LdDword(s: seq<byte>, i: nat): (v: nat)
    requires i + 4 <= |s|
    ensures v < 0x1_0000_0000
  {
    (s[i] as int) + 0x100 * (s[i + 1] as int) + 0x1_0000 * (s[i + 2] as int) + 0x100_0000 * (s[i + 3] as int)
  }

  function Word(v: nat): (s: seq<byte>)
    requires v < 0x1_0000
    ensures |s| == 2 && LdWord(s, 0) == v
  {
    [v % 0x100, v / 0x100]
  }

  function Dword(v: nat): (s: seq<byte>)
    requires v < 0x1_0000_0000
    ensures |s| == 4 && LdDword(s, 0) == v
  {
    DwordParts(v);
    [v % 0x100, v / 0x100 % 0x100, v / 0x1_0000 % 0x100, v / 0x100_0000]
  }

  lemma DwordParts(v: nat)
    requires v < 0x1_0000_0000
    ensures v == v % 0x100 + 0x100 * (v / 0x100 % 0x100) + 0x1_0000 * (v / 0x1_0000 % 0x100)
      + 0x100_0000 * (v / 0x100_0000)
    ensures v / 0x100_0000 < 0x100
  {
    var a := v / 0x100;
    var b := a / 0x100;
    assert b == v / 0x1_0000 && b / 0x100 == v / 0x100_0000;
    assert v == v % 0x100 + 0x100 * a && a == a % 0x100 + 0x100 * b && b == b % 0x100 + 0x100 * (b / 0x100);
  }

  /** The buffer `s` with `t` written over it from index `i` on. */
  function Patch(s: seq<byte>, i: nat, t: seq<byte>): (r: seq<byte>)
    requires i + |t| <= |s|
    ensures |r| == |s|
  {
    s[..i] + t + s[i + |t|..]
  }

  /** `st_word`. */
  method StWord(a: array<byte>, i: nat, v: nat)
    requires i + 2 <= a.Length && v < 0x1_0000
    modifies a
    ensures a[..] == Patch(old(a[..]), i, Word(v))
  {
    a[i] := v % 0x100;
    a[i + 1] := v / 0x100;
  }

  /** `st_dword`. */
  method StDword(a: array<byte>, i: nat, v: nat)
    requires i + 4 <= a.Length && v < 0x1_0000_0000
    modifies a
    ensures a[..] == Patch(old(a[..]), i, Dword(v))
  {
    a[i] := v % 0x100;
    a[i + 1] := v / 0x100 % 0x100;
    a[i + 2] := v / 0x1_0000 % 0x100;
    a[i + 3] := v / 0x100_0000;
  }

  /** `mem_cpy` of `n` bytes of `src`, from index `from`, to `dst + at`. */
  method CopyIn(dst: array<byte>, at: nat, src: seq<byte>, from: nat, n: nat)
    requires at + n <= dst.Length && from + n <= |src|
    modifies dst
    ensures dst[..] == Patch(old(dst[..]), at, src[from..from + n])
  {
    forall k | 0 <= k < n {
      dst[at + k] := src[from + k];
    }
  }

  /** Two dwords at different places of a buffer: writing one leaves the other as it was. */
  lemma DwordFrame(s: seq<byte>, i: nat, v: nat, j: nat)
    requires i + 4 <= |s| && j + 4 <= |s| && v < 0x1_0000_0000
    requires j == i || j + 4 <= i || i + 4 <= j
    ensures LdDword(Patch(s, i, Dword(v)), j) == if j == i then v else LdDword(s, j)
  {
    var t := Patch(s, i, Dword(v));
    if j == i {
      assert t[i] == Dword(v)[0] && t[i + 1] == Dword(v)[1] && t[i + 2] == Dword(v)[2] && t[i + 3] == Dword(v)[3];
    }
  }

  /** The bytes of consecutive sectors. */
  function Flatten(data: seq<Sector>): (s: seq<byte>)
    ensures |s| == |data| * 512
  {
    seq(|data| * 512, j requires 0 <= j < |data| * 512 => data[j / 512][j % 512])
  }

  /** The sectors that `n * 512` bytes make up. */
  function Sectors(s: seq<byte>, n: nat): (data: seq<Sector>)
    requires |s| == n * 512
    ensures |data| == n && Flatten(data) == s
  {
    var data: seq<Sector> := seq(n, i requires 0 <= i < n => s[i * 512..i * 512 + 512]);
    assert forall j :: 0 <= j < |s| ==> data[j / 512][j % 512] == s[j];
    data
  }

  lemma FlattenUpdate(r: seq<byte>, at: nat, data: seq<Sector>, k: nat, t: Sector)
    requires at + |data| * 512 <= |r| && k < |data|
    ensures Patch(Patch(r, at, Flatten(data)), at + k * 512, t) == Patch(r, at, Flatten(data[k := t]))
  {
  }

  lemma PatchPatch(r: seq<byte>, at: nat, s: seq<byte>, t: seq<byte>)
    requires at + |s| + |t| <= |r|
    ensures Patch(Patch(r, at, s), at + |s|, t) == Patch(r, at, s + t)
  {
  }

  lemma PatchAll(r: seq<byte>, t: seq<byte>)
    requires |r| == |t|
    ensures Patch(r, 0, t[0..|t|]) == t
  {
  }

  lemma PatchedFront(r: seq<byte>, t: seq<byte>)
    requires |t| <= |r|
    ensures Patch(r, 0, t)[..|t|] == t
  {
  }

  lemma PatchNothing(r: seq<byte>, at: nat)
    requires at <= |r|
    ensures Patch(r, at, []) == r
  {
  }
}
