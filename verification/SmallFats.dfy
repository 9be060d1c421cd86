/** The 12- and 16-bit entries of `get_fat` and `put_fat` of ff.c, read and written through the window. An entry of
    12 bits shares a byte with its neighbour, and its two bytes may lie in different sectors. */
module SmallFats {
  import opened Bytes
  import opened Volumes

  // ---------------------------------------------------------------- the FAT as bytes

  /** The bytes of the first FAT. */
  ghost function Table(g: Geometry, view: seq<Sector>): (t: seq<byte>)
    requires g.Wf() && |view| == g.nsect
    ensures |t| == g.fsize * 512
  {
    seq(g.fsize * 512, b requires 0 <= b < g.fsize * 512 => view[g.fatbase + b / 512][b % 512])
  }

  /** The FAT is long enough for `n` entries of 12 bits, as mounting checks. */
  ghost predicate Holds12(g: Geometry, n: nat) { n + n / 2 + n % 2 <= g.fsize * 512 }

  /** The FAT is long enough for `n` entries of 16 bits. */
  ghost predicate Holds16(g: Geometry, n: nat) { 2 * n <= g.fsize * 512 }

  /** The first byte of an entry of 12 bits. */
  function Place(c: nat): (b: nat)
  {
    c + c / 2
  }

  function Entry12(t: seq<byte>, c: nat): (v: nat)
    requires Place(c) + 1 < |t|
  {
    Join(c, t[Place(c)], t[Place(c) + 1])
  }

  /** The entry of an odd cluster is in the upper 12 bits of its two bytes, that of an even one in the lower. */
  function Join(c: nat, x: byte, y: byte): (v: nat) {
    var w: nat := (x as int) + 0x100 * (y as int);
    if c % 2 == 1 then w / 16 else w % 0x1000
  }

  function Entry16(t: seq<byte>, c: nat): (v: nat)
    requires 2 * c + 1 < |t|
  {
    LdWord(t, 2 * c)
  }

  /** The first and the second byte that `put_fat` stores for an entry of 12 bits, over the bytes that are there. */
  function Byte1(c: nat, val: nat, x: byte): (y: byte) {
    if c % 2 == 1 then x % 16 + val % 16 * 16 else val % 0x100
  }

  function Byte2(c: nat, val: nat, x: byte): (y: byte) {
    if c % 2 == 1 then val / 16 % 0x100 else x / 16 * 16 + val / 0x100 % 16
  }

  function Half12(t: seq<byte>, c: nat, val: nat): (r: seq<byte>)
    requires Place(c) + 1 < |t|
    ensures |r| == |t|
  {
    t[Place(c) := Byte1(c, val, t[Place(c)])]
  }

  function Put12Bytes(t: seq<byte>, c: nat, val: nat): (r: seq<byte>)
    requires Place(c) + 1 < |t|
    ensures |r| == |t|
  {
    Half12(t, c, val)[Place(c) + 1 := Byte2(c, val, t[Place(c) + 1])]
  }

  function Put16Bytes(t: seq<byte>, c: nat, val: nat): (r: seq<byte>)
    requires 2 * c + 1 < |t|
    ensures |r| == |t|
  {
    Patch(t, 2 * c, Word(val % 0x1_0000))
  }

  /** Reading after writing: the entry written holds the low 12 bits of the value, and every other entry what it did. */
  lemma Codec12(t: seq<byte>, c: nat, val: nat, d: nat)
    requires Place(c) + 1 < |t| && Place(d) + 1 < |t|
    ensures Entry12(Put12Bytes(t, c, val), d) == if d == c then val % 0x1000 else Entry12(t, d)
  {
    hide Join, Byte1, Byte2;
    if d == c {
      JoinOwn(c, val, t[Place(c)], t[Place(c) + 1]);
    } else if d == c + 1 && c % 2 == 0 {
      assert Place(d) == Place(c) + 1;
      JoinNext(c, val, t[Place(d)], t[Place(d) + 1]);
    } else if c == d + 1 && d % 2 == 0 {
      assert Place(c) == Place(d) + 1;
      JoinPrevious(c, val, t[Place(d)], t[Place(c)]);
    } else {
      Apart(c, d);
    }
  }

  lemma JoinOwn(c: nat, val: nat, x: byte, y: byte)
    ensures Join(c, Byte1(c, val, x), Byte2(c, val, y)) == val % 0x1000
  {
    Nibbles(val);
    if c % 2 == 1 {
      Sixteenth(val % 16 + 16 * (val / 16 % 0x100), x % 16);
    } else {
      Low12(y / 16, val % 0x100 + 0x100 * (val / 0x100 % 16));
    }
  }

  lemma Low12(q: int, r: nat)
    requires r < 0x1000
    ensures (0x1000 * q + r) % 0x1000 == r
  {
  }

  lemma Nibbles(val: nat)
    ensures val % 0x1000 == val % 0x100 + 0x100 * (val / 0x100 % 16)
    ensures val % 0x1000 == val % 16 + 16 * (val / 16 % 0x100)
  {
    ByteFirst(val);
    NibbleFirst(val);
  }

  lemma ByteFirst(val: nat)
    ensures val % 0x1000 == val % 0x100 + 0x100 * (val / 0x100 % 16)
  {
    var q, r := val / 0x100, val % 0x100;
    var h, l := q / 16, q % 16;
    assert val == 0x1000 * h + (r + 0x100 * l);
    Low12(h, r + 0x100 * l);
  }

  lemma NibbleFirst(val: nat)
    ensures val % 0x1000 == val % 16 + 16 * (val / 16 % 0x100)
  {
    var q, r := val / 16, val % 16;
    var h, l := q / 0x100, q % 0x100;
    assert val == 0x1000 * h + (r + 16 * l);
    Low12(h, r + 16 * l);
  }

  lemma Upper(x: byte, a: nat, y: byte)
    requires a < 16
    ensures (x / 16 * 16 + a + 0x100 * y) / 16 == (x + 0x100 * y) / 16
  {
    Sixteenth(x / 16 + 16 * y, a);
    Sixteenth(x / 16 + 16 * y, x % 16);
  }

  lemma Sixteenth(q: int, a: nat)
    requires a < 16
    ensures (16 * q + a) / 16 == q
  {
  }

  lemma Lower(x: byte, a: nat, y: byte)
    requires a < 16
    ensures (y + 0x100 * (x % 16 + a * 16)) % 0x1000 == (y + 0x100 * x) % 0x1000
  {
    var h, l := x / 16, x % 16;
    LowByte(a, l, y);
    LowByte(h, l, y);
    assert x == l + h * 16;
  }

  lemma LowByte(h: nat, l: nat, y: byte)
    requires l < 16
    ensures (y + 0x100 * (l + h * 16)) % 0x1000 == y + 0x100 * l
  {
    Low12(h, y + 0x100 * l);
    assert y + 0x100 * (l + h * 16) == 0x1000 * h + (y + 0x100 * l);
  }

  /** The second byte of an even entry is the first one of the next. */
  lemma JoinNext(c: nat, val: nat, x: byte, y: byte)
    requires c % 2 == 0
    ensures Join(c + 1, Byte2(c, val, x), y) == Join(c + 1, x, y)
  {
    hide Join;
    var a := val / 0x100 % 16;
    Next(c);
    UpperJoin(c + 1, x, x / 16 * 16 + a, y);
  }

  lemma Next(c: nat)
    requires c % 2 == 0
    ensures (c + 1) % 2 == 1
  {
  }

  lemma UpperJoin(d: nat, x: byte, z: byte, y: byte)
    requires d % 2 == 1 && z / 16 == x / 16
    ensures Join(d, z, y) == Join(d, x, y)
  {
    Upper(x, z % 16, y);
  }

  /** The first byte of an odd entry is the second one of the entry before. */
  lemma JoinPrevious(c: nat, val: nat, x: byte, y: byte)
    requires c % 2 == 1
    ensures Join(c - 1, x, Byte1(c, val, y)) == Join(c - 1, x, y)
  {
    Lower(y, val % 16, x);
  }

  lemma Apart(c: nat, d: nat)
    requires c != d && !(d == c + 1 && c % 2 == 0) && !(c == d + 1 && d % 2 == 0)
    ensures Place(c) + 1 < Place(d) || Place(d) + 1 < Place(c)
  {
    var i, j := c / 2, d / 2;
    assert c == 2 * i + c % 2 && d == 2 * j + d % 2;
  }

  lemma Codec16(t: seq<byte>, c: nat, val: nat, d: nat)
    requires 2 * c + 1 < |t| && 2 * d + 1 < |t|
    ensures Entry16(Put16Bytes(t, c, val), d) == if d == c then val % 0x1_0000 else Entry16(t, d)
  {
    var w := Word(val % 0x1_0000);
    var r := Patch(t, 2 * c, w);
    assert r[2 * c] == w[0] && r[2 * c + 1] == w[1];
    assert LdWord(w, 0) == val % 0x1_0000;
  }

  lemma Fits12(g: Geometry, n: nat, c: nat)
    requires Holds12(g, n) && c < n
    ensures Place(c) + 1 < g.fsize * 512
  {
    assert n == 2 * (n / 2) + n % 2 && c == 2 * (c / 2) + c % 2;
  }

  // ---------------------------------------------------------------- bytes through the window

  lemma SameTable(g: Geometry, a: seq<Sector>, b: seq<Sector>)
    requires g.Wf() && |a| == g.nsect && SameView(g, a, b)
    ensures Table(g, a) == Table(g, b)
  {
    forall k | 0 <= k < g.fsize * 512 ensures Table(g, a)[k] == Table(g, b)[k] {
      assert !g.SecondFat(g.fatbase + k / 512);
    }
  }

  lemma ByteStored(g: Geometry, view: seq<Sector>, b: nat, x: byte)
    requires g.Wf() && |view| == g.nsect && b < g.fsize * 512
    ensures g.FirstFat(g.fatbase + b / 512)
    ensures var s := g.fatbase + b / 512;
            Table(g, PutView(g, view, s, view[s][b % 512 := x])) == Table(g, view)[b := x]
  {
    var s := g.fatbase + b / 512;
    var w := PutView(g, view, s, view[s][b % 512 := x]);
    forall k | 0 <= k < g.fsize * 512 ensures Table(g, w)[k] == Table(g, view)[b := x][k] {
      if k / 512 == b / 512 && k % 512 == b % 512 {
        assert k == b;
      }
    }
  }

  /** Byte `b` of the FAT, by `move_window` and a read of the window. */
  method LoadByte(v: Volume, b: nat) returns (res: FResult, x: byte)
    requires v.Valid() && b < v.g.fsize * 512
    modifies v`disk, v`winsect, v`wflag, v.win
    ensures v.Valid()
    ensures res == Ok || (res == DiskErr && !v.g.reliable)
    ensures SameView(v.g, old(v.View()), v.View())
    ensures Table(v.g, v.View()) == Table(v.g, old(v.View()))
    ensures res == Ok ==> v.winsect == v.g.fatbase + b / 512 && x == v.win[b % 512] == Table(v.g, v.View())[b]
  {
    x := 0;
    res := v.MoveWindow(v.g.fatbase + b / 512);
    SameTable(v.g, old(v.View()), v.View());
    if res == Ok {
      x := v.win[b % 512];
      assert v.View()[v.winsect] == v.win[..];
    }
  }

  /** A store to byte `b`, whose sector is in the window. */
  method StoreByte(v: Volume, b: nat, x: byte)
    requires v.Valid() && b < v.g.fsize * 512 && v.winsect == v.g.fatbase + b / 512
    modifies v`wflag, v.win
    ensures v.Valid() && v.wflag
    ensures Table(v.g, v.View()) == Table(v.g, old(v.View()))[b := x]
    ensures Untouched(v.g, old(v.View()), v.View())
  {
    ghost var was := v.View();
    ghost var s: Sector := v.win[..];
    v.win[b % 512] := x;
    v.wflag := true;
    assert was[v.winsect] == s;
    assert v.win[..] == s[b % 512 := x];
    ByteStored(v.g, was, b, x);
    assert v.View() == PutView(v.g, was, v.winsect, v.win[..]);
    PutViewElsewhere(v.g, was, v.winsect, v.win[..]);
  }

  // ---------------------------------------------------------------- get_fat and put_fat

  method GetFat12(v: Volume, n: nat, clst: nat) returns (val: nat)
    requires v.Valid() && Holds12(v.g, n)
    modifies v`disk, v`winsect, v`wflag, v.win
    ensures v.Valid() && SameView(v.g, old(v.View()), v.View())
    ensures !(2 <= clst < n) ==> val == 1
    ensures 2 <= clst < n && val != INVALID ==>
              Place(clst) + 1 < v.g.fsize * 512 && val == Entry12(Table(v.g, old(v.View())), clst)
    ensures val == INVALID ==> !v.g.reliable
  {
    hide Table, SameView, v.View;
    ghost var was := v.View();
    SameViewRefl(v.g, was);
    if clst < 2 || clst >= n {
      return 1;
    }
    Fits12(v.g, n, clst);
    val := INVALID;
    var res, x := LoadByte(v, Place(clst));
    ghost var mid := v.View();
    if res == Ok {
      var y;
      res, y := LoadByte(v, Place(clst) + 1);
      SameViewTrans(v.g, was, mid, v.View());
      if res == Ok {
        var wc: nat := (x as int) + 0x100 * (y as int);
        val := if clst % 2 == 1 then wc / 16 else wc % 0x1000;
      }
    }
  }

  lemma SameViewTrans(g: Geometry, a: seq<Sector>, b: seq<Sector>, c: seq<Sector>)
    requires SameView(g, a, b) && SameView(g, b, c)
    ensures SameView(g, a, c)
  {
  }

  /** When the device fails between the two bytes, the first one stays written. */
  method PutFat12(v: Volume, n: nat, clst: nat, val: nat) returns (res: FResult)
    requires v.Valid() && Holds12(v.g, n)
    modifies v`disk, v`winsect, v`wflag, v.win
    ensures v.Valid() && Untouched(v.g, old(v.View()), v.View())
    ensures res == IntErr <==> !(2 <= clst < n)
    ensures res == Ok || res == IntErr || (res == DiskErr && !v.g.reliable)
    ensures 2 <= clst < n ==> Place(clst) + 1 < v.g.fsize * 512
    ensures res == IntErr ==> Table(v.g, v.View()) == Table(v.g, old(v.View()))
    ensures res == Ok ==> Table(v.g, v.View()) == Put12Bytes(Table(v.g, old(v.View())), clst, val)
    ensures res == DiskErr ==>
              Table(v.g, v.View()) in {Table(v.g, old(v.View())), Half12(Table(v.g, old(v.View())), clst, val)}
  {
    hide Table, Untouched, SameView, v.View;
    ghost var was := v.View();
    UntouchedRefl(v.g, was);
    if clst < 2 || clst >= n {
      return IntErr;
    }
    Fits12(v.g, n, clst);
    res := PutByte1(v, clst, val);
    if res == Ok {
      ghost var mid := v.View();
      res := PutByte2(v, clst, val);
      UntouchedTrans(v.g, was, mid, v.View());
    }
  }

  method PutByte1(v: Volume, clst: nat, val: nat) returns (res: FResult)
    requires v.Valid() && Place(clst) + 1 < v.g.fsize * 512
    modifies v`disk, v`winsect, v`wflag, v.win
    ensures v.Valid() && Untouched(v.g, old(v.View()), v.View())
    ensures res == Ok || (res == DiskErr && !v.g.reliable)
    ensures Table(v.g, v.View()) == if res == Ok then Half12(Table(v.g, old(v.View())), clst, val)
      else Table(v.g, old(v.View()))
  {
    hide Table, Untouched, SameView, v.View, Byte1;
    ghost var was := v.View();
    var x;
    res, x := LoadByte(v, Place(clst));
    ghost var mid := v.View();
    SameViewUntouched(v.g, was, mid);
    if res == Ok {
      StoreByte(v, Place(clst), Byte1(clst, val, x));
      UntouchedTrans(v.g, was, mid, v.View());
    }
  }

  method PutByte2(v: Volume, clst: nat, val: nat) returns (res: FResult)
    requires v.Valid() && Place(clst) + 1 < v.g.fsize * 512
    modifies v`disk, v`winsect, v`wflag, v.win
    ensures v.Valid() && Untouched(v.g, old(v.View()), v.View())
    ensures res == Ok || (res == DiskErr && !v.g.reliable)
    ensures var t := Table(v.g, old(v.View()));
            Table(v.g, v.View()) == if res == Ok then t[Place(clst) + 1 := Byte2(clst, val, t[Place(clst) + 1])] else t
  {
    hide Table, Untouched, SameView, v.View, Byte2;
    ghost var was := v.View();
    var x;
    res, x := LoadByte(v, Place(clst) + 1);
    ghost var mid := v.View();
    SameViewUntouched(v.g, was, mid);
    if res == Ok {
      StoreByte(v, Place(clst) + 1, Byte2(clst, val, x));
      UntouchedTrans(v.g, was, mid, v.View());
    }
  }

  method GetFat16(v: Volume, n: nat, clst: nat) returns (val: nat)
    requires v.Valid() && Holds16(v.g, n)
    modifies v`disk, v`winsect, v`wflag, v.win
    ensures v.Valid() && SameView(v.g, old(v.View()), v.View())
    ensures !(2 <= clst < n) ==> val == 1
    ensures 2 <= clst < n && val != INVALID ==> val == Entry16(Table(v.g, old(v.View())), clst)
    ensures val == INVALID ==> !v.g.reliable
  {
    hide Table, SameView, v.View, LdWord;
    ghost var was := v.View();
    SameViewRefl(v.g, was);
    if clst < 2 || clst >= n {
      return 1;
    }
    val := INVALID;
    var res := v.MoveWindow(v.g.fatbase + clst / 256);
    SameTable(v.g, was, v.View());
    if res == Ok {
      WordRead(v, clst);
      val := LdWord(v.win[..], clst * 2 % 512);
    }
  }

  lemma WordRead(v: Volume, clst: nat)
    requires v.Valid() && 2 * clst + 1 < v.g.fsize * 512 && v.winsect == v.g.fatbase + clst / 256
    ensures clst * 2 % 512 + 2 <= 512 && LdWord(v.win[..], clst * 2 % 512) == Entry16(Table(v.g, v.View()), clst)
  {
    var t := Table(v.g, v.View());
    assert v.View()[v.winsect] == v.win[..];
    Halves(clst);
    assert t[2 * clst] == v.win[clst * 2 % 512] && t[2 * clst + 1] == v.win[clst * 2 % 512 + 1];
  }

  lemma Halves(c: nat)
    ensures c * 2 / 512 == c / 256 && (c * 2 + 1) / 512 == c / 256 && (c * 2 + 1) % 512 == c * 2 % 512 + 1
  {
  }

  method PutFat16(v: Volume, n: nat, clst: nat, val: nat) returns (res: FResult)
    requires v.Valid() && Holds16(v.g, n)
    modifies v`disk, v`winsect, v`wflag, v.win
    ensures v.Valid() && Untouched(v.g, old(v.View()), v.View())
    ensures res == IntErr <==> !(2 <= clst < n)
    ensures res == Ok || res == IntErr || (res == DiskErr && !v.g.reliable)
    ensures Table(v.g, v.View()) == if res == Ok then Put16Bytes(Table(v.g, old(v.View())), clst, val)
      else Table(v.g, old(v.View()))
  {
    hide Table, Untouched, SameView, v.View;
    ghost var was := v.View();
    UntouchedRefl(v.g, was);
    if clst < 2 || clst >= n {
      return IntErr;
    }
    res := v.MoveWindow(v.g.fatbase + clst / 256);
    ghost var mid := v.View();
    SameTable(v.g, was, mid);
    if res == Ok {
      StoreWord(v, clst, val % 0x1_0000);
      UntouchedTrans(v.g, was, mid, v.View());
    }
  }

  method StoreWord(v: Volume, clst: nat, w: nat)
    requires v.Valid() && 2 * clst + 1 < v.g.fsize * 512 && v.winsect == v.g.fatbase + clst / 256 && w < 0x1_0000
    modifies v`wflag, v.win
    ensures v.Valid() && v.wflag
    ensures Table(v.g, v.View()) == Patch(Table(v.g, old(v.View())), 2 * clst, Word(w))
    ensures Untouched(v.g, old(v.View()), v.View())
  {
    hide Table, Untouched, Patch, PutView;
    Halves(clst);
    ghost var was := v.View();
    ghost var s: Sector := v.win[..];
    StWord(v.win, clst * 2 % 512, w);
    v.wflag := true;
    assert was[v.winsect] == s;
    WholeStored(v, was);
    PutViewElsewhere(v.g, was, v.winsect, v.win[..]);
    WordStored(v.g, was, clst, w);
  }

  /** A dirty window over a sector of the first FAT shows in both copies. */
  lemma WholeStored(v: Volume, was: seq<Sector>)
    requires v.Valid() && v.wflag && v.g.FirstFat(v.winsect) && |was| == v.g.nsect
    requires forall s :: 0 <= s < v.g.nsect && s != v.winsect && !(v.g.nFats == 2 && s == v.winsect + v.g.fsize) ==>
      v.disk[s] == was[s]
    ensures v.View() == PutView(v.g, was, v.winsect, v.win[..])
  {
  }

  lemma WordStored(g: Geometry, view: seq<Sector>, clst: nat, w: nat)
    requires g.Wf() && |view| == g.nsect && 2 * clst + 1 < g.fsize * 512 && w < 0x1_0000
    ensures clst * 2 % 512 + 2 <= 512 && g.FirstFat(g.fatbase + clst / 256)
    ensures var s := g.fatbase + clst / 256;
            Table(g, PutView(g, view, s, Patch(view[s], clst * 2 % 512, Word(w)))) == Patch(Table(g, view), 2 * clst,
              Word(w))
  {
    Halves(clst);
    var s := g.fatbase + clst / 256;
    var p := Patch(view[s], clst * 2 % 512, Word(w));
    var v := PutView(g, view, s, p);
    var t := Patch(Table(g, view), 2 * clst, Word(w));
    hide PutView;
    PutViewElsewhere(g, view, s, p);
    forall k | 0 <= k < g.fsize * 512 ensures Table(g, v)[k] == t[k] {
      assert g.FirstFat(g.fatbase + k / 512);
      WordAt(Table(g, view), view[s], clst, Word(w), k);
    }
  }

  /** A word written into the sector that holds it is written into the FAT. */
  lemma WordAt(t: seq<byte>, s: Sector, clst: nat, w: seq<byte>, k: nat)
    requires |w| == 2 && 2 * clst + 1 < |t| && k < |t| && clst * 2 % 512 + 2 <= 512
    requires k / 512 == clst / 256 ==> t[k] == s[k % 512]
    ensures Patch(t, 2 * clst, w)[k] == if k / 512 == clst / 256 then Patch(s, clst * 2 % 512, w)[k % 512] else t[k]
  {
    Halves(clst);
    if k / 512 == clst / 256 {
      assert k - 2 * clst == k % 512 - clst * 2 % 512;
    }
  }
}
