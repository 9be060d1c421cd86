/** The mounted volume of ff.c: the device, the one-sector write-back window over it,
    and the FAT entries read and written through that window. */
module Volumes {
  import Division
  import opened Bytes
  import opened FatChains

  /** Marks no sector: `winsect` after a failed read, and the disk-error answer of `get_fat`. */
  const INVALID := 0xFFFF_FFFF

  datatype FResult = Ok | DiskErr | IntErr | Denied | NotEnoughCore

  /** The layout of a FAT32 volume, with the bounds that `find_volume` checks when mounting. */
  datatype Geometry = Geometry(
    csize: nat,     // sectors per cluster
    nFatent: nat,   // number of FAT entries: clusters + 2
    fatbase: nat,   // first sector of the first FAT
    fsize: nat,     // sectors per FAT
    nFats: nat,
    database: nat,  // first sector of cluster 2
    nsect: nat,     // sectors on the device
    reliable: bool) // whether every command in range succeeds; any other device may fail any command
  {
    /** A non-zero byte and a power of two, so that `x & (csize - 1)` is `x % csize`. */
    ghost predicate PowerOfTwo() { csize in {1, 2, 4, 8, 16, 32, 64, 128} }

    ghost predicate Wf() {
      && csize > 0 && PowerOfTwo()
      && 3 <= nFatent <= 0x0FFF_FFF7
      && nFatent * 4 <= fsize * 512
      && (nFats == 1 || nFats == 2)
      && 0 < fatbase
      && fatbase + fsize + (if nFats == 2 then fsize else 0) <= database
      && database <= nsect < INVALID
    }

    /** The device holds every sector of every cluster. */
    ghost predicate DataFits() { database + csize * (nFatent - 2) <= nsect }

    /** The index of the cluster that holds sector `k` of a chain. */
    function Index(k: nat): (i: nat)
      requires csize > 0
    {
      Division.DivMod(k, csize);
      k / csize
    }

    /** The place of sector `k` of a chain inside its cluster. */
    function Within(k: nat): (r: nat)
      requires csize > 0
      ensures r < csize
    {
      k % csize
    }

    /** Bytes per cluster. */
    function ClusterBytes(): (n: nat) { csize * 512 }

    /** The index of the cluster that holds byte `p` of a file. */
    function ClusterOf(p: nat): (i: int)
      requires csize > 0
    {
      p / ClusterBytes()
    }

    /** `p & ~(bcs - 1)`: where the cluster of byte `p` begins in the file. */
    function ClusterStart(p: nat): (s: int)
      requires csize > 0
    {
      p - p % ClusterBytes()
    }

    predicate FirstFat(s: nat) { fatbase <= s < fatbase + fsize }

    predicate SecondFat(s: nat) { nFats == 2 && fatbase + fsize <= s < fatbase + 2 * fsize }

    predicate HasEntry(c: nat) { 2 <= c < nFatent }
  }

  /** The 28-bit value of the `k`th entry of a FAT sector. */
  function Entry(s: Sector, k: nat): (v: nat)
    requires k < 128
    ensures v < 0x1000_0000
  {
    LdDword(s, 4 * k) % 0x1000_0000
  }

  /** The four reserved high bits of the `k`th entry of a FAT sector. */
  function TopNibble(s: Sector, k: nat): (v: nat)
    requires k < 128
    ensures v < 0x10
  {
    LdDword(s, 4 * k) / 0x1000_0000
  }

  /** The FAT as a table of 28-bit values. */
  ghost function FatOf(g: Geometry, view: seq<Sector>): (fat: seq<nat>)
    requires g.Wf() && |view| == g.nsect
    ensures |fat| == g.nFatent
  {
    seq(g.nFatent, c requires 0 <= c < g.nFatent => Entry(view[g.fatbase + c / 128], c % 128))
  }

  /** Both copies of the FAT hold the same sectors. */
  ghost predicate Mirrored(g: Geometry, view: seq<Sector>) {
    g.nFats == 2 ==> forall s: nat :: g.FirstFat(s) && s + g.fsize < |view| ==> view[s] == view[s + g.fsize]
  }

  /** Equal sectors, except that a device that fails may leave the second FAT behind:
      `sync_window` ignores whether that copy was written. */
  ghost predicate SameView(g: Geometry, a: seq<Sector>, b: seq<Sector>) {
    |a| == |b| && forall s :: 0 <= s < |a| && (g.reliable || !g.SecondFat(s)) ==> a[s] == b[s]
  }

  /** No sector outside the FATs differs, and if the copies of the FAT agreed they still do. */
  ghost predicate Untouched(g: Geometry, a: seq<Sector>, b: seq<Sector>) {
    && |a| == |b|
    && (forall s: nat :: s < |a| && !g.FirstFat(s) && !g.SecondFat(s) ==> a[s] == b[s])
    && (g.reliable && Mirrored(g, a) ==> Mirrored(g, b))
  }

  lemma UntouchedTrans(g: Geometry, a: seq<Sector>, b: seq<Sector>, c: seq<Sector>)
    requires Untouched(g, a, b) && Untouched(g, b, c)
    ensures Untouched(g, a, c)
  {
  }

  lemma UntouchedRefl(g: Geometry, a: seq<Sector>)
    ensures Untouched(g, a, a)
  {
  }

  lemma SameViewUntouched(g: Geometry, a: seq<Sector>, b: seq<Sector>)
    requires SameView(g, a, b)
    ensures Untouched(g, a, b)
  {
  }

  lemma SameViewRefl(g: Geometry, a: seq<Sector>)
    ensures SameView(g, a, a)
  {
  }

  lemma SameFatSectors(g: Geometry, a: seq<Sector>, b: seq<Sector>)
    requires g.Wf() && |a| == g.nsect == |b|
    requires forall s: nat :: g.FirstFat(s) ==> a[s] == b[s]
    ensures FatOf(g, a) == FatOf(g, b)
  {
    hide Entry;
    forall c: nat | c < g.nFatent ensures FatOf(g, a)[c] == FatOf(g, b)[c] {
      assert g.FirstFat(g.fatbase + c / 128);
    }
  }

  lemma SameViewSameFat(g: Geometry, a: seq<Sector>, b: seq<Sector>)
    requires g.Wf() && |a| == g.nsect && SameView(g, a, b)
    ensures FatOf(g, a) == FatOf(g, b)
    ensures g.reliable ==> a == b
  {
    forall c | 0 <= c < g.nFatent ensures FatOf(g, a)[c] == FatOf(g, b)[c] {
      assert !g.SecondFat(g.fatbase + c / 128);
    }
  }

  lemma FatAt(g: Geometry, view: seq<Sector>, clst: nat)
    requires g.Wf() && |view| == g.nsect && clst < g.nFatent
    ensures g.FirstFat(g.fatbase + clst / 128) && g.fatbase + clst / 128 < g.nsect
    ensures FatOf(g, view)[clst] == Entry(view[g.fatbase + clst / 128], clst % 128)
  {
  }

  /** The view after one dword of a first-FAT sector `s` and of its mirror was replaced. */
  ghost function PutView(g: Geometry, view: seq<Sector>, s: nat, t: Sector): (r: seq<Sector>)
    requires g.Wf() && |view| == g.nsect && g.FirstFat(s)
    ensures |r| == |view|
  {
    if g.nFats == 2 then view[s := t][s + g.fsize := t] else view[s := t]
  }

  /** What `put_fat` stores: the low 28 bits of `val` under the old high nibble. */
  function Merge(old_: nat, val: nat): (v: nat)
    requires old_ < 0x1_0000_0000
    ensures v < 0x1_0000_0000
    ensures v % 0x1000_0000 == val % 0x1000_0000 && v / 0x1000_0000 == old_ / 0x1000_0000
  {
    val % 0x1000_0000 + old_ / 0x1000_0000 * 0x1000_0000
  }

  /** Storing one dword of a FAT sector leaves its other dwords. */
  lemma SectorPut(s: Sector, e: nat, val: nat, t: Sector)
    requires e < 128
    requires t == Patch(s, 4 * e, Dword(Merge(LdDword(s, 4 * e), val)))
    ensures forall k: nat :: k < 128 ==> Entry(t, k) == if k == e then val % 0x1000_0000 else Entry(s, k)
    ensures forall k: nat :: k < 128 ==> TopNibble(t, k) == TopNibble(s, k)
  {
    var v := Merge(LdDword(s, 4 * e), val);
    forall k: nat | k < 128
      ensures Entry(t, k) == if k == e then val % 0x1000_0000 else Entry(s, k)
      ensures TopNibble(t, k) == TopNibble(s, k)
    {
      DwordFrame(s, 4 * e, v, 4 * k);
    }
  }

  /** `w` is `v` with the entry of `clst` set to the low 28 bits of `val`, in both FATs:
      no other entry, no reserved nibble and no sector outside the FATs differs. */
  ghost predicate EntryPut(g: Geometry, v: seq<Sector>, clst: nat, val: nat, w: seq<Sector>)
    requires g.Wf() && |v| == g.nsect && g.HasEntry(clst)
  {
    && |w| == g.nsect
    && FatOf(g, w) == FatOf(g, v)[clst := val % 0x1000_0000]
    && Untouched(g, v, w)
    && (Mirrored(g, v) ==> Mirrored(g, w))
    && (forall s: nat, k: nat :: g.FirstFat(s) && k < 128 ==> TopNibble(w[s], k) == TopNibble(v[s], k))
  }

  /** Storing one entry changes that entry of the table and nothing else of it. */
  lemma PutViewFat(g: Geometry, view: seq<Sector>, clst: nat, val: nat, t: Sector)
    requires g.Wf() && |view| == g.nsect && clst < g.nFatent
    requires forall k: nat :: k < 128 ==>
      Entry(t, k) == if k == clst % 128 then val else Entry(view[g.fatbase + clst / 128], k)
    ensures FatOf(g, PutView(g, view, g.fatbase + clst / 128, t)) == FatOf(g, view)[clst := val]
  {
    hide Entry;
    var fs := g.fatbase + clst / 128;
    var view' := PutView(g, view, fs, t);
    forall c | 0 <= c < g.nFatent
      ensures FatOf(g, view')[c] == FatOf(g, view)[clst := val][c]
    {
      var cs := g.fatbase + c / 128;
      assert view'[cs] == if cs == fs then t else view[cs];
      if cs == fs && c % 128 == clst % 128 {
        assert c == clst;
      }
    }
  }

  lemma PutViewElsewhere(g: Geometry, view: seq<Sector>, n: nat, t: Sector)
    requires g.Wf() && |view| == g.nsect && g.FirstFat(n)
    ensures Untouched(g, view, PutView(g, view, n, t))
    ensures Mirrored(g, view) ==> Mirrored(g, PutView(g, view, n, t))
    ensures forall s: nat :: g.FirstFat(s) ==> PutView(g, view, n, t)[s] == if s == n then t else view[s]
  {
  }

  lemma PutIsEntryPut(g: Geometry, view: seq<Sector>, clst: nat, val: nat, t: Sector)
    requires g.Wf() && |view| == g.nsect && g.HasEntry(clst)
    requires var s := view[g.fatbase + clst / 128];
             t == Patch(s, 4 * (clst % 128), Dword(Merge(LdDword(s, 4 * (clst % 128)), val)))
    ensures EntryPut(g, view, clst, val, PutView(g, view, g.fatbase + clst / 128, t))
  {
    hide LdDword, Entry, TopNibble, Merge, Dword, Patch, FatOf;
    SectorPut(view[g.fatbase + clst / 128], clst % 128, val, t);
    PutViewFat(g, view, clst, val % 0x1000_0000, t);
    PutViewElsewhere(g, view, g.fatbase + clst / 128, t);
    hide PutView, Untouched, Mirrored;
  }

  class Volume {
    const g: Geometry
    var disk: seq<Sector>
    const win: array<byte>
    var winsect: nat
    var wflag: bool
    var freeClst: nat   // number of free clusters, out of range when unknown
    var lastClst: nat   // last allocated cluster
    var fsiDirty: bool

    /** The window is invalid, or holds a sector of the device that it may have changed. */
    ghost predicate Valid()
      reads `disk, `winsect, `wflag, win
    {
      && g.Wf() && win.Length == 512 && |disk| == g.nsect
      && (winsect < g.nsect || (winsect == INVALID && !wflag))
      && (winsect < g.nsect && !wflag ==> win[..] == disk[winsect])
    }

    /** The logical disk: the device with the window laid over it, and over the mirror
        of the window while that write is still pending. */
    ghost function View(): (v: seq<Sector>)
      requires Valid()
      reads `disk, `winsect, `wflag, win
      ensures |v| == g.nsect
    {
      if winsect == INVALID then disk
      else if wflag && g.nFats == 2 && g.FirstFat(winsect) then disk[winsect := win[..]][winsect + g.fsize := win[..]]
      else disk[winsect := win[..]]
    }

    ghost function Fat(): (fat: seq<nat>)
      requires Valid()
      reads `disk, `winsect, `wflag, win
      ensures |fat| == g.nFatent
    {
      FatOf(g, View())
    }

    /** `disk_read`. */
    method DiskRead(sector: nat, count: nat) returns (ok: bool, data: seq<Sector>)
      requires Valid()
      ensures |data| == count
      ensures ok ==> sector + count <= g.nsect && data == disk[sector..sector + count]
      ensures g.reliable && sector + count <= g.nsect ==> ok
    {
      var junk: seq<Sector> := seq(count, _ => seq(512, _ => 0));
      ok := *;
      if sector + count <= g.nsect && (g.reliable || ok) {
        return true, disk[sector..sector + count];
      }
      return false, junk;
    }

    /** `disk_write`. A failed write leaves the addressed sectors in any state. */
    method DiskWrite(sector: nat, data: seq<Sector>) returns (ok: bool)
      requires |disk| == g.nsect
      modifies this`disk
      ensures |disk| == g.nsect
      ensures forall s :: 0 <= s < g.nsect && !(sector <= s < sector + |data|) ==> disk[s] == old(disk[s])
      ensures ok ==> sector + |data| <= g.nsect && disk[sector..sector + |data|] == data
      ensures g.reliable && sector + |data| <= g.nsect ==> ok
    {
      ok := *;
      if sector + |data| <= g.nsect {
        if g.reliable || ok {
          disk := disk[..sector] + data + disk[sector + |data|..];
          return true;
        }
        var torn: seq<Sector> := seq(|data|, _ => seq(512, _ => 0));
        disk := disk[..sector] + torn + disk[sector + |data|..];
      }
      return false;
    }

    /** `disk_read` of data sectors that the window does not hold. */
    method ReadData(sector: nat, count: nat) returns (ok: bool, data: seq<Sector>)
      requires Valid() && g.database <= sector && !(sector <= winsect < sector + count)
      ensures |data| == count
      ensures ok ==> sector + count <= g.nsect && data == View()[sector..sector + count]
      ensures g.reliable && sector + count <= g.nsect ==> ok
    {
      ok, data := DiskRead(sector, count);
    }

    /** `disk_write` of data sectors that the window does not hold. */
    method WriteData(sector: nat, data: seq<Sector>) returns (ok: bool)
      requires Valid() && g.database <= sector && !(sector <= winsect < sector + |data|)
      modifies this`disk
      ensures Valid() && Fat() == old(Fat())
      ensures forall s: nat :: s < g.nsect && !(sector <= s < sector + |data|) ==> View()[s] == old(View())[s]
      ensures ok ==> sector + |data| <= g.nsect && View()[sector..sector + |data|] == data
      ensures g.reliable && sector + |data| <= g.nsect ==> ok
    {
      ghost var v := View();
      ok := DiskWrite(sector, data);
      assert ok ==> View()[sector..sector + |data|] == disk[sector..sector + |data|];
      SameFatSectors(g, v, View());
    }

    /** `sync_window`: write the window back, and to the second FAT when it is a FAT sector. */
    method SyncWindow() returns (res: FResult)
      requires Valid()
      modifies this`disk, this`wflag
      ensures Valid()
      ensures res == Ok || res == DiskErr
      ensures g.reliable ==> res == Ok
      ensures res == Ok ==> !wflag
      ensures SameView(g, old(View()), View()) && Fat() == old(Fat())
    {
      res := Ok;
      ghost var was := View();
      if wflag {
        var ok := DiskWrite(winsect, [win[..]]);
        if ok {
          wflag := false;
          assert disk[winsect] == disk[winsect..winsect + 1][0];
          if g.FirstFat(winsect) {
            if g.nFats == 2 {
              var ignored := DiskWrite(winsect + g.fsize, [win[..]]);
              assert ignored ==> disk[winsect + g.fsize] == disk[winsect + g.fsize..winsect + g.fsize + 1][0];
            }
          }
        } else {
          res := DiskErr;
        }
      }
      SameViewSameFat(g, was, View());
    }

    /** `move_window`: bring `sector` into the window. */
    method MoveWindow(sector: nat) returns (res: FResult)
      requires Valid()
      modifies this`disk, this`winsect, this`wflag, win
      ensures Valid()
      ensures res == Ok || res == DiskErr
      ensures g.reliable && sector < g.nsect ==> res == Ok
      ensures res == Ok ==> winsect == sector
      ensures res != Ok ==> winsect == old(winsect) || winsect == INVALID
      ensures SameView(g, old(View()), View()) && Fat() == old(Fat())
      ensures Untouched(g, old(View()), View())
    {
      res := Ok;
      ghost var was := View();
      if sector != winsect {
        res := SyncWindow();
        if res == Ok {
          ghost var synced := View();
          var ok, data := DiskRead(sector, 1);
          CopyIn(win, 0, data[0], 0, 512);
          assert win[..] == data[0];
          if !ok {
            winsect := INVALID;
            res := DiskErr;
          } else {
            winsect := sector;
            assert win[..] == disk[sector];
          }
          assert View() == disk == synced;
        }
      }
      SameViewSameFat(g, was, View());
      SameViewUntouched(g, was, View());
    }

    lemma WindowEntry(clst: nat)
      requires Valid() && g.HasEntry(clst) && winsect == g.fatbase + clst / 128
      ensures LdDword(win[..], clst * 4 % 512) % 0x1000_0000 == Fat()[clst]
    {
      hide LdDword, FatOf;
      assert clst * 4 % 512 == 4 * (clst % 128);
      assert View()[winsect] == win[..];
      FatAt(g, View(), clst);
    }

    /** `get_fat`: the entry of `clst`, 1 when there is no such entry, INVALID on a disk error. */
    method GetFat(clst: nat) returns (val: nat)
      requires Valid()
      modifies this`disk, this`winsect, this`wflag, win
      ensures Valid()
      ensures !g.HasEntry(clst) ==> val == 1
      ensures g.HasEntry(clst) && val != 0xFFFF_FFFF ==> val == Fat()[clst]
      ensures val == 0xFFFF_FFFF ==> !g.reliable
      ensures SameView(g, old(View()), View()) && Fat() == old(Fat())
      ensures Untouched(g, old(View()), View())
      ensures winsect == old(winsect) || winsect == INVALID || g.FirstFat(winsect)
      ensures g.HasEntry(clst) && val != 0xFFFF_FFFF ==> g.FirstFat(winsect)
    {
      hide FatOf, SameView, Untouched, View, Entry, LdDword;
      FatAt(g, View(), if g.HasEntry(clst) then clst else 2);
      if clst < 2 || clst >= g.nFatent {
        SameViewRefl(g, View());
        UntouchedRefl(g, View());
        return 1;
      }
      val := INVALID;
      var res := MoveWindow(g.fatbase + clst / 128);
      if res == Ok {
        WindowEntry(clst);
        val := LdDword(win[..], clst * 4 % 512) % 0x1000_0000;
      }
    }

    /** The store of `put_fat`, once the sector of the entry is in the window. */
    method PutEntry(clst: nat, val: nat)
      requires Valid() && val < 0x1_0000_0000 && g.HasEntry(clst) && winsect == g.fatbase + clst / 128
      modifies this`wflag, win
      ensures Valid() && wflag
      ensures EntryPut(g, old(View()), clst, val, View())
    {
      hide LdDword, Merge, Entry, TopNibble, Dword, Mirrored, Patch, FatOf, EntryPut;
      FatAt(g, View(), clst);
      ghost var v := View();
      ghost var s: Sector := win[..];
      var merged := Merge(LdDword(win[..], clst * 4 % 512), val);
      StDword(win, clst * 4 % 512, merged);
      wflag := true;
      assert clst * 4 % 512 == 4 * (clst % 128);
      assert v[winsect] == s;
      assert View() == PutView(g, v, winsect, win[..]);
      PutIsEntryPut(g, v, clst, val, win[..]);
    }

    /** `put_fat`: store the low 28 bits of `val` in the entry of `clst`. */
    method PutFat(clst: nat, val: nat) returns (res: FResult)
      requires Valid() && val < 0x1_0000_0000
      modifies this`disk, this`winsect, this`wflag, win
      ensures Valid()
      ensures res == Ok || res == DiskErr || res == IntErr
      ensures res == IntErr <==> !g.HasEntry(clst)
      ensures g.reliable && g.HasEntry(clst) ==> res == Ok
      ensures res == Ok ==> exists v :: SameView(g, old(View()), v) && EntryPut(g, v, clst, val, View())
      ensures res != Ok ==> SameView(g, old(View()), View())
      ensures Untouched(g, old(View()), View())
      ensures Fat() == if res == Ok then old(Fat())[clst := val % 0x1000_0000] else old(Fat())
      ensures winsect == old(winsect) || winsect == INVALID || g.FirstFat(winsect)
      ensures res == Ok ==> g.FirstFat(winsect) && wflag
    {
      hide FatOf, TopNibble, SameView, Mirrored, Untouched;
      SameViewRefl(g, View());
      ghost var was := View();
      UntouchedRefl(g, was);
      res := IntErr;
      if clst >= 2 && clst < g.nFatent {
        FatAt(g, View(), clst);
        res := MoveWindow(g.fatbase + clst / 128);
        if res == Ok {
          ghost var moved := View();
          PutEntry(clst, val);
          UntouchedTrans(g, was, moved, View());
        }
      }
    }

    lemma ScannedEntry(k: nat)
      requires Valid() && k < g.nFatent && winsect == g.fatbase + k / 128
      ensures Entry(win[..], k % 128) == Fat()[k]
    {
      hide Entry, FatOf;
      assert View()[winsect] == win[..];
      FatAt(g, View(), k);
    }
  }
}
