/** A directory as the chain of clusters it is kept in: clearing a cluster, setting the position and moving it on, with
    the table stretched by a cleared cluster when it ends (`dir_clear`, `dir_sdi` and `dir_next` of ff.c). */
module DirTable {
  import Division
  import opened Bytes
  import opened FatChains
  import opened Volumes
  import opened ClusterAlloc
  import opened FileLayout
  import opened DiskLayout
  import Directories
  import LongNames

  const MAX_DIR: nat := 0x20_0000

  function ZeroSector(): (s: Sector)
    ensures forall k :: 0 <= k < 512 ==> s[k] == 0
  {
    seq(512, _ => 0)
  }

  // ---------------------------------------------------------------- dir_clear

  /** Every sector of the cluster is zero, and nothing else differs but for a second FAT that a failing device left
      behind. */
  ghost predicate Cleared(g: Geometry, a: seq<Sector>, b: seq<Sector>, c: nat) {
    && |a| == |b|
    && (forall s: nat :: s < |b| && InCluster(g, c, s) ==> b[s] == ZeroSector())
    && (forall s: nat :: s < |b| && !InCluster(g, c, s) && (g.reliable || !g.SecondFat(s)) ==> b[s] == a[s])
  }

  /** The device with the sectors from `sect` on, `n` of them, zero. */
  ghost predicate ZeroedTo(a: seq<Sector>, b: seq<Sector>, sect: nat, n: nat) {
    && |a| == |b|
    && (forall s: nat :: s < |b| && sect <= s < sect + n ==> b[s] == ZeroSector())
    && (forall s: nat :: s < |b| && !(sect <= s < sect + n) ==> b[s] == a[s])
  }

  /** The writing loop of `dir_clear`. */
  method WriteZeros(fs: Volume, sect: nat) returns (ok: bool)
    requires |fs.disk| == fs.g.nsect && sect + fs.g.csize <= fs.g.nsect && fs.win.Length == 512
      && fs.win[..] == ZeroSector()
    modifies fs`disk
    ensures |fs.disk| == fs.g.nsect && (fs.g.reliable ==> ok)
    ensures ok ==> ZeroedTo(old(fs.disk), fs.disk, sect, fs.g.csize)
  {
    var n := 0;
    ok := true;
    while n < fs.g.csize
      invariant 0 <= n <= fs.g.csize && |fs.disk| == fs.g.nsect && ok && ZeroedTo(old(fs.disk), fs.disk, sect, n)
    {
      ghost var was := fs.disk;
      ok := fs.DiskWrite(sect + n, [fs.win[..]]);
      if !ok {
        return;
      }
      assert fs.disk[sect + n] == fs.disk[sect + n..sect + n + 1][0];
      n := n + 1;
    }
  }

  lemma ZeroedCleared(g: Geometry, a: seq<Sector>, mid: seq<Sector>, b: seq<Sector>, c: nat)
    requires Base(g, c) >= 0 && SameView(g, a, mid) && ZeroedTo(mid, b, Base(g, c), g.csize)
    ensures Cleared(g, a, b, c)
  {
  }

  lemma ClearedFat(g: Geometry, a: seq<Sector>, b: seq<Sector>, c: nat)
    requires g.Wf() && g.DataFits() && g.HasEntry(c) && |a| == g.nsect && Cleared(g, a, b, c)
    ensures FatOf(g, b) == FatOf(g, a) && OnlyOwn(g, [c], a, b)
  {
    BaseBounds(g, c);
    forall s: nat | g.FirstFat(s) || g.SecondFat(s) ensures !InCluster(g, c, s) {
    }
    forall s: nat | InCluster(g, c, s) ensures Own(g, [c], s) {
      assert c in [c];
    }
    hide Base, InCluster, Own, Geometry.DataFits;
    SameFatSectors(g, a, b);
  }

  /** `dir_clear`: every sector of the cluster is zero. When the device fails the window may be left claiming a sector
      that it does not hold. */
  method DirClear(fs: Volume, clst: nat) returns (ok: bool)
    requires fs.Valid() && fs.g.DataFits() && fs.g.HasEntry(clst)
    modifies fs`disk, fs`winsect, fs`wflag, fs.win
    ensures fs.g.reliable ==> ok
    ensures ok ==> fs.Valid() && fs.Fat() == old(fs.Fat()) && Cleared(fs.g, old(fs.View()), fs.View(), clst)
    ensures ok ==> fs.winsect == Base(fs.g, clst) && !fs.wflag
  {
    hide FatOf, Volume.View, SameView, Cleared, Geometry.DataFits, Base;
    ghost var v := fs.View();
    BaseBounds(fs.g, clst);
    var res := fs.SyncWindow();
    if res != Ok {
      return false;
    }
    ghost var mid := fs.View();
    CleanView(fs);
    var sect := Clst2Sect(fs.g, clst);
    ok := ClearAt(fs, sect);
    if ok {
      CleanView(fs);
      ZeroedCleared(fs.g, v, mid, fs.View(), clst);
      ClearedFat(fs.g, v, fs.View(), clst);
    }
  }

  /** The window becomes the first sector of the cluster, full of zeros, and is written to all of them. */
  method ClearAt(fs: Volume, sect: nat) returns (ok: bool)
    requires fs.Valid() && !fs.wflag && fs.g.database <= sect && sect + fs.g.csize <= fs.g.nsect
    modifies fs`disk, fs`winsect, fs.win
    ensures fs.g.reliable ==> ok
    ensures ok ==> fs.Valid() && fs.winsect == sect && ZeroedTo(old(fs.disk), fs.disk, sect, fs.g.csize)
  {
    fs.winsect := sect;
    CopyIn(fs.win, 0, ZeroSector(), 0, 512);
    assert fs.win[..] == ZeroSector();
    ok := WriteZeros(fs, sect);
  }

  lemma CleanView(fs: Volume)
    requires fs.Valid() && !fs.wflag
    ensures fs.View() == fs.disk
  {
  }

  // ---------------------------------------------------------------- the position

  /** Byte `dptr` of the directory lies in sector `sect`, in cluster `clust`. */
  ghost predicate Placed(g: Geometry, cs: seq<nat>, dptr: nat, clust: nat, sect: nat)
    requires g.csize > 0
  {
    && dptr % 32 == 0 && InFile(g, cs, dptr / 512)
    && clust == cs[g.Index(dptr / 512)] && sect == Lba(g, cs, dptr / 512)
  }

  /** After `i` clusters of the chain, `rest` bytes are still to go. */
  ghost predicate Walked(g: Geometry, ofs: nat, i: nat, rest: nat)
    requires g.csize > 0
  {
    ofs == g.csize * i * 512 + rest
  }

  lemma WalkStart(g: Geometry, ofs: nat)
    requires g.csize > 0
    ensures Walked(g, ofs, 0, ofs)
  {
  }

  lemma WalkOn(g: Geometry, ofs: nat, i: nat, rest: nat)
    requires g.csize > 0 && Walked(g, ofs, i, rest) && rest >= g.csize * 512
    ensures Walked(g, ofs, i + 1, rest - g.csize * 512)
  {
    assert g.csize * (i + 1) == g.csize * i + g.csize;
  }

  lemma WalkEnd(g: Geometry, ofs: nat, i: nat, rest: nat)
    requires g.csize > 0 && Walked(g, ofs, i, rest)
    ensures rest < g.csize * 512 ==> g.Index(ofs / 512) == i && g.Within(ofs / 512) == rest / 512
    ensures rest >= g.csize * 512 ==> g.Index(ofs / 512) > i
  {
    var q := rest / 512;
    assert ofs / 512 == g.csize * i + q;
    if rest < g.csize * 512 {
      Division.Unique(g.csize, i, q);
    } else {
      WalkOn(g, ofs, i, rest);
      assert ofs / 512 >= g.csize * (i + 1);
      Division.Unique(g.csize, i + 1, 0);
      Division.Monotone(g.csize * (i + 1), ofs / 512, g.csize);
    }
  }

  /** What follows the `i`th cluster of a chain in the table. */
  lemma ChainNext(g: Geometry, fat: seq<nat>, cs: seq<nat>, i: nat)
    requires |fat| == g.nFatent && IsChain(fat, cs) && i < |cs|
    ensures g.HasEntry(cs[i])
    ensures i + 1 < |cs| ==> fat[cs[i]] == cs[i + 1] && g.HasEntry(cs[i + 1])
    ensures i + 1 == |cs| ==> fat[cs[i]] >= g.nFatent
  {
    assert Cluster(fat, cs[i]);
    assert i + 1 < |cs| ==> Cluster(fat, cs[i + 1]);
  }

  lemma PlacedAt(g: Geometry, cs: seq<nat>, ofs: nat, i: nat, rest: nat)
    requires g.Wf() && g.DataFits() && Clusters(g, cs) && Walked(g, ofs, i, rest) && i < |cs| && rest < g.csize * 512
      && ofs % 32 == 0
    ensures Base(g, cs[i]) > 0 && Placed(g, cs, ofs, cs[i], Base(g, cs[i]) + rest / 512)
  {
    WalkEnd(g, ofs, i, rest);
    BaseBounds(g, cs[i]);
    LbaInside(g, cs, ofs / 512);
  }

  datatype DirResult = Moved | EndOfTable | NoRoom | DeviceError | Damage

  /** A directory object (`DIR`): `first` is the start cluster, the root's if that is noted as 0. */
  class Dir {
    const fs: Volume
    const first: nat
    var dptr: nat
    var clust: nat
    var sect: nat
    ghost var chain: seq<nat>

    ghost predicate Ready()
      reads this, fs, fs.win
    {
      fs.Valid() && fs.g.DataFits() && IsChain(fs.Fat(), chain) && chain[0] == first
    }

    ghost predicate There()
      reads this, fs, fs.win
    {
      Ready() && Placed(fs.g, chain, dptr, clust, sect)
    }

    constructor (fs: Volume, first: nat, chain: seq<nat>)
      requires fs.Valid() && fs.g.DataFits() && IsChain(fs.Fat(), chain) && chain[0] == first
      ensures Ready() && this.fs == fs && this.chain == chain && sect == 0
    {
      this.fs, this.first, this.chain, this.dptr, this.clust, this.sect := fs, first, chain, 0, 0, 0;
    }

    /** The cluster of byte `ofs` of the table, and the way left in it. */
    method Follow(ofs: nat) returns (res: DirResult, c: nat, rest: nat, ghost i: nat)
      requires Ready()
      modifies fs`disk, fs`winsect, fs`wflag, fs.win
      ensures Ready() && fs.Fat() == old(fs.Fat()) && Untouched(fs.g, old(fs.View()), fs.View())
      ensures WindowMoved(fs.g, old(fs.winsect), fs.winsect)
      ensures res == Moved || (res == DeviceError && !fs.g.reliable) || res == Damage
      ensures res == Moved ==> i < |chain| && c == chain[i] && Walked(fs.g, ofs, i, rest) && rest < fs.g.csize * 512
      ensures res == Damage ==> !InFile(fs.g, chain, ofs / 512)
    {
      hide FatOf, Volume.View, Untouched, SameView, Geometry.DataFits, IsChain, Walked, Geometry.Index;
      ghost var v, fat := fs.View(), fs.Fat();
      UntouchedRefl(fs.g, v);
      WalkStart(fs.g, ofs);
      ChainHas(fs.g, fat, chain);
      res, c, rest, i := Damage, first, ofs, 0;
      while rest >= fs.g.csize * 512
        invariant res == Damage && Ready() && fs.Fat() == fat && Untouched(fs.g, v, fs.View())
        invariant WindowMoved(fs.g, old(fs.winsect), fs.winsect)
        invariant 0 <= i < |chain| && c == chain[i] && Walked(fs.g, ofs, i, rest)
        decreases rest
      {
        ghost var v1 := fs.View();
        WalkEnd(fs.g, ofs, i, rest);
        ChainNext(fs.g, fat, chain, i);
        WalkOn(fs.g, ofs, i, rest);
        c := fs.GetFat(c);
        UntouchedTrans(fs.g, v, v1, fs.View());
        if c == INVALID {
          res := DeviceError;
          return;
        }
        if c < 2 || c >= fs.g.nFatent {
          return;
        }
        rest := rest - fs.g.csize * 512;
        i := i + 1;
      }
      res := Moved;
    }

    /** `dir_sdi`: to byte `ofs` of the table, which is there just if the chain is long enough. */
    method DirSdi(ofs: nat) returns (res: DirResult)
      requires Ready()
      modifies `dptr, `clust, `sect, fs`disk, fs`winsect, fs`wflag, fs.win
      ensures Ready() && fs.Fat() == old(fs.Fat()) && Untouched(fs.g, old(fs.View()), fs.View())
      ensures WindowMoved(fs.g, old(fs.winsect), fs.winsect)
      ensures res == Moved || (res == DeviceError && !fs.g.reliable) || res == Damage
      ensures res == Moved ==> There() && dptr == ofs && sect != 0
      ensures res != DeviceError ==>
        (res == Moved <==> ofs < 0x20_0000 && ofs % 32 == 0 && InFile(fs.g, chain, ofs / 512))
    {
      hide FatOf, Volume.View, Untouched, SameView, Geometry.DataFits, IsChain, Walked, Base, Geometry.Index,
        Geometry.Within;
      UntouchedRefl(fs.g, fs.View());
      if ofs >= MAX_DIR || ofs % 32 != 0 {
        return Damage;
      }
      dptr := ofs;
      var c, rest;
      ghost var i;
      res, c, rest, i := Follow(ofs);
      if res == Moved {
        ChainNext(fs.g, fs.Fat(), chain, i);
        ChainClusters(fs.g, fs.Fat(), chain);
        PlacedAt(fs.g, chain, ofs, i, rest);
        clust := c;
        sect := Clst2Sect(fs.g, c) + rest / 512;
      }
    }

    /** The next cluster of the table: the one that follows `clust`, or a new one, cleared, if the table is to be
        stretched; `EndOfTable` if it ends here. */
    method NextCluster(stretch: bool) returns (res: DirResult, c: nat)
      requires Ready() && fs.g.Index(dptr / 512) < |chain| && clust == chain[fs.g.Index(dptr / 512)]
      modifies `chain, fs, fs.win
      ensures res != DeviceError ==> Ready() && WindowIn(fs.g, chain, old(fs.winsect), fs.winsect)
      ensures res != Moved ==> chain == old(chain)
      ensures res == DeviceError ==> !fs.g.reliable
      ensures res != Moved && res != DeviceError ==>
        fs.Fat() == old(fs.Fat()) && Untouched(fs.g, old(fs.View()), fs.View())
      ensures res != DeviceError && old(CountOk(fs)) ==> CountOk(fs)
      ensures res == Damage ==> stretch && Damaged(old(fs.Fat()))
      ensures res == Moved ==>
        old(chain) <= chain && fs.g.Index(dptr / 512) + 1 < |chain| && c == chain[fs.g.Index(dptr / 512) + 1]
      ensures res == EndOfTable ==> !stretch && fs.g.Index(dptr / 512) + 1 == |chain|
      ensures chain != old(chain) ==> fs.g.Index(dptr / 512) + 1 == |old(chain)|
      ensures res == NoRoom ==> stretch && (old(CountOk(fs)) ==> FreeCount(old(fs.Fat())) == 0)
      ensures res == NoRoom || res == Damage ==> fs.g.Index(dptr / 512) + 1 == |chain|
      ensures res == Moved && chain == old(chain) ==>
        fs.Fat() == old(fs.Fat()) && Untouched(fs.g, old(fs.View()), fs.View())
      ensures res == Moved && chain != old(chain) ==>
                && stretch && chain == old(chain) + [c] && Grown(old(fs.Fat()), old(chain), fs.Fat(), chain)
                && StretchedBy(fs.g, old(fs.View()), fs.View(), c)
    {
      hide FatOf, Volume.View, Untouched, SameView, Geometry.DataFits, IsChain, Base, Geometry.Index,
        Geometry.Within, FreeCount, Grown, Cleared, Damaged, StretchedBy, Own;
      ghost var v, fat, i := fs.View(), fs.Fat(), fs.g.Index(dptr / 512);
      ChainNext(fs.g, fat, chain, i);
      c := fs.GetFat(clust);
      if c <= 1 {
        res := Damage;
        return;
      }
      if c == INVALID {
        return DeviceError, c;
      }
      if c < fs.g.nFatent {
        return Moved, c;
      }
      if !stretch {
        return EndOfTable, c;
      }
      ghost var v1, w1 := fs.View(), fs.winsect;
      assert old(CountOk(fs)) ==> CountOk(fs);
      res, c := Stretch();
      if res != DeviceError {
        WindowInTrans(fs.g, old(chain), chain, old(fs.winsect), w1, fs.winsect);
      }
      if res == Moved {
        StretchTrans(fs.g, v, v1, fs.View(), c);
      } else if res != DeviceError {
        UntouchedTrans(fs.g, v, v1, fs.View());
      }
    }

    /** A cluster more at the end of the table, cleared. */
    method Stretch() returns (res: DirResult, c: nat)
      requires Ready() && clust == chain[|chain| - 1]
      modifies `chain, fs, fs.win
      ensures res != DeviceError ==> Ready() && WindowIn(fs.g, chain, old(fs.winsect), fs.winsect)
      ensures res == Moved || (res == DeviceError && !fs.g.reliable) || (res == Damage && Damaged(old(fs.Fat())))
        || res == NoRoom
      ensures res == NoRoom ==> old(CountOk(fs)) ==> FreeCount(old(fs.Fat())) == 0
      ensures res != Moved ==> chain == old(chain)
      ensures res == NoRoom || res == Damage ==> fs.Fat() == old(fs.Fat()) && Untouched(fs.g, old(fs.View()), fs.View())
      ensures res != DeviceError && old(CountOk(fs)) ==> CountOk(fs)
      ensures res == Moved ==> chain == old(chain) + [c] && Grown(old(fs.Fat()), old(chain), fs.Fat(), chain)
      ensures res == Moved ==> StretchedBy(fs.g, old(fs.View()), fs.View(), c)
    {
      hide FatOf, Volume.View, Untouched, SameView, Geometry.DataFits, FreeUpTo, Grown, Cleared, Damaged, NextFit,
        Created, Own, Base;
      ghost var v, fat, free, cs := fs.View(), fs.Fat(), fs.freeClst, chain;
      ChainNext(fs.g, fat, chain, |chain| - 1);
      NoneFree(fat, |fat|);
      c := CreateChain(fs, clust);
      if c == 0 {
        return NoRoom, c;
      }
      if c == 1 {
        return Damage, c;
      }
      if c == INVALID {
        return DeviceError, c;
      }
      TakenGrows(fs.g, fat, fs.Fat(), free, fs.freeClst, old(fs.lastClst), fs.lastClst, chain, c);
      ghost var mid := fs.View();
      var ok := DirClear(fs, c);
      if !ok {
        return DeviceError, c;
      }
      StretchIs(fs.g, v, mid, fs.View(), c);
      chain := chain + [c];
      FirstOwn(fs.g, chain, |chain| - 1);
      res := Moved;
    }

    /** `dir_next`: on by one entry. The table is stretched by a cleared cluster if it ends here and `stretch` says
        so. */
    method DirNext(stretch: bool) returns (res: DirResult)
      requires There() && sect != 0
      modifies this, fs, fs.win
      ensures res != DeviceError ==> Ready() && WindowIn(fs.g, chain, old(fs.winsect), fs.winsect)
      ensures res == DeviceError ==> !fs.g.reliable
      ensures res == Damage ==> stretch && Damaged(old(fs.Fat()))
      ensures res == Moved ==> There() && sect != 0 && dptr == old(dptr) + 32 < 0x20_0000 && old(chain) <= chain
      ensures res != Moved && res != DeviceError ==> chain == old(chain) && dptr == old(dptr)
      ensures res != Moved && res != DeviceError ==>
        fs.Fat() == old(fs.Fat()) && Untouched(fs.g, old(fs.View()), fs.View())
      ensures res != DeviceError && old(CountOk(fs)) ==> CountOk(fs)
      ensures res == EndOfTable ==>
        sect == 0 && (old(dptr) + 32 >= 0x20_0000 || (!stretch && !InFile(fs.g, chain, (old(dptr) + 32) / 512)))
      ensures res == NoRoom ==> stretch && (old(CountOk(fs)) ==> FreeCount(old(fs.Fat())) == 0)
      ensures res == NoRoom || res == Damage ==> !InFile(fs.g, chain, (dptr + 32) / 512)
      ensures res == Moved && chain == old(chain) ==>
        fs.Fat() == old(fs.Fat()) && Untouched(fs.g, old(fs.View()), fs.View())
      ensures res == Moved && chain != old(chain) ==>
                && !InFile(fs.g, old(chain), dptr / 512)
                && stretch && chain == old(chain) + [clust] && Grown(old(fs.Fat()), old(chain), fs.Fat(), chain)
                && StretchedBy(fs.g, old(fs.View()), fs.View(), clust)
    {
      hide FatOf, Volume.View, Untouched, SameView, Geometry.DataFits, IsChain, Base, Geometry.Index,
        Geometry.Within, FreeCount, Grown, Cleared, Damaged, StretchedBy, Own;
      hide Lba, Placed;
      ghost var k, cs := dptr / 512, chain;
      UntouchedRefl(fs.g, fs.View());
      Steps(fs.g, fs.Fat(), chain, dptr, clust, sect);
      var ofs := dptr + 32;
      if ofs >= MAX_DIR {
        sect := 0;
      }
      if sect == 0 {
        return EndOfTable;
      }
      if ofs % 512 == 0 {
        sect := sect + 1;
        if fs.g.Within(ofs / 512) == 0 {
          var c;
          res, c := NextCluster(stretch);
          if res != Moved {
            if res == EndOfTable {
              sect := 0;
            }
            return;
          }
          AtNewCluster(fs.g, fs.Fat(), chain, dptr, c);
          clust := c;
          sect := Clst2Sect(fs.g, c);
        }
      }
      dptr := ofs;
      res := Moved;
    }
  }

  lemma FirstOwn(g: Geometry, cs: seq<nat>, i: nat)
    requires g.csize > 0 && i < |cs| && Base(g, cs[i]) >= 0
    ensures Own(g, cs, Base(g, cs[i]))
  {
    assert cs[i] in cs && InCluster(g, cs[i], Base(g, cs[i]));
  }

  /** What `create_chain` did at the end of a chain. */
  lemma TakenGrows(g: Geometry, fat: seq<nat>, fat': seq<nat>, free: nat, free': nat, last: nat, last': nat,
    cs: seq<nat>, r: nat)
    requires g.Wf() && |fat| == g.nFatent == |fat'| && IsChain(fat, cs) && r >= 2 && r != INVALID
    requires CreateSpec(g, fat, fat', free, free', last, last', cs[|cs| - 1], r)
    ensures g.HasEntry(r) && Grown(fat, cs, fat', cs + [r]) && IsChain(fat', cs + [r]) && (cs + [r])[0] == cs[0]
  {
    ChainNext(g, fat, cs, |cs| - 1);
    CreatedGrows(fat, cs, r);
    hide UsedBetween, Created;
  }

  lemma StretchIs(g: Geometry, a: seq<Sector>, mid: seq<Sector>, b: seq<Sector>, c: nat)
    requires Untouched(g, a, mid) && Cleared(g, mid, b, c)
    ensures StretchedBy(g, a, b, c)
  {
  }

  lemma StretchTrans(g: Geometry, a: seq<Sector>, v: seq<Sector>, b: seq<Sector>, c: nat)
    requires Untouched(g, a, v) && StretchedBy(g, v, b, c)
    ensures StretchedBy(g, a, b, c)
  {
    var mid :| Untouched(g, v, mid) && Cleared(g, mid, b, c);
    UntouchedTrans(g, a, v, mid);
  }

  /** The view after a cluster was linked in through the FAT and cleared. */
  ghost predicate StretchedBy(g: Geometry, a: seq<Sector>, b: seq<Sector>, c: nat) {
    exists mid :: Untouched(g, a, mid) && Cleared(g, mid, b, c)
  }

  /** The entry after the one at `dptr`: in the same sector, in the next one, or in the next cluster. */
  lemma Steps(g: Geometry, fat: seq<nat>, cs: seq<nat>, dptr: nat, clust: nat, sect: nat)
    requires g.Wf() && g.DataFits() && |fat| == g.nFatent && IsChain(fat, cs) && Placed(g, cs, dptr, clust, sect)
    ensures g.Index(dptr / 512) < |cs| && clust == cs[g.Index(dptr / 512)] && dptr % 32 == 0
    ensures (dptr + 32) % 512 != 0 ==> Placed(g, cs, dptr + 32, clust, sect)
    ensures (dptr + 32) % 512 == 0 && g.Within((dptr + 32) / 512) != 0 ==> Placed(g, cs, dptr + 32, clust, sect + 1)
    ensures (dptr + 32) % 512 == 0 ==> (dptr + 32) / 512 == dptr / 512 + 1
    ensures g.Within((dptr + 32) / 512) == 0 && (dptr + 32) % 512 == 0 ==>
      g.Index((dptr + 32) / 512) == g.Index(dptr / 512) + 1
  {
    hide Geometry.DataFits, Geometry.Index, Geometry.Within, Geometry.PowerOfTwo, IsChain, Lba;
    var k := dptr / 512;
    ChainClusters(g, fat, cs);
    NextPlace(dptr);
    if (dptr + 32) % 512 == 0 {
      if g.Within(k + 1) == 0 {
        NextCluster(g, k + 1);
      } else {
        PrevInCluster(g, k + 1);
        WithinBefore(g, k + 1);
        LbaRun(g, cs, k, 1);
      }
    }
  }

  lemma NextPlace(dptr: nat)
    requires dptr % 32 == 0
    ensures (dptr + 32) % 32 == 0 && (dptr + 32) / 512 == if (dptr + 32) % 512 == 0 then dptr / 512 + 1 else dptr / 512
  {
    var k := dptr / 32;
    assert dptr == 32 * k && dptr + 32 == 32 * (k + 1);
    EntryPlace(k);
    EntryPlace(k + 1);
  }

  /** Sixteen entries lie in a sector. */
  lemma EntryPlace(k: nat)
    ensures 32 * k / 512 == k / 16 && 32 * k % 512 == 32 * (k % 16)
  {
    assert 32 * k == k / 16 * 512 + 32 * (k % 16);
    Division.Unique(512, k / 16, 32 * (k % 16));
  }

  lemma WithinBefore(g: Geometry, k: nat)
    requires g.Wf() && k > 0 && g.Within(k) != 0
    ensures g.Within(k - 1) + 1 == g.Within(k) && g.Within(k - 1) + 1 < g.csize
  {
    Division.DivMod(k, g.csize);
    Division.Unique(g.csize, k / g.csize, k % g.csize - 1);
  }

  lemma AtNewCluster(g: Geometry, fat: seq<nat>, cs: seq<nat>, dptr: nat, c: nat)
    requires g.Wf() && g.DataFits() && |fat| == g.nFatent && IsChain(fat, cs) && dptr % 32 == 0
      && (dptr + 32) % 512 == 0
    requires g.Within((dptr + 32) / 512) == 0 && g.Index((dptr + 32) / 512) < |cs|
      && c == cs[g.Index((dptr + 32) / 512)]
    ensures g.HasEntry(c) && Base(g, c) > 0 && Placed(g, cs, dptr + 32, c, Base(g, c))
  {
    ChainClusters(g, fat, cs);
    BaseBounds(g, c);
    hide Geometry.DataFits, Geometry.Index, Geometry.Within, Geometry.PowerOfTwo, IsChain, Base;
    LbaInside(g, cs, (dptr + 32) / 512);
  }

  lemma ChainHas(g: Geometry, fat: seq<nat>, cs: seq<nat>)
    requires IsChain(fat, cs)
    ensures |cs| > 0
  {
  }

  // ---------------------------------------------------------------- the table of entries

  /** Byte `b` of entry `k` is byte `32 * k + b` of the clusters of the directory, on the volume. */
  lemma EntryByte(g: Geometry, fat: seq<nat>, cs: seq<nat>, view: seq<Sector>, k: nat, b: nat) returns (s: nat)
    requires g.Wf() && g.DataFits() && |fat| == g.nFatent && IsChain(fat, cs) && |view| == g.nsect
    requires k < |TableOf(g, cs, view)| && b < 32
    ensures SectorOfByte(g, cs, 32 * k + b, s) && s < |view|
    ensures TableOf(g, cs, view)[k][b] == view[s][(32 * k + b) % 512]
  {
    hide Geometry.DataFits, Geometry.PowerOfTwo, IsChain;
    ChainClusters(g, fat, cs);
    EntryHome(g, cs, k);
    ByteHome(k, b);
    s := Lba(g, cs, k / 16);
    FileSector(g, cs, k / 16, 32 * k + b);
  }

  lemma ByteHome(k: nat, b: nat)
    requires b < 32
    ensures (32 * k + b) / 512 == k / 16 && (32 * k + b) % 512 == 32 * (k % 16) + b
  {
    assert 32 * k + b == 512 * (k / 16) + (32 * (k % 16) + b);
    Division.Unique(512, k / 16, 32 * (k % 16) + b);
  }

  lemma EntryHome(g: Geometry, cs: seq<nat>, k: nat)
    requires g.Wf() && k < Entries(g, |cs|)
    ensures InFile(g, cs, k / 16)
  {
    Division.DivMod(k / 16, g.csize);
    Division.Monotone(k / 16, g.csize * |cs| - 1, g.csize);
    if |cs| > 0 {
      Division.Before(g.csize * |cs|, g.csize);
      Division.Unique(g.csize, |cs|, 0);
    }
  }

  /** The `k`th entry of the directory. */
  ghost function EntryAt(g: Geometry, cs: seq<nat>, view: seq<Sector>, k: nat): (e: LongNames.Entry)
    requires g.csize > 0
  {
    var s := Lba(g, cs, k / 16);
    if s < |view| then view[s][32 * (k % 16)..32 * (k % 16) + 32] else Directories.Blank()
  }

  ghost function Entries(g: Geometry, n: nat): (c: nat) { g.csize * n * 16 }

  /** The directory as the table of entries that finding and registering work on. */
  ghost function TableOf(g: Geometry, cs: seq<nat>, view: seq<Sector>): (table: seq<LongNames.Entry>)
    requires g.csize > 0
    ensures |table| == Entries(g, |cs|)
  {
    seq(Entries(g, |cs|), k requires 0 <= k < Entries(g, |cs|) => EntryAt(g, cs, view, k))
  }

  lemma EntryInside(g: Geometry, n: nat, k: nat)
    requires g.csize > 0
    ensures k < Entries(g, n) <==> g.Index(k / 16) < n
  {
    var q := k / 16;
    assert k < g.csize * n * 16 <==> q < g.csize * n;
    Division.Unique(g.csize, n, 0);
    Division.DivMod(q, g.csize);
    if q < g.csize * n {
      Division.Monotone(q, g.csize * n, g.csize);
    } else {
      Division.Monotone(g.csize * n, q, g.csize);
    }
  }

  /** A directory that was stretched has the entries it had, and blank ones behind them. */
  lemma TableStretched(g: Geometry, fat: seq<nat>, cs: seq<nat>, fat': seq<nat>, a: seq<Sector>, b: seq<Sector>, c: nat)
    requires g.Wf() && g.DataFits() && |fat| == g.nFatent && |a| == g.nsect && IsChain(fat, cs)
      && Grown(fat, cs, fat', cs + [c])
    requires StretchedBy(g, a, b, c)
    ensures Directories.Extends(TableOf(g, cs, a), TableOf(g, cs + [c], b))
    ensures |TableOf(g, cs + [c], b)| == |TableOf(g, cs, a)| + g.csize * 16
  {
    hide Geometry.DataFits, Geometry.Index, Geometry.Within, Geometry.PowerOfTwo, EntryAt, Grown, IsChain, StretchedBy;
    var t, u := TableOf(g, cs, a), TableOf(g, cs + [c], b);
    EntriesMore(g, |cs|);
    forall k: nat | k < |t| ensures u[k] == t[k] {
      EntryKept(g, fat, cs, fat', a, b, c, k);
    }
    forall k: nat | |t| <= k < |u| ensures u[k] == Directories.Blank() {
      EntryNew(g, fat, cs, fat', a, b, c, k);
    }
  }

  lemma EntriesMore(g: Geometry, n: nat)
    ensures Entries(g, n + 1) == Entries(g, n) + g.csize * 16
  {
    assert g.csize * (n + 1) == g.csize * n + g.csize;
  }

  lemma EntryKept(g: Geometry, fat: seq<nat>, cs: seq<nat>, fat': seq<nat>, a: seq<Sector>, b: seq<Sector>, c: nat,
    k: nat)
    requires g.Wf() && g.DataFits() && |fat| == g.nFatent && |a| == g.nsect && IsChain(fat, cs)
      && Grown(fat, cs, fat', cs + [c])
    requires StretchedBy(g, a, b, c) && k < Entries(g, |cs|)
    ensures EntryAt(g, cs + [c], b, k) == EntryAt(g, cs, a, k)
  {
    EntryInside(g, |cs|, k);
    ChainClusters(g, fat, cs);
    LbaInside(g, cs, k / 16);
    var i, s := g.Index(k / 16), Lba(g, cs, k / 16);
    assert (cs + [c])[i] == cs[i];
    assert fat[c] == 0 by { assert (cs + [c])[|cs|] == c; }
    ChainInUse(fat, cs, i);
    hide Geometry.Index, Geometry.PowerOfTwo, Grown, IsChain;
    if InCluster(g, c, s) {
      ClustersApart(g, c, cs[i], s);
      assert false;
    }
    Outside(g, a, b, c, s);
  }

  lemma Outside(g: Geometry, a: seq<Sector>, b: seq<Sector>, c: nat, s: nat)
    requires g.Wf() && |a| == g.nsect && StretchedBy(g, a, b, c) && g.database <= s < g.nsect && !InCluster(g, c, s)
    ensures |b| == |a| && b[s] == a[s]
  {
    hide Base;
  }

  lemma EntryNew(g: Geometry, fat: seq<nat>, cs: seq<nat>, fat': seq<nat>, a: seq<Sector>, b: seq<Sector>, c: nat,
    k: nat)
    requires g.Wf() && g.DataFits() && |fat| == g.nFatent && |a| == g.nsect && IsChain(fat, cs)
      && Grown(fat, cs, fat', cs + [c])
    requires StretchedBy(g, a, b, c) && Entries(g, |cs|) <= k < Entries(g, |cs| + 1)
    ensures EntryAt(g, cs + [c], b, k) == Directories.Blank()
  {
    EntryInside(g, |cs|, k);
    EntryInside(g, |cs| + 1, k);
    var i, s := g.Index(k / 16), Lba(g, cs + [c], k / 16);
    assert i == |cs| && (cs + [c])[i] == c;
    assert ChainOrNone(fat', cs + [c]) && |fat'| == |fat|;
    ChainClusters(g, fat', cs + [c]);
    LbaInside(g, cs + [c], k / 16);
    assert InCluster(g, c, s);
    assert |b| == |a| && b[s] == ZeroSector();
    var e := EntryAt(g, cs + [c], b, k);
    assert e == Directories.Blank() by {
      hide StretchedBy, Lba, Grown, IsChain;
      assert forall j :: 0 <= j < 32 ==> e[j] == ZeroSector()[32 * (k % 16) + j];
    }
  }
}
