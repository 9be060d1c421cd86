/** Allocating and freeing clusters through the window: `create_chain` and `remove_chain` of ff.c. */
module ClusterAlloc {
  import opened FatChains
  import opened Volumes

  /** `free_clst` is either out of range (unknown) or the number of free entries. */
  ghost predicate CountOk(fs: Volume)
    requires fs.Valid()
    reads fs`disk, fs`winsect, fs`wflag, fs`freeClst, fs.win
  {
    fs.freeClst <= fs.g.nFatent - 2 ==> fs.freeClst == FreeCount(fs.Fat())
  }

  /** Where the window may be after only FAT entries were accessed. */
  ghost predicate WindowMoved(g: Geometry, before: nat, after: nat) {
    after == before || after == INVALID || g.FirstFat(after)
  }

  // ---------------------------------------------------------------- remove_chain

  /** One round of the loop of `remove_chain`: the old link of `c`, which is freed if it was used. */
  method FreeLink(fs: Volume, c: nat) returns (res: FResult, nxt: nat)
    requires fs.Valid() && fs.g.HasEntry(c)
    modifies fs, fs.win
    ensures fs.Valid()
    ensures res == Ok || res == IntErr || res == DiskErr
    ensures fs.g.reliable ==> res != DiskErr
    ensures res != DiskErr ==> nxt == old(fs.Fat())[c] && (res == IntErr <==> nxt == 1)
    ensures fs.Fat() == if res == Ok && nxt != 0 then old(fs.Fat())[c := 0] else old(fs.Fat())
    ensures old(CountOk(fs)) ==> CountOk(fs)
    ensures fs.lastClst == old(fs.lastClst)
    ensures Untouched(fs.g, old(fs.View()), fs.View())
    ensures WindowMoved(fs.g, old(fs.winsect), fs.winsect)
  {
    hide FatOf, Volume.View, Untouched, SameView, EntryPut, FreeCount;
    ghost var v0, fat := fs.View(), fs.Fat();
    UntouchedRefl(fs.g, v0);
    nxt := fs.GetFat(c);
    if nxt == 0 {
      return Ok, nxt;
    }
    if nxt == 1 {
      return IntErr, nxt;
    }
    if nxt == INVALID {
      return DiskErr, nxt;
    }
    ghost var v1 := fs.View();
    res := fs.PutFat(c, 0);
    UntouchedTrans(fs.g, v0, v1, fs.View());
    if res != Ok {
      return;
    }
    FreeCountSet(fat, c, 0);
    FreeCountBound(fs.Fat());
    if fs.freeClst < fs.g.nFatent - 2 {
      fs.freeClst := fs.freeClst + 1;
      fs.fsiDirty := true;
    }
  }

  /** The loop of `remove_chain`. */
  method FreeLinks(fs: Volume, clst: nat) returns (res: FResult)
    requires fs.Valid() && fs.g.HasEntry(clst)
    modifies fs, fs.win
    ensures fs.Valid()
    ensures res == Ok || res == IntErr || res == DiskErr
    ensures fs.g.reliable ==> res != DiskErr
    ensures res != DiskErr ==> (fs.Fat(), res == Ok) == FreeFrom(old(fs.Fat()), clst)
    ensures res == DiskErr ==> PartlyFreed(old(fs.Fat()), clst, fs.Fat())
    ensures old(CountOk(fs)) ==> CountOk(fs)
    ensures fs.lastClst == old(fs.lastClst)
    ensures Untouched(fs.g, old(fs.View()), fs.View())
    ensures WindowMoved(fs.g, old(fs.winsect), fs.winsect)
  {
    hide FatOf, Volume.View, Untouched, SameView, FreeCount, CountOk;
    ghost var v0, goal := fs.View(), FreeFrom(fs.Fat(), clst);
    UntouchedRefl(fs.g, v0);
    var c: nat := clst;
    while true
      invariant fs.Valid() && fs.g.HasEntry(c)
      invariant FreeFrom(fs.Fat(), c) == goal
      invariant old(CountOk(fs)) ==> CountOk(fs)
      invariant fs.lastClst == old(fs.lastClst)
      invariant Untouched(fs.g, v0, fs.View())
      invariant WindowMoved(fs.g, old(fs.winsect), fs.winsect)
      decreases fs.g.nFatent - FreeCount(fs.Fat())
    {
      ghost var v1, fat := fs.View(), fs.Fat();
      var nxt: nat;
      res, nxt := FreeLink(fs, c);
      UntouchedTrans(fs.g, v0, v1, fs.View());
      if nxt == 0 || res != Ok {
        return;
      }
      FreeCountSet(fat, c, 0);
      FreeCountBound(fs.Fat());
      c := nxt;
      if c >= fs.g.nFatent {
        return;
      }
    }
  }

  /** Some rounds of freeing from `c` on have been done: the rest would end where all would have. */
  ghost predicate PartlyFreed(fat: seq<nat>, c: nat, fat': seq<nat>) {
    Cluster(fat, c) && exists c': nat :: Cluster(fat', c') && FreeFrom(fat', c') == FreeFrom(fat, c)
  }

  /** `remove_chain`: free the chain from `clst` on, after marking `pclst`, if any, as its end. */
  method RemoveChain(fs: Volume, clst: nat, pclst: nat) returns (res: FResult)
    requires fs.Valid()
    modifies fs, fs.win
    ensures fs.Valid()
    ensures res == Ok || res == IntErr || res == DiskErr
    ensures fs.g.reliable ==> res != DiskErr
    ensures !fs.g.HasEntry(clst) || (pclst != 0 && !fs.g.HasEntry(pclst)) ==>
              res == IntErr && fs.Fat() == old(fs.Fat())
    ensures fs.g.HasEntry(clst) && (pclst == 0 || fs.g.HasEntry(pclst)) && res != DiskErr ==>
              (fs.Fat(), res == Ok) == FreeFrom(if pclst == 0 then old(fs.Fat()) else old(fs.Fat())[pclst := EOC], clst)
    ensures res == DiskErr ==> pclst == 0 || fs.g.HasEntry(pclst)
    ensures res == DiskErr && fs.Fat() != old(fs.Fat()) ==>
              PartlyFreed(if pclst == 0 then old(fs.Fat()) else old(fs.Fat())[pclst := EOC], clst, fs.Fat())
    ensures old(CountOk(fs)) && (fs.g.HasEntry(pclst) ==> old(fs.Fat())[pclst] != 0) ==> CountOk(fs)
    ensures fs.lastClst == old(fs.lastClst)
    ensures Untouched(fs.g, old(fs.View()), fs.View())
    ensures WindowMoved(fs.g, old(fs.winsect), fs.winsect)
  {
    hide FatOf, Volume.View, Untouched, SameView, EntryPut, FreeFrom, FreeCount;
    ghost var v0, fat0 := fs.View(), fs.Fat();
    UntouchedRefl(fs.g, v0);
    if clst < 2 || clst >= fs.g.nFatent {
      return IntErr;
    }
    if pclst != 0 {
      res := fs.PutFat(pclst, 0xFFFF_FFFF);
      if res != Ok {
        return;
      }
      FreeCountSet(fat0, pclst, EOC);
    }
    ghost var v1 := fs.View();
    res := FreeLinks(fs, clst);
    UntouchedTrans(fs.g, v0, v1, fs.View());
  }

  // ---------------------------------------------------------------- create_chain

  /** Every entry that the cyclic search from `scl` meets before it reaches `r` is in use. */
  ghost predicate UsedBetween(fat: seq<nat>, scl: nat, r: nat) {
    if scl < r then forall c: nat :: scl < c < r && c < |fat| ==> fat[c] != 0
    else
      && (forall c: nat :: scl < c < |fat| ==> fat[c] != 0)
      && (forall c: nat :: 2 <= c < r && c < |fat| ==> fat[c] != 0)
  }

  /** `r` is the cluster that `create_chain` takes for a chain ending in `clst` (0: a new chain)
      when `last` is the remembered last allocation: the next one if it is free, else the first
      free one at or after the suggested start, wrapping at the end of the table. */
  ghost predicate NextFit(fat: seq<nat>, clst: nat, last: nat, r: nat)
    requires |fat| >= 3
  {
    var next := if clst + 1 >= |fat| then 2 else clst + 1;
    var start := if Cluster(fat, last) then last else if clst == 0 then 1 else clst;
    && Cluster(fat, r) && fat[r] == 0
    && if clst != 0 && fat[next] == 0 then r == next else UsedBetween(fat, start, r)
  }

  /** The wrapping search of `create_chain`: a free cluster, 0 when there is none, 1 or INVALID on an error. */
  method FindFree(fs: Volume, scl: nat) returns (r: nat)
    requires fs.Valid() && 1 <= scl < fs.g.nFatent
    modifies fs`disk, fs`winsect, fs`wflag, fs.win
    ensures fs.Valid() && fs.Fat() == old(fs.Fat())
    ensures r == 0xFFFF_FFFF ==> !fs.g.reliable
    ensures r == 0 ==> forall c: nat :: fs.g.HasEntry(c) ==> fs.Fat()[c] != 0
    ensures r == 1 ==> Damaged(fs.Fat())
    ensures r >= 2 && r != 0xFFFF_FFFF ==> fs.g.HasEntry(r) && fs.Fat()[r] == 0 && UsedBetween(fs.Fat(), scl, r)
    ensures Untouched(fs.g, old(fs.View()), fs.View())
    ensures WindowMoved(fs.g, old(fs.winsect), fs.winsect)
  {
    hide FatOf, Volume.View, Untouched, SameView;
    ghost var v0, fat := fs.View(), fs.Fat();
    UntouchedRefl(fs.g, v0);
    var ncl := scl;
    ghost var wrapped := false;
    while true
      invariant fs.Valid() && fs.Fat() == fat
      invariant if wrapped then 2 <= ncl < scl else scl <= ncl < fs.g.nFatent
      invariant UsedBetween(fat, scl, if wrapped then ncl + 1 else if ncl == scl then scl + 1 else ncl + 1)
      invariant Untouched(fs.g, v0, fs.View())
      invariant WindowMoved(fs.g, old(fs.winsect), fs.winsect)
      decreases if wrapped then scl - ncl else scl + fs.g.nFatent - ncl
    {
      ncl := ncl + 1;
      if ncl >= fs.g.nFatent {
        ncl := 2;
        wrapped := true;
        if ncl > scl {
          return 0;
        }
      }
      ghost var v1 := fs.View();
      var cs := fs.GetFat(ncl);
      UntouchedTrans(fs.g, v0, v1, fs.View());
      if cs == 0 {
        return ncl;
      }
      if cs == 1 || cs == INVALID {
        return cs;
      }
      if ncl == scl {
        return 0;
      }
    }
  }

  /** The choice of `create_chain`: first the cluster after `clst`, then the search. */
  method PickFree(fs: Volume, clst: nat) returns (r: nat)
    requires fs.Valid() && (clst == 0 || fs.g.HasEntry(clst))
    modifies fs`disk, fs`winsect, fs`wflag, fs.win
    ensures fs.Valid() && fs.Fat() == old(fs.Fat())
    ensures r == 0xFFFF_FFFF ==> !fs.g.reliable
    ensures r == 0 ==> forall c: nat :: fs.g.HasEntry(c) ==> fs.Fat()[c] != 0
    ensures r == 1 ==> Damaged(fs.Fat())
    ensures r >= 2 && r != 0xFFFF_FFFF ==> fs.g.HasEntry(r) && NextFit(fs.Fat(), clst, fs.lastClst, r)
    ensures Untouched(fs.g, old(fs.View()), fs.View())
    ensures WindowMoved(fs.g, old(fs.winsect), fs.winsect)
  {
    hide FatOf, Volume.View, Untouched, SameView;
    ghost var v0 := fs.View();
    UntouchedRefl(fs.g, v0);
    var scl: nat := clst;
    if clst == 0 {
      scl := fs.lastClst;
      if scl == 0 || scl >= fs.g.nFatent {
        scl := 1;
      }
    } else {
      var ncl := scl + 1;
      if ncl >= fs.g.nFatent {
        ncl := 2;
      }
      var cs := fs.GetFat(ncl);
      if cs == 1 || cs == INVALID {
        return cs;
      }
      if cs == 0 {
        return ncl;
      }
      if fs.lastClst >= 2 && fs.lastClst < fs.g.nFatent {
        scl := fs.lastClst;
      }
    }
    ghost var v1 := fs.View();
    r := FindFree(fs, scl);
    UntouchedTrans(fs.g, v0, v1, fs.View());
  }

  /** The two stores of `create_chain`: mark `ncl` as an end, then link it from `clst` unless that is 0. */
  method TakeCluster(fs: Volume, clst: nat, ncl: nat) returns (res: FResult)
    requires fs.Valid() && fs.g.HasEntry(ncl) && (clst == 0 || fs.g.HasEntry(clst))
    modifies fs`disk, fs`winsect, fs`wflag, fs.win
    ensures fs.Valid()
    ensures res == Ok || res == DiskErr
    ensures fs.g.reliable ==> res == Ok
    ensures res == Ok ==> fs.Fat() == Created(old(fs.Fat()), clst, ncl) && fs.g.FirstFat(fs.winsect)
    ensures res != Ok ==> fs.Fat() == old(fs.Fat()) || fs.Fat() == old(fs.Fat())[ncl := EOC]
    ensures Untouched(fs.g, old(fs.View()), fs.View())
    ensures WindowMoved(fs.g, old(fs.winsect), fs.winsect)
  {
    hide FatOf, Volume.View, Untouched, SameView, EntryPut;
    ghost var v0 := fs.View();
    res := fs.PutFat(ncl, 0xFFFF_FFFF);
    if res == Ok && clst != 0 {
      ghost var v1 := fs.View();
      res := fs.PutFat(clst, ncl);
      UntouchedTrans(fs.g, v0, v1, fs.View());
    }
  }

  /** What `create_chain` answers and leaves behind, by its result `r`. */
  ghost predicate CreateSpec(g: Geometry, fat: seq<nat>, fat': seq<nat>,
                             free: nat, free': nat, last: nat, last': nat, clst: nat, r: nat)
    requires g.Wf() && |fat| == g.nFatent
  {
    if r == 0 then
      // no free cluster
      && fat' == fat && free' == free && last' == last
      && (clst != 0 ==> g.HasEntry(clst) && fat[clst] >= g.nFatent)
      && (free == 0 || forall c: nat :: g.HasEntry(c) ==> fat[c] != 0)
    else if r == 1 then
      // the table or the argument is damaged
      && fat' == fat && free' == free && last' == last
      && ((clst != 0 && (!g.HasEntry(clst) || fat[clst] < 2)) || Damaged(fat))
    else if r == 0xFFFF_FFFF then
      // the device failed; at worst one free cluster is lost
      && !g.reliable && free' == free && last' == last
      && (fat' == fat || exists c: nat :: g.HasEntry(c) && fat[c] == 0 && fat' == fat[c := 0x0FFF_FFFF])
    else
      && g.HasEntry(r)
      && if clst != 0 && g.HasEntry(clst) && fat[clst] == r then
          // the chain goes on already
          fat' == fat && free' == free && last' == last
        else
          && (clst != 0 ==> g.HasEntry(clst) && fat[clst] >= g.nFatent)
          && NextFit(fat, clst, last, r)
          && fat' == Created(fat, clst, r)
          && last' == r && free != 0
          && free' == if free <= g.nFatent - 2 then free - 1 else free
  }

  /** `create_chain`: the cluster that follows `clst`, newly allocated at the end of a chain;
      `clst == 0` starts a new chain. */
  method CreateChain(fs: Volume, clst: nat) returns (r: nat)
    requires fs.Valid()
    modifies fs, fs.win
    ensures fs.Valid()
    ensures CreateSpec(fs.g, old(fs.Fat()), fs.Fat(), old(fs.freeClst), fs.freeClst,
                       old(fs.lastClst), fs.lastClst, clst, r)
    ensures r != 0xFFFF_FFFF && old(CountOk(fs)) ==> CountOk(fs)
    ensures Untouched(fs.g, old(fs.View()), fs.View())
    ensures WindowMoved(fs.g, old(fs.winsect), fs.winsect)
    ensures r >= 2 && r != 0xFFFF_FFFF ==> fs.g.FirstFat(fs.winsect)
  {
    hide FatOf, Volume.View, Untouched, SameView, FreeCount, UsedBetween;
    ghost var v0, fat := fs.View(), fs.Fat();
    UntouchedRefl(fs.g, v0);
    if clst != 0 {
      var cs := fs.GetFat(clst);
      if cs < 2 {
        return 1;
      }
      if cs == INVALID {
        return cs;
      }
      if cs < fs.g.nFatent {
        return cs;
      }
    }
    if fs.freeClst == 0 {
      return 0;
    }
    ghost var v1 := fs.View();
    var ncl := PickFree(fs, clst);
    UntouchedTrans(fs.g, v0, v1, fs.View());
    if ncl < 2 || ncl == INVALID {
      return ncl;
    }
    ghost var v2 := fs.View();
    var res := TakeCluster(fs, clst, ncl);
    UntouchedTrans(fs.g, v0, v2, fs.View());
    if res == Ok {
      CreatedCount(fat, clst, ncl);
      fs.lastClst := ncl;
      if fs.freeClst <= fs.g.nFatent - 2 {
        fs.freeClst := fs.freeClst - 1;
      }
      fs.fsiDirty := true;
      return ncl;
    }
    return INVALID;
  }

  lemma CreatedCount(fat: seq<nat>, clst: nat, r: nat)
    requires Cluster(fat, r) && fat[r] == 0
    requires clst != 0 ==> Cluster(fat, clst) && fat[clst] != 0
    ensures FreeCount(Created(fat, clst, r)) == FreeCount(fat) - 1
  {
    FreeCountSet(fat, r, EOC);
    if clst != 0 {
      FreeCountSet(fat[r := EOC], clst, r);
    }
  }

  /** With a right count, `create_chain` says the disk is full exactly when no cluster is free
      (and the chain does not go on already). */
  lemma FullMeansFull(g: Geometry, fat: seq<nat>, fat': seq<nat>,
                      free: nat, free': nat, last: nat, last': nat, clst: nat, r: nat)
    requires g.Wf() && |fat| == g.nFatent
    requires CreateSpec(g, fat, fat', free, free', last, last', clst, r) && g.reliable && r != 1
    requires free <= g.nFatent - 2 ==> free == FreeCount(fat)
    requires clst != 0 ==> g.HasEntry(clst) && fat[clst] >= g.nFatent
    ensures r == 0 <==> FreeCount(fat) == 0
  {
    NoneFree(fat, |fat|);
    if r != 0 {
      assert Cluster(fat, r) && fat[r] == 0;
    }
  }

  lemma {:induction false} FreeOnlyFrees(fat: seq<nat>, c: nat)
    requires Cluster(fat, c)
    ensures forall d :: 0 <= d < |fat| ==> FreeFrom(fat, c).0[d] == fat[d] || FreeFrom(fat, c).0[d] == 0
    decreases |fat| - FreeCount(fat)
  {
    if fat[c] > 1 && fat[c] < |fat| {
      FreeCountSet(fat, c, 0);
      FreeOnlyFrees(fat[c := 0], fat[c]);
    }
  }

  /** Even freeing that was broken off leaves the used entries outside the chain alone. */
  lemma PartlyFreedKeepsOthers(fat: seq<nat>, cs: seq<nat>, fat': seq<nat>)
    requires IsChain(fat, cs) && |fat'| == |fat| && PartlyFreed(fat, cs[0], fat')
    ensures OthersKept(fat, cs, fat')
  {
    var c': nat :| Cluster(fat', c') && FreeFrom(fat', c') == FreeFrom(fat, cs[0]);
    FreeFromChain(fat, cs);
    FreeOnlyFrees(fat', c');
  }

  // ---------------------------------------------------------------- f_getfree

  /** One round of the scan of `f_getfree`: entry `k`, with its sector brought into the window if it is the first
      there. */
  method ScanEntry(fs: Volume, k: nat, sect: nat, i: nat) returns (res: FResult, zero: bool)
    requires fs.Valid() && k < fs.g.nFatent && i == k % 128 * 4 && (i == 0 ==> sect == fs.g.fatbase + k / 128)
    requires i != 0 ==> fs.winsect == fs.g.fatbase + k / 128
    modifies fs`disk, fs`winsect, fs`wflag, fs.win
    ensures fs.Valid() && fs.Fat() == old(fs.Fat()) && Untouched(fs.g, old(fs.View()), fs.View())
    ensures (res == Ok || res == DiskErr) && (fs.g.reliable ==> res == Ok)
    ensures res == Ok ==> fs.winsect == fs.g.fatbase + k / 128 && (zero <==> fs.Fat()[k] == 0)
  {
    hide FatOf, Volume.View, Untouched, SameView, Entry;
    UntouchedRefl(fs.g, fs.View());
    FatAt(fs.g, fs.View(), k);
    res, zero := Ok, false;
    if i == 0 {
      res := fs.MoveWindow(sect);
      if res != Ok {
        return;
      }
    }
    fs.ScannedEntry(k);
    zero := Entry(fs.win[..], i / 4) == 0;
  }

  /** The place of the next entry. */
  lemma ScanNext(k: nat, i: nat)
    requires i == k % 128 * 4
    ensures (i + 4) % 512 == (k + 1) % 128 * 4 && (k + 1) / 128 == (if (k + 1) % 128 == 0 then k / 128 + 1 else k / 128)
    ensures i == 0 <==> k % 128 == 0
  {
  }

  lemma ZerosStart(fat: seq<nat>)
    ensures ZerosUpTo(fat, 0) == 0
  {
  }

  lemma ZerosStep(fat: seq<nat>, k: nat)
    requires k < |fat|
    ensures ZerosUpTo(fat, k + 1) == ZerosUpTo(fat, k) + if fat[k] == 0 then 1 else 0
  {
  }

  /** The scan of `f_getfree` over the FAT32 table, sector by sector through the window. A scan broken off by
      the device also becomes the count. */
  method ScanFree(fs: Volume) returns (res: FResult, nfree: nat)
    requires fs.Valid()
    modifies fs, fs.win
    ensures fs.Valid() && fs.Fat() == old(fs.Fat())
    ensures (res == Ok || res == DiskErr) && (fs.g.reliable ==> res == Ok)
    ensures fs.freeClst == nfree
    ensures res == Ok ==> nfree == FreeCount(fs.Fat()) + Weight(fs.Fat()[0]) + Weight(fs.Fat()[1])
    ensures res != Ok ==> exists k: nat :: k < fs.g.nFatent && nfree == ZerosUpTo(fs.Fat(), k)
    ensures Untouched(fs.g, old(fs.View()), fs.View())
  {
    hide FatOf, Volume.View, Untouched, SameView, FreeUpTo, ZerosUpTo;
    ghost var v0, fat, n := fs.View(), fs.Fat(), fs.g.nFatent;
    UntouchedRefl(fs.g, v0);
    ZerosStart(fat);
    var clst, sect, i := fs.g.nFatent, fs.g.fatbase, 0;
    nfree, res := 0, Ok;
    while clst > 0
      invariant res == Ok && fs.Valid() && fs.Fat() == fat && 0 <= clst <= n && Untouched(fs.g, v0, fs.View())
      invariant i == (n - clst) % 128 * 4 && sect == fs.g.fatbase + (n - clst) / 128 + (if i == 0 then 0 else 1)
      invariant i != 0 ==> fs.winsect == fs.g.fatbase + (n - clst) / 128
      invariant nfree == ZerosUpTo(fat, n - clst)
      decreases clst
    {
      ghost var k, v1 := n - clst, fs.View();
      ScanNext(k, i);
      ZerosStep(fat, k);
      var zero;
      res, zero := ScanEntry(fs, fs.g.nFatent - clst, sect, i);
      UntouchedTrans(fs.g, v0, v1, fs.View());
      if res != Ok {
        break;
      }
      if i == 0 {
        sect := sect + 1;
      }
      if zero {
        nfree := nfree + 1;
      }
      i := (i + 4) % 512;
      clst := clst - 1;
    }
    ZerosAreFree(fat, n);
    fs.freeClst := nfree;
    fs.fsiDirty := true;
  }
}
