/** Fast seek: building the cluster link map table by `f_lseek(fp, CREATE_LINKMAP)`, and the seek that uses it instead
    of walking the FAT. */
module LinkMap {
  import Division

  import opened Bytes
  import opened FatChains
  import opened Volumes
  import opened ClusterAlloc
  import opened FileLayout
  import opened OpenFile
  import opened LinkTable

  // ---------------------------------------------------------------- building the table

  lemma ChainStep(fat: seq<nat>, cs: seq<nat>, k: nat)
    requires IsChain(fat, cs) && k < |cs|
    ensures Cluster(fat, cs[k])
    ensures if k + 1 < |cs| then fat[cs[k]] == cs[k + 1] && Cluster(fat, cs[k + 1]) else fat[cs[k]] >= |fat|
  {
    assert Cluster(fat, cs[k]);
    if k + 1 < |cs| {
      assert Cluster(fat, cs[k + 1]);
    }
  }

  /** The end mark of the chain is the number after its last cluster, so that it looks like a next cluster. */
  ghost predicate EndsInNext(fat: seq<nat>, cs: seq<nat>) {
    |cs| > 0 && cs[|cs| - 1] < |fat| && fat[cs[|cs| - 1]] == cs[|cs| - 1] + 1
  }

  /** That is so just for a chain that ends in the last cluster of the volume with the number of entries as its mark, so
      for none with a mark from 0x0FFFFFF8 on. */
  lemma NextMark(fat: seq<nat>, cs: seq<nat>)
    requires IsChain(fat, cs) && |fat| <= 0x0FFF_FFF7
    ensures EndsInNext(fat, cs) <==> cs[|cs| - 1] == |fat| - 1 && fat[|fat| - 1] == |fat|
    ensures fat[cs[|cs| - 1]] >= 0x0FFF_FFF8 ==> !EndsInNext(fat, cs)
  {
  }

  /** A volume of one cluster, whose chain has such a mark: CREATE_LINKMAP fails for it. */
  lemma NextMarkExists()
    ensures IsChain([0x0FFF_FFF8, 0x0FFF_FFFF, 3], [2]) && EndsInNext([0x0FFF_FFF8, 0x0FFF_FFFF, 3], [2])
  {
    assert [0x0FFF_FFF8, 0x0FFF_FFFF, 3][2] == 3;
  }

  /** The inner loop of CREATE_LINKMAP: the length of the fragment that starts at the `i`th cluster of the
      chain, and the link that leaves it. */
  method Fragment(fp: File, tcl: nat, ghost cs: seq<nat>, ghost i: nat) returns (res: FResult, ncl: nat, cl: nat)
    requires fp.Ready() && IsChain(fp.fs.Fat(), cs) && i < |cs| && cs[i] == tcl
    modifies fp.fs`disk, fp.fs`winsect, fp.fs`wflag, fp.fs.win
    ensures fp.Ready() && fp.fs.Fat() == old(fp.fs.Fat())
    ensures res == Ok || res == DiskErr || res == IntErr
    ensures res == DiskErr ==> !fp.fs.g.reliable
    ensures res == IntErr ==> EndsInNext(fp.fs.Fat(), cs)
    ensures res == Ok ==> ncl == FragLen(cs[i..]) && cl == fp.fs.Fat()[cs[i + ncl - 1]]
    ensures res == Ok ==>
      if i + ncl < |cs| then cl == cs[i + ncl] < fp.fs.g.nFatent
      else !EndsInNext(fp.fs.Fat(), cs) && cl >= fp.fs.g.nFatent
    ensures Untouched(fp.fs.g, old(fp.fs.View()), fp.fs.View())
      && WindowMoved(fp.fs.g, old(fp.fs.winsect), fp.fs.winsect)
  {
    hide FatOf, Volume.View, Untouched, SameView, IsChain, FragLen;
    ghost var fat, v0 := fp.fs.Fat(), fp.fs.View();
    UntouchedRefl(fp.fs.g, v0);
    cl, ncl, res := tcl, 0, Ok;
    var more := true;
    while more
      invariant res == Ok && fp.Ready() && fp.fs.Fat() == fat
      invariant more && i + ncl < |cs| ==> cl == cs[i + ncl] && FragLen(cs[i..]) == ncl + FragLen(cs[i + ncl..])
      invariant more && i + ncl >= |cs| ==> i + ncl == |cs| && !fp.fs.g.HasEntry(cl) && EndsInNext(fat, cs)
      invariant !more ==>
        ncl > 0 && i + ncl <= |cs| && ncl == FragLen(cs[i..]) && fp.fs.g.HasEntry(cs[i + ncl - 1])
        && cl == fat[cs[i + ncl - 1]]
      invariant !more ==>
        if i + ncl < |cs| then cl == cs[i + ncl] < fp.fs.g.nFatent else !EndsInNext(fat, cs) && cl >= fp.fs.g.nFatent
      invariant Untouched(fp.fs.g, v0, fp.fs.View()) && WindowMoved(fp.fs.g, old(fp.fs.winsect), fp.fs.winsect)
      decreases more, |cs| + 1 - i - ncl
    {
      if i + ncl < |cs| {
        ChainStep(fat, cs, i + ncl);
        FragStep(cs, i + ncl);
      }
      ghost var v1 := fp.fs.View();
      var pcl := cl;
      ncl := ncl + 1;
      cl := fp.fs.GetFat(cl);
      UntouchedTrans(fp.fs.g, v0, v1, fp.fs.View());
      if cl <= 1 {
        return IntErr, ncl, cl;
      }
      if cl == INVALID {
        return DiskErr, ncl, cl;
      }
      more := cl == pcl + 1;
    }
  }

  /** The loop of CREATE_LINKMAP over the fragments of the chain of `fp`. */
  method Collect(fp: File, tbl: array<nat>, tlen: nat) returns (res: FResult, ulen: nat)
    requires fp.Ready() && fp.Held() && fp.chain != [] && tlen <= tbl.Length && tbl.Length >= 1
    modifies tbl, fp.fs`disk, fp.fs`winsect, fp.fs`wflag, fp.fs.win
    ensures fp.Ready() && fp.fs.Fat() == old(fp.fs.Fat())
    ensures res == Ok || res == DiskErr || res == IntErr
    ensures res == DiskErr ==> !fp.fs.g.reliable
    ensures res == IntErr ==> EndsInNext(fp.fs.Fat(), fp.chain)
    ensures res == Ok ==> !EndsInNext(fp.fs.Fat(), fp.chain) && ulen == |Fragments(fp.chain)| + 2
    ensures res == Ok && ulen <= tlen ==> tbl[1..ulen - 1] == Fragments(fp.chain)
    ensures Untouched(fp.fs.g, old(fp.fs.View()), fp.fs.View())
      && WindowMoved(fp.fs.g, old(fp.fs.winsect), fp.fs.winsect)
  {
    hide FatOf, Volume.View, Untouched, SameView, IsChain, FragLen, Fragments, EndsInNext;
    ghost var fat, v0, cs := fp.fs.Fat(), fp.fs.View(), fp.chain;
    UntouchedRefl(fp.fs.g, v0);
    ulen, res := 2, Ok;
    var cl := fp.sclust;
    ghost var i := 0;
    assert cs[0..] == cs;
    var more := true;
    while more
      invariant res == Ok && fp.Ready() && fp.fs.Fat() == fat && i <= |cs|
      invariant more <==> i < |cs|
      invariant more ==> cl == cs[i]
      invariant !more ==> !EndsInNext(fat, cs)
      invariant ulen + |Fragments(cs[i..])| == |Fragments(cs)| + 2 && ulen >= 2
      invariant ulen <= tlen || ulen == 2 ==> tbl[1..ulen - 1] + Fragments(cs[i..]) == Fragments(cs)
      invariant Untouched(fp.fs.g, v0, fp.fs.View()) && WindowMoved(fp.fs.g, old(fp.fs.winsect), fp.fs.winsect)
      decreases |cs| - i
    {
      ghost var v1 := fp.fs.View();
      var tcl, ncl := cl, 0;
      ulen := ulen + 2;
      res, ncl, cl := Fragment(fp, cl, cs, i);
      UntouchedTrans(fp.fs.g, v0, v1, fp.fs.View());
      if res != Ok {
        return;
      }
      FragmentsStep(cs, i, ncl);
      if ulen <= tlen {
        PutFragment(tbl, ulen, ncl, tcl);
      }
      i := i + ncl;
      more := cl < fp.fs.g.nFatent;
    }
    FragmentsEnd(cs);
  }

  /** A fragment more in the table. */
  method PutFragment(tbl: array<nat>, ulen: nat, ncl: nat, tcl: nat)
    requires 4 <= ulen <= tbl.Length
    modifies tbl
    ensures tbl[1..ulen - 1] == old(tbl[1..ulen - 3]) + [ncl, tcl]
  {
    ghost var was := tbl[..];
    tbl[ulen - 3], tbl[ulen - 2] := ncl, tcl;
    assert tbl[1..ulen - 1] == was[1..ulen - 3] + [ncl, tcl];
  }

  lemma FragmentsEnd(cs: seq<nat>)
    ensures Fragments(cs[|cs|..]) == [] && forall t: seq<nat> :: t + Fragments(cs[|cs|..]) == t
  {
  }

  lemma FragmentsStep(cs: seq<nat>, i: nat, n: nat)
    requires i < |cs| && n == FragLen(cs[i..])
    ensures i + n <= |cs| && n > 0
    ensures Fragments(cs[i..]) == [n, cs[i]] + Fragments(cs[i + n..])
  {
    assert cs[i..][n..] == cs[i + n..];
  }

  /** The fragments of the chain, if it has any; the file stays as it is. */
  method Gather(fp: File, tbl: array<nat>, tlen: nat) returns (res: FResult, ulen: nat)
    requires fp.Ready() && fp.Intact() && tlen <= tbl.Length && tbl.Length >= 1
    modifies tbl, fp.fs`disk, fp.fs`winsect, fp.fs`wflag, fp.fs.win
    ensures fp.Ready() && fp.fs.Fat() == old(fp.fs.Fat())
    ensures fp.Intact() && fp.Bytes() == old(fp.Bytes())
    ensures res == Ok || res == DiskErr || res == IntErr
    ensures res == DiskErr ==> !fp.fs.g.reliable
    ensures res != DiskErr ==> (res == IntErr <==> EndsInNext(fp.fs.Fat(), fp.chain))
    ensures res == Ok ==> ulen == |Fragments(fp.chain)| + 2
    ensures res == Ok && ulen <= tlen ==> tbl[1..ulen - 1] == Fragments(fp.chain)
  {
    hide FatOf, Volume.View, Untouched, SameView, IsChain, FragLen, Fragments, Sound, CursorOk, Content;
    hide Geometry.DataFits, Geometry.PowerOfTwo, Own, Room;
    ghost var fat, w, f, a := fp.fs.Fat(), fp.fs.winsect, fp.Fields(), fp.Snap();
    StartCluster(fp.fs.g, fat, w, f, a);
    FragmentsEnd(fp.chain);
    res, ulen := Ok, 2;
    if fp.sclust != 0 {
      res, ulen := Collect(fp, tbl, tlen);
      FatAccessKeeps(fp.fs.g, fat, w, fp.fs.winsect, f, a, fp.Snap());
      SoundContent(fp.fs.g, fat, fp.fs.winsect, f, a, fp.Snap());
    }
  }

  /** `f_lseek(fp, CREATE_LINKMAP)`: the first word of the table becomes the number of words the map needs, and
      if the table has room the map follows. It fails just for a chain whose end mark looks like a next
      cluster (0xFFFFFFF or any mark from 0x0FFFFFF8 on never does). The file stays as it is. */
  method CreateLinkMap(fp: File, tbl: array<nat>) returns (res: FResult)
    requires fp.Ready() && fp.Intact() && fp.err == Ok && fp.cltbl == tbl && tbl.Length >= 1 && tbl[0] <= tbl.Length
    modifies fp`err, fp`mapped, tbl, fp.fs`disk, fp.fs`winsect, fp.fs`wflag, fp.fs.win
    ensures fp.Ready() && fp.fs.Fat() == old(fp.fs.Fat())
    ensures fp.Intact() && fp.Bytes() == old(fp.Bytes())
    ensures res == Ok || res == DiskErr || res == IntErr || res == NotEnoughCore
    ensures res == DiskErr ==> !fp.fs.g.reliable
    ensures res != DiskErr ==> (res == IntErr <==> EndsInNext(fp.fs.Fat(), fp.chain))
    ensures res == Ok || res == NotEnoughCore ==> fp.err == Ok && tbl[0] == |Fragments(fp.chain)| + 2
    ensures res == Ok || res == NotEnoughCore ==> (res == Ok <==> tbl[0] <= old(tbl[0]))
    ensures res == Ok ==> fp.MapOk() && fp.mapped == fp.chain && IsTable(tbl, fp.chain)
  {
    hide FatOf, Volume.View, Fragments, File.Intact, File.Bytes, EndsInNext;
    var tlen := tbl[0];
    var ulen;
    res, ulen := Gather(fp, tbl, tlen);
    if res != Ok {
      fp.err := res;
      return;
    }
    tbl[0] := ulen;
    if ulen <= tlen {
      tbl[ulen - 1] := 0;
      assert tbl[1..ulen] == tbl[1..ulen - 1] + [0];
      fp.mapped := fp.chain;
    } else {
      res := NotEnoughCore;
    }
  }

  // ---------------------------------------------------------------- using the table

  /** The seek to `ofs` with a table, but for the start of the file. */
  method FastSeekTo(fp: File, ofs: nat) returns (res: FResult)
    requires fp.Ready() && fp.Intact() && 0 < ofs <= fp.objsize && fp.cltbl != null && fp.MapOk()
    modifies fp`fptr, fp`clust, fp`sect, fp`dirty, fp.buf, fp.fs`disk
    ensures fp.Ready() && fp.fs.Fat() == old(fp.fs.Fat())
    ensures (res == DiskErr ==> !fp.fs.g.reliable) && (res == IntErr <==> fp.mapped != fp.chain)
    ensures res == Ok || res == DiskErr || res == IntErr
    ensures OnlyOwn(fp.fs.g, fp.chain, old(fp.fs.View()), fp.fs.View())
    ensures res == Ok ==> fp.sect == old(fp.sect) || Own(fp.fs.g, fp.chain, fp.sect)
    ensures res == Ok ==> fp.Intact() && fp.fptr == ofs && SameOn(fp.fs.g, fp.chain, old(fp.Snap()), fp.Snap())
  {
    hide FatOf, Volume.View, Geometry.DataFits, Geometry.Index, Geometry.Within, Geometry.PowerOfTwo,
      Geometry.ClusterOf;
    hide Own, Lba, Base, Sound, OnlyOwn, SameOn, Fragments, Clst2Sect, Grown, OthersKept, ChainOrNone, IsChain;
    ghost var fat, w, f, a := fp.fs.Fat(), fp.fs.winsect, fp.Fields(), fp.Snap();
    NothingDone(fp.fs.g, fat, w, f, a);
    LastByte(fp.fs.g, fat, w, f, a, ofs);
    var clst := ClmtClust(fp.fs.g, fp.cltbl, ofs - 1, fp.mapped);
    SoundCursor(fp.fs.g, fat, w, f, a, clst, ofs);
    fp.fptr := ofs;
    fp.clust := clst;
    res := Ok;
    var dsc := Clst2Sect(fp.fs.g, clst);
    if dsc == 0 {
      res := IntErr;
      return;
    }
    dsc := dsc + fp.fs.g.Within((ofs - 1) / 512);
    if ofs % 512 != 0 && dsc != fp.sect {
      res := fp.Load(dsc);
    }
  }

  /** `f_lseek` with a table: the same file pointer, current cluster and buffered sector as the walk along the FAT,
      within the file as it is. It fails for a file that was empty when its table was made and is not now. */
  method FastSeek(fp: File, want: nat) returns (res: FResult)
    requires fp.Ready() && fp.Intact() && fp.err == Ok && fp.cltbl != null && fp.MapOk()
    modifies fp`err, fp`fptr, fp`clust, fp`sect, fp`dirty, fp.buf, fp.fs`disk
    ensures fp.Ready() && fp.fs.Fat() == old(fp.fs.Fat()) && fp.err == res
    ensures (res == DiskErr ==> !fp.fs.g.reliable) && (res == Ok || res == DiskErr || res == IntErr)
    ensures res == IntErr <==> fp.mapped != fp.chain && want > 0 && fp.objsize > 0
    ensures OnlyOwn(fp.fs.g, fp.chain, old(fp.fs.View()), fp.fs.View())
    ensures res == Ok ==> fp.Intact() && fp.fptr == (if want > fp.objsize then fp.objsize else want)
    ensures res == Ok ==> fp.Bytes() == old(fp.Bytes()) && (fp.sect == old(fp.sect) || Own(fp.fs.g, fp.chain, fp.sect))
    ensures res == Ok ==> fp.CursorPlaced()
  {
    hide FatOf, Volume.View, Geometry.DataFits, Geometry.PowerOfTwo, Own, Sound, Content, OnlyOwn, SameOn, Fragments;
    hide File.CursorPlaced;
    ghost var fat, w, f, a := fp.fs.Fat(), fp.fs.winsect, fp.Fields(), fp.Snap();
    OnlyOwnRefl(fp.fs.g, fp.chain, a.view);
    SameOnRefl(fp.fs.g, fp.chain, a);
    var ofs := want;
    if ofs > fp.objsize {
      ofs := fp.objsize;
    }
    res := Ok;
    if ofs == 0 {
      SoundCursor(fp.fs.g, fat, w, f, a, f.clust, 0);
      fp.fptr := 0;
    } else {
      res := FastSeekTo(fp, ofs);
      if res != Ok {
        fp.err := res;
        return;
      }
    }
    SoundContent(fp.fs.g, fat, w, fp.Fields(), a, fp.Snap());
    fp.CursorPlace();
  }

  /** Where the byte before a target inside the file lies. */
  lemma LastByte(g: Geometry, fat: seq<nat>, w: nat, f: Fil, a: Cache, ofs: nat)
    requires Sound(g, fat, w, f, a) && 0 < ofs <= f.objsize
    ensures InFile(g, f.chain, (ofs - 1) / 512) && g.ClusterOf(ofs - 1) == g.Index((ofs - 1) / 512)
    ensures g.HasEntry(f.chain[g.Index((ofs - 1) / 512)])
    ensures Clst2Sect(g, f.chain[g.Index((ofs - 1) / 512)]) > 0
    ensures Clst2Sect(g, f.chain[g.Index((ofs - 1) / 512)])
      + g.Within((ofs - 1) / 512) == Lba(g, f.chain, (ofs - 1) / 512)
    ensures Own(g, f.chain, Lba(g, f.chain, (ofs - 1) / 512))
    ensures ofs % 512 != 0 ==> (ofs - 1) / 512 == ofs / 512
  {
    hide Geometry.DataFits, Geometry.Index, Geometry.Within, Geometry.PowerOfTwo, Geometry.ClusterOf, Base, Own;
    RoomFor(g, f.chain, f.objsize, ofs - 1);
    ClusterOfIndex(g, ofs - 1);
    ChainClusters(g, fat, f.chain);
    LbaInside(g, f.chain, (ofs - 1) / 512);
    BaseBounds(g, f.chain[g.Index((ofs - 1) / 512)]);
  }

  // ---------------------------------------------------------------- where a table does not fit the file

  /** A file that is empty when its table is made gets one cluster, whatever is free, and a seek in it then fails. */
  method EmptyMapped(fp: File, data: seq<byte>) returns (bw: nat, res: FResult)
    requires fp.Ready() && fp.Intact() && fp.err == Ok && fp.canWrite && fp.cltbl != null && fp.MapOk()
    requires fp.chain == [] && fp.fptr == 0 && CountOk(fp.fs) && FreeCount(fp.fs.Fat()) > 0
    requires fp.fs.g.reliable && !Damaged(fp.fs.Fat()) && fp.fs.g.ClusterBytes() < |data| <= 0xFFFF_FFFF
    modifies fp, fp.buf, fp.fs, fp.fs.win
    ensures bw == fp.fs.g.ClusterBytes() && res == IntErr
  {
    hide FatOf, Volume.View, Geometry.DataFits, Geometry.PowerOfTwo, Own, Sound, Content, OnlyOwn, SameOn, Fragments;
    hide IsTable, FreeCount, Damaged, OthersKept, Geometry.Index, Geometry.Within;
    ghost var fat := fp.fs.Fat();
    var r;
    r, bw := fp.Write(data, |data|);
    OneCluster(fp, fat, bw, |data|);
    res := FastSeek(fp, 1);
  }

  lemma OneCluster(fp: File, fat: seq<nat>, bw: nat, want: nat)
    requires fp.Ready() && fp.Intact() && fp.cltbl != null && fp.MapOk() && fp.mapped == [] && CountOk(fp.fs)
    requires Grown(fat, [], fp.fs.Fat(), fp.chain) && FreeCount(fat) > 0 && fp.fptr == bw <= want
    requires fp.fs.g.ClusterBytes() < want <= 0xFFFF_FFFF
    requires bw == want || bw == 0xFFFF_FFFF || fp.Full(fp.fs.Fat(), fp.fs.freeClst)
    ensures bw == fp.fs.g.ClusterBytes() && |fp.chain| == 1 && fp.objsize > 0
  {
    hide FatOf, Volume.View, Geometry.DataFits, Geometry.PowerOfTwo, Own, Geometry.Index,
      Geometry.Within, Geometry.ClusterBytes, IsTable, CursorOk, Sound;
    var g := fp.fs.g;
    SizeFacts(g, fp.fs.Fat(), fp.fs.winsect, fp.Fields(), fp.Snap());
    SoundGeometry(g, fp.fs.Fat(), fp.fs.winsect, fp.Fields(), fp.Snap());
    FirstOnly(g, fp.objsize);
    FirstEnd(g, bw);
    if fp.chain == [] {
      assert fp.fs.Fat() == fat;
      NoneFree(fat, |fat|);
    }
  }

  lemma FirstOnly(g: Geometry, n: nat)
    requires g.Wf()
    ensures n > 0 && g.Index((n - 1) / 512) < 1 ==> n <= g.ClusterBytes()
  {
    if n > 0 {
      Division.DivMod((n - 1) / 512, g.csize);
    }
  }

  lemma FirstEnd(g: Geometry, p: nat)
    requires g.Wf()
    ensures p % 512 == 0 && g.Index(p / 512) == 1 && g.Within(p / 512) == 0 ==> p == g.ClusterBytes()
    ensures g.ClusterBytes() > 0
  {
    Division.DivMod(p / 512, g.csize);
  }
}
