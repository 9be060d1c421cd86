/** An open file of ff.c: `f_read`, `f_write`, `f_lseek` and `f_truncate` over the sector buffer of the
    file object, the window and the FAT, specified by the bytes of the file and its file pointer. */
module OpenFile {
  import FatOwnership

  import opened Bytes
  import opened FatChains
  import opened Volumes
  import opened ClusterAlloc
  import opened FileLayout
  import opened FileBytes
  import opened LinkTable
  import opened DiskLayout

  class File {
    const fs: Volume
    const buf: array<byte>
    const canRead: bool
    const canWrite: bool
    var err: FResult
    var sclust: nat
    var objsize: nat
    var fptr: nat
    var clust: nat
    var sect: nat
    var dirty: bool
    var modified: bool
    var cltbl: array?<nat>
    ghost var chain: seq<nat>
    ghost var mapped: seq<nat>

    ghost function Fields(): Fil
      reads `chain, `sclust, `objsize, `fptr, `clust, `sect, `dirty
    {
      Fil(chain, sclust, objsize, fptr, clust, sect, dirty)
    }

    /** The link map, if there is one, is the table of the chain, or of the empty chain when the file has got its first
        cluster since. */
    ghost predicate MapOk()
      reads `cltbl, cltbl, `chain, `mapped
    {
      cltbl == null || (IsTable(cltbl, mapped) && (mapped == chain || (mapped == [] && |chain| == 1)))
    }

    ghost predicate Ready()
      reads fs`disk, fs`winsect, fs`wflag, fs.win
    {
      fs.Valid() && buf.Length == 512 && buf != fs.win
    }

    /** The file as it is read through its own buffer and the window. */
    ghost function Snap(): Cache
      requires Ready()
      reads `sect, buf, fs`disk, fs`winsect, fs`wflag, fs.win
    {
      Cache(fs.View(), sect, buf[..])
    }

    ghost predicate Held()
      requires Ready()
      reads `chain, `sclust, `objsize, `fptr, `clust, `sect, `dirty, buf, fs`disk, fs`winsect, fs`wflag, fs.win
    {
      Sound(fs.g, fs.Fat(), fs.winsect, Fields(), Snap())
    }

    ghost predicate Intact()
      requires Ready()
      reads `chain, `sclust, `objsize, `fptr, `clust, `sect, `dirty, buf, fs`disk, fs`winsect, fs`wflag, fs.win
    {
      Held() && CursorOk(fs.g, Fields())
    }

    /** The bytes of the file. */
    ghost function Bytes(): (s: seq<byte>)
      requires Ready() && Intact()
      reads `chain, `sclust, `objsize, `fptr, `clust, `sect, `dirty, buf, fs`disk, fs`winsect, fs`wflag, fs.win
      ensures |s| == objsize
    {
      Content(fs.g, chain, Snap(), objsize)
    }

    /** The end of `f_open`: the object of an existing file whose directory entry names `start` and `size`. */
    constructor (fs: Volume, start: nat, size: nat, canRead: bool, canWrite: bool, ghost cs: seq<nat>)
      requires fs.Valid() && fs.g.DataFits()
      requires ChainOrNone(fs.Fat(), cs) && start == (if cs == [] then 0 else cs[0])
      requires Room(fs.g, cs, size) && size <= 0xFFFF_FFFF && !Own(fs.g, cs, fs.winsect)
      ensures this.fs == fs && this.canRead == canRead && this.canWrite == canWrite && fresh(buf)
      ensures Ready() && Intact() && err == Ok && fptr == 0 && objsize == size && chain == cs && cltbl == null
      ensures sect == 0
    {
      this.fs := fs;
      this.buf := new byte[512](_ => 0);
      this.canRead, this.canWrite := canRead, canWrite;
      this.err, this.sclust, this.objsize, this.fptr, this.clust := Ok, start, size, 0, 0;
      this.sect, this.dirty, this.modified, this.chain, this.cltbl := 0, false, false, cs, null;
      new;
    }

    /** What holds of any file before a call does something. */
    lemma AtRest()
      requires Ready() && Held()
      ensures fs.g.Wf() && fs.g.DataFits() && fs.g.csize > 0 && ChainOrNone(fs.Fat(), chain) && objsize <= 0xFFFF_FFFF
      ensures |fs.Fat()| == fs.g.nFatent && Room(fs.g, chain, objsize)
      ensures Grown(fs.Fat(), chain, fs.Fat(), chain) && OthersKept(fs.Fat(), chain, fs.Fat())
      ensures SameOn(fs.g, chain, Snap(), Snap()) && OnlyOwn(fs.g, chain, fs.View(), fs.View())
    {
      hide FatOf, Volume.View, Geometry.DataFits, Geometry.PowerOfTwo, Own;
      NothingDone(fs.g, fs.Fat(), fs.winsect, Fields(), Snap());
    }

    lemma BytesAre()
      requires Ready() && Intact()
      ensures Bytes() == Content(fs.g, chain, Snap(), objsize)
    {
    }

    /** `Held`, of its parts. */
    lemma HeldIs()
      requires Ready()
      ensures Held() <==> Sound(fs.g, fs.Fat(), fs.winsect, Fields(), Snap())
    {
    }

    /** `Intact`, of its parts. */
    lemma IntactIs()
      requires Ready() && fs.g.csize > 0
      ensures Intact() <==> Sound(fs.g, fs.Fat(), fs.winsect, Fields(), Snap()) && CursorOk(fs.g, Fields())
    {
    }

    lemma CursorInside()
      requires Ready() && Intact()
      ensures Held() && fptr <= objsize
    {
    }

    /** `n` bytes of the file from `p` on are on the device where the clusters of the file are. */
    lemma Placed(p: nat, n: nat)
      requires Ready() && Intact() && p + n <= objsize
      ensures AllOnDisk(fs.g, chain, fs.disk, dirty, sect, buf[..], p, Bytes()[p..p + n])
    {
      hide FatOf, Volume.View, Sound, CursorOk, Content, OnDisk, SectorHas;
      var t := Bytes()[p..p + n];
      forall j: nat | j < n ensures OnDisk(fs.g, chain, fs.disk, dirty, sect, buf[..], p + j, t[j]) {
        ByteOnDisk(fs, Fields(), Snap(), p + j);
      }
      InRowToo(fs.g, chain, fs.disk, dirty, sect, buf[..], p, t);
    }

    /** So are bytes that were written. */
    lemma WrittenPlaced(was: seq<byte>, p: nat, t: seq<byte>)
      requires Ready() && Intact() && p <= |was| && Bytes() == Overwrite(was, p, t)
      ensures AllOnDisk(fs.g, chain, fs.disk, dirty, sect, buf[..], p, t)
    {
      hide *;
      OverwriteMiddle(was, p, t);
      Placed(p, |t|);
    }

    /** The fields of the cursor, in numbers: the cluster of the byte before the file pointer, and a file pointer inside
        a sector has that one in the buffer. */
    ghost predicate CursorPlaced()
      reads `chain, `fptr, `clust, `sect
    {
      && fs.g.csize > 0 && (fptr % 512 != 0 ==> SectorOfByte(fs.g, chain, fptr, sect))
      && (fptr > 0 ==>
            0 <= (fptr - 1) / (fs.g.csize * 512) < |chain| && clust == chain[(fptr - 1) / (fs.g.csize * 512)])
    }

    lemma CursorPlace()
      requires Ready() && Intact()
      ensures CursorPlaced()
    {
      hide FatOf, Volume.View, Geometry.DataFits, Geometry.PowerOfTwo, Lba, Content, SectorOfByte, Sound, Own;
      hide Held, Intact;
      CursorInside();
      AtRest();
      IntactIs();
      if fptr > 0 {
        ChainClusters(fs.g, fs.Fat(), chain);
        CursorSector(fs.g, chain, fptr);
      }
    }

    // -------------------------------------------------------------- the sector buffer

    /** Write a dirty buffer back. */
    method Flush() returns (res: FResult)
      requires Ready() && Held()
      modifies `dirty, fs`disk
      ensures Ready() && fs.Fat() == old(fs.Fat())
      ensures res == Ok || res == DiskErr
      ensures fs.g.reliable ==> res == Ok
      ensures OnlyOwn(fs.g, chain, old(fs.View()), fs.View())
      ensures res == Ok ==> Held() && !dirty && SameOn(fs.g, chain, old(Snap()), Snap())
    {
      hide FatOf, Volume.View, Base, Geometry.DataFits, Geometry.Index, Geometry.Within, Geometry.PowerOfTwo,
        ChainOrNone, Room, Own;
      res := Ok;
      if dirty {
        var ok := fs.WriteData(sect, [buf[..]]);
        if !ok {
          return DiskErr;
        }
        assert fs.View()[sect] == fs.View()[sect..sect + 1][0];
        dirty := false;
      }
    }

    /** Fill the clean buffer from the sector `lba` of the file. */
    method Fetch(lba: nat) returns (res: FResult)
      requires Ready() && Held() && Own(fs.g, chain, lba) && !dirty
      modifies `sect, buf
      ensures Ready() && fs.Fat() == old(fs.Fat())
      ensures res == Ok || res == DiskErr
      ensures fs.g.reliable ==> res == Ok
      ensures res == Ok ==> Held() && sect == lba && SameOn(fs.g, chain, old(Snap()), Snap())
    {
      hide FatOf, Volume.View, Geometry.DataFits, Geometry.Index, Geometry.Within, Geometry.PowerOfTwo, ChainOrNone,
        Room, Patch;
      OwnBounds(fs.g, fs.Fat(), chain, lba);
      hide Own;
      var ok, data := fs.ReadData(lba, 1);
      if !ok {
        return DiskErr;
      }
      CopyIn(buf, 0, data[0], 0, 512);
      PatchAll(old(buf[..]), data[0]);
      sect := lba;
      return Ok;
    }

    /** Bring the sector `lba` of the file into the buffer. */
    method Load(lba: nat) returns (res: FResult)
      requires Ready() && Held() && Own(fs.g, chain, lba)
      modifies `dirty, `sect, buf, fs`disk
      ensures Ready() && fs.Fat() == old(fs.Fat())
      ensures res == Ok || res == DiskErr
      ensures fs.g.reliable ==> res == Ok
      ensures OnlyOwn(fs.g, chain, old(fs.View()), fs.View())
      ensures res == Ok ==> Held() && sect == lba && SameOn(fs.g, chain, old(Snap()), Snap())
    {
      hide FatOf, Volume.View, Geometry.DataFits, Geometry.Index, Geometry.Within, Geometry.PowerOfTwo, ChainOrNone,
        Room, Own, Sound;
      res := Ok;
      if sect != lba {
        res := Flush();
        if res != Ok {
          return;
        }
        res := Fetch(lba);
      }
    }

    // -------------------------------------------------------------- f_read

    /** `clmt_clust` for the byte at the file pointer: the cluster in the table, whether or not it is still the
        file's. */
    method MappedCluster() returns (clst: nat)
      requires Ready() && cltbl != null && IsTable(cltbl, mapped) && fs.g.Wf()
      ensures clst == if fs.g.Index(fptr / 512) < |mapped| then mapped[fs.g.Index(fptr / 512)] else 0
    {
      hide Ready, Geometry.Index, Geometry.Within, Geometry.PowerOfTwo, Geometry.ClusterOf, IsTable;
      ClusterOfIndex(fs.g, fptr);
      clst := ClmtClust(fs.g, cltbl, fptr, mapped);
    }

    /** On a cluster boundary, follow the chain to the cluster of the next byte. */
    method EnterForRead() returns (res: FResult)
      requires Ready() && Intact() && MapOk() && fptr < objsize && fptr % 512 == 0
      modifies `clust, fs`disk, fs`winsect, fs`wflag, fs.win
      ensures Ready() && fs.Fat() == old(fs.Fat())
      ensures res == Ok || res == DiskErr
      ensures fs.g.reliable ==> res == Ok
      ensures OnlyOwn(fs.g, chain, old(fs.View()), fs.View())
      ensures WindowMoved(fs.g, old(fs.winsect), fs.winsect)
      ensures res == Ok ==> Held() && SameOn(fs.g, chain, old(Snap()), Snap())
      ensures res == Ok ==> AtNext()
    {
      hide IsTable, FatOf, Volume.View, Geometry.DataFits, Geometry.Index, Geometry.Within, Geometry.PowerOfTwo, Own;
      ghost var f, a, w := Fields(), Snap(), fs.winsect;
      NextByte(fs.g, fs.Fat(), w, f, a);
      IndexZero(fs.g);
      hide Sound;
      FatAccessKeeps(fs.g, fs.Fat(), w, w, f, a, a);
      res := Ok;
      if fs.g.Within(fptr / 512) == 0 {
        var clst;
        if fptr == 0 {
          clst := sclust;
        } else if cltbl != null {
          clst := MappedCluster();
        } else {
          clst := fs.GetFat(clust);
        }
        FatAccessKeeps(fs.g, fs.Fat(), w, fs.winsect, f, a, Snap());
        if clst < 2 {
          return IntErr;
        }
        if clst == INVALID {
          return DiskErr;
        }
        clust := clst;
        SoundCursor(fs.g, fs.Fat(), fs.winsect, f, Snap(), clst, fptr);
      }
    }

    /** Read `cc` whole sectors straight from the device, but a dirty one of them from the buffer. */
    method ReadDirect(rbuff: array<byte>, at: nat, lba: nat, cc: nat) returns (res: FResult)
      requires Ready() && Held() && fptr % 512 == 0
      requires InFile(fs.g, chain, fptr / 512) && lba == Lba(fs.g, chain, fptr / 512)
      requires fs.g.Within(fptr / 512) + cc <= fs.g.csize
      requires at + cc * 512 <= rbuff.Length && rbuff != buf && rbuff != fs.win && cc > 0
      modifies rbuff
      ensures res == Ok || res == DiskErr
      ensures fs.g.reliable ==> res == Ok
      ensures rbuff[..] == if res == Ok then Patch(old(rbuff[..]), at, Slice(fs.g, chain, Snap(), fptr, cc * 512))
        else old(rbuff[..])
    {
      hide FatOf, Volume.View, ChainOrNone, Room, Lba, ByteOf, Own, Geometry.DataFits, Geometry.Index,
        Geometry.Within, Geometry.PowerOfTwo, Patch, Flatten, Sound, Cache.At, IsChain, File.Held, Slice, Clusters;
      hide Geometry.Wf, InFile;
      HeldIs();
      DirectFacts(fs.g, fs.Fat(), fs.winsect, Fields(), Snap(), cc);
      var ok, data := fs.ReadData(lba, cc);
      if !ok {
        return DiskErr;
      }
      ghost var seen := PutRun(rbuff, at, lba, data);
      SeenRun(fs.g, fs.Fat(), fs.winsect, Fields(), Snap(), data, seen);
      return Ok;
    }

    /** Sectors read from the device into the caller's memory, and over them the dirty one of them. */
    method PutRun(rbuff: array<byte>, at: nat, lba: nat, data: seq<Sector>) returns (ghost seen: seq<Sector>)
      requires buf.Length == 512 && at + |data| * 512 <= rbuff.Length && rbuff != buf
      modifies rbuff
      ensures |seen| == |data| && rbuff[..] == Patch(old(rbuff[..]), at, Flatten(seen))
      ensures seen == if dirty && lba <= sect < lba + |data| then data[sect - lba := buf[..]] else data
    {
      hide Patch, Flatten;
      ghost var was := rbuff[..];
      seen := data;
      CopyIn(rbuff, at, Flatten(data), 0, |data| * 512);
      assert Flatten(data)[0..|data| * 512] == Flatten(data);
      if dirty && lba <= sect < lba + |data| {
        CopyIn(rbuff, at + (sect - lba) * 512, buf[..], 0, 512);
        assert buf[..][0..512] == buf[..];
        FlattenUpdate(was, at, data, sect - lba, buf[..]);
        seen := data[sect - lba := buf[..]];
      }
    }

    /** The current cluster is that of the next byte. */
    ghost predicate AtNext()
      requires fs.g.csize > 0
      reads `chain, `fptr, `clust
    {
      InFile(fs.g, chain, fptr / 512) && clust == chain[fs.g.Index(fptr / 512)]
    }

    /** The whole-sector round of `f_read`: as many sectors as are wanted of the current cluster. */
    method ReadSectors(rbuff: array<byte>, at: nat, btr: nat, lba: nat) returns (res: FResult, rcnt: nat)
      requires Ready() && Held() && AtNext() && fptr % 512 == 0 && 512 <= btr <= objsize - fptr
      requires lba == Lba(fs.g, chain, fptr / 512)
      requires at + btr <= rbuff.Length && rbuff != buf && rbuff != fs.win
      modifies `fptr, rbuff
      ensures Ready()
      ensures res == Ok || res == DiskErr
      ensures fs.g.reliable ==> res == Ok
      ensures res == Ok ==> Intact() && 0 < rcnt <= btr && fptr == old(fptr) + rcnt
      ensures rbuff[..] == if res == Ok then Patch(old(rbuff[..]), at, Slice(fs.g, chain, Snap(), old(fptr), rcnt))
        else old(rbuff[..])
    {
      hide FatOf, Volume.View, Geometry.DataFits, Geometry.Index, Geometry.Within, Geometry.PowerOfTwo;
      hide Patch, ByteOf, Lba, Slice, Sound;
      var csect := fs.g.Within(fptr / 512);
      var cc := btr / 512;
      if csect + cc > fs.g.csize {
        cc := fs.g.csize - csect;
      }
      rcnt := 512 * cc;
      ghost var f := Fields();
      SoundGeometry(fs.g, fs.Fat(), fs.winsect, f, Snap());
      res := ReadDirect(rbuff, at, lba, cc);
      if res == Ok {
        Advance(fs.g, f, rcnt);
        SoundCursor(fs.g, fs.Fat(), fs.winsect, f, Snap(), clust, fptr + rcnt);
        fptr := fptr + rcnt;
      }
    }

    /** A round of `f_read` on a sector boundary: whole sectors straight from the device, or (`rcnt == 0`)
        the next sector brought into the buffer. */
    method ReadAligned(rbuff: array<byte>, at: nat, btr: nat) returns (res: FResult, rcnt: nat)
      requires Ready() && Intact() && MapOk() && 0 < btr <= objsize - fptr && fptr % 512 == 0
      requires at + btr <= rbuff.Length && rbuff != buf && rbuff != fs.win
      modifies `fptr, `clust, `dirty, `sect, buf, fs`disk, fs`winsect, fs`wflag, fs.win, rbuff
      ensures Ready() && fs.Fat() == old(fs.Fat())
      ensures res == Ok || res == DiskErr
      ensures fs.g.reliable ==> res == Ok
      ensures OnlyOwn(fs.g, chain, old(fs.View()), fs.View())
      ensures WindowMoved(fs.g, old(fs.winsect), fs.winsect)
      ensures res == Ok ==> Held() && SameOn(fs.g, chain, old(Snap()), Snap())
      ensures res == Ok ==> sect == old(sect) || Own(fs.g, chain, sect)
      ensures res == Ok && rcnt > 0 ==> Intact() && rcnt <= btr && fptr == old(fptr) + rcnt
      ensures rbuff[..] == if res == Ok && rcnt > 0
        then Patch(old(rbuff[..]), at, Slice(fs.g, chain, Snap(), old(fptr), rcnt))
                           else old(rbuff[..])
      ensures res == Ok && rcnt == 0 ==> AtNext() && fptr == old(fptr) && sect == Lba(fs.g, chain, fptr / 512)
    {
      hide File.MapOk, FatOf, Volume.View, Geometry.DataFits, Geometry.Index, Geometry.Within, Geometry.PowerOfTwo;
      hide Patch, ByteOf, Lba, Base, Slice, Sound, CursorOk;
      rcnt := 0;
      res := EnterForRead();
      if res != Ok {
        return;
      }
      SectorHere(fs.g, fs.Fat(), fs.winsect, Fields(), Snap());
      var lba := Clst2Sect(fs.g, clust);
      if lba == 0 {
        res := IntErr;
        return;
      }
      lba := lba + fs.g.Within(fptr / 512);
      if btr / 512 > 0 {
        res, rcnt := ReadSectors(rbuff, at, btr, lba);
      } else {
        res := Load(lba);
      }
    }

    /** The rest of a round of `f_read`: bytes out of the sector in the buffer. */
    method ReadBuffered(rbuff: array<byte>, at: nat, btr: nat) returns (rcnt: nat)
      requires Ready() && Held() && AtNext() && 0 < btr <= objsize - fptr && sect == Lba(fs.g, chain, fptr / 512)
      requires at + btr <= rbuff.Length && rbuff != buf && rbuff != fs.win
      modifies `fptr, rbuff
      ensures Ready() && Intact() && 0 < rcnt <= btr && fptr == old(fptr) + rcnt
      ensures rbuff[..] == Patch(old(rbuff[..]), at, Slice(fs.g, chain, Snap(), old(fptr), rcnt))
    {
      hide FatOf, Volume.View, Geometry.DataFits, Geometry.Index, Geometry.Within, Geometry.PowerOfTwo;
      hide Patch, ByteOf, Lba, Slice, Sound;
      ghost var f, a := Fields(), Snap();
      SoundGeometry(fs.g, fs.Fat(), fs.winsect, f, a);
      SectorHere(fs.g, fs.Fat(), fs.winsect, f, a);
      rcnt := 512 - fptr % 512;
      if rcnt > btr {
        rcnt := btr;
      }
      CopyIn(rbuff, at, buf[..], fptr % 512, rcnt);
      BufferBytes(fs.g, chain, a, fptr, rcnt);
      Advance(fs.g, f, rcnt);
      SoundCursor(fs.g, fs.Fat(), fs.winsect, f, Snap(), clust, fptr + rcnt);
      fptr := fptr + rcnt;
    }

    /** One round of the loop of `f_read`. */
    method ReadRound(rbuff: array<byte>, at: nat, btr: nat) returns (res: FResult, rcnt: nat)
      requires Ready() && Intact() && MapOk() && 0 < btr <= objsize - fptr
      requires at + btr <= rbuff.Length && rbuff != buf && rbuff != fs.win
      modifies `fptr, `clust, `dirty, `sect, buf, fs`disk, fs`winsect, fs`wflag, fs.win, rbuff
      ensures Ready() && fs.Fat() == old(fs.Fat())
      ensures res == Ok || res == DiskErr
      ensures fs.g.reliable ==> res == Ok
      ensures OnlyOwn(fs.g, chain, old(fs.View()), fs.View())
      ensures WindowMoved(fs.g, old(fs.winsect), fs.winsect)
      ensures res == Ok ==> Intact() && SameOn(fs.g, chain, old(Snap()), Snap())
      ensures res == Ok ==> 0 < rcnt <= btr && fptr == old(fptr) + rcnt
      ensures res == Ok ==> sect == old(sect) || Own(fs.g, chain, sect)
      ensures rbuff[..] == if res == Ok then Patch(old(rbuff[..]), at, Slice(fs.g, chain, Snap(), old(fptr), rcnt))
        else old(rbuff[..])
    {
      hide File.MapOk, FatOf, Volume.View, Geometry.DataFits, Geometry.Index, Geometry.Within, Geometry.PowerOfTwo;
      hide Patch, ByteOf, Lba, Slice, Sound, Own;
      res, rcnt := Ok, 0;
      ghost var f := Fields();
      if fptr % 512 == 0 {
        res, rcnt := ReadAligned(rbuff, at, btr);
      } else {
        SoundGeometry(fs.g, fs.Fat(), fs.winsect, f, Snap());
        CurrentCluster(fs.g, f);
      }
      if res == Ok && rcnt == 0 {
        rcnt := ReadBuffered(rbuff, at, btr);
      }
    }

    /** The loop of `f_read`. */
    method ReadLoop(rbuff: array<byte>, total: nat) returns (res: FResult, br: nat)
      requires Ready() && Intact() && MapOk() && total <= objsize - fptr
      requires total <= rbuff.Length && rbuff != buf && rbuff != fs.win
      modifies `fptr, `clust, `dirty, `sect, buf, fs`disk, fs`winsect, fs`wflag, fs.win, rbuff
      ensures Ready() && fs.Fat() == old(fs.Fat())
      ensures (res == Ok || res == DiskErr) && (fs.g.reliable ==> res == Ok)
      ensures OnlyOwn(fs.g, chain, old(fs.View()), fs.View())
      ensures WindowMoved(fs.g, old(fs.winsect), fs.winsect)
      ensures sect == old(sect) || Own(fs.g, chain, sect) || res != Ok
      ensures res == Ok ==>
        Intact() && SameOn(fs.g, chain, old(Snap()), Snap()) && br == total && fptr == old(fptr) + br
      ensures res == Ok ==>
        rbuff[..] == Patch(old(rbuff[..]), 0, Slice(fs.g, chain, old(Snap()), old(fptr), br))
    {
      hide File.MapOk, FatOf, Volume.View, Geometry.DataFits, Geometry.Index, Geometry.Within, Geometry.PowerOfTwo;
      hide Patch, ByteOf, Lba, Slice, Sound, Own, CursorOk;
      br, res := 0, Ok;
      var btr := total;
      ghost var a0, v0, p0, r0 := Snap(), fs.View(), fptr, rbuff[..];
      SameOnRefl(fs.g, chain, a0);
      OnlyOwnRefl(fs.g, chain, v0);
      PatchNothing(r0, 0);
      SliceNothing(fs.g, chain, a0, p0);
      while btr > 0
        invariant res == Ok && Ready() && Intact() && MapOk() && fs.Fat() == old(fs.Fat())
        invariant SameOn(fs.g, chain, a0, Snap()) && OnlyOwn(fs.g, chain, v0, fs.View())
        invariant WindowMoved(fs.g, old(fs.winsect), fs.winsect)
        invariant sect == old(sect) || Own(fs.g, chain, sect)
        invariant 0 <= btr && br + btr == total && fptr == p0 + br && p0 + total <= objsize
        invariant rbuff[..] == Patch(r0, 0, Slice(fs.g, chain, a0, p0, br))
      {
        ghost var a1, v1 := Snap(), fs.View();
        var rcnt;
        res, rcnt := ReadRound(rbuff, br, btr);
        OnlyOwnTrans(fs.g, chain, chain, v0, v1, fs.View());
        if res != Ok {
          return;
        }
        SameOnTrans(fs.g, chain, a0, a1, Snap());
        ReadOn(fs.g, fs.Fat(), fs.winsect, Fields(), a0, Snap(), p0, br, rcnt, r0);
        btr := btr - rcnt;
        br := br + rcnt;
      }
    }

    /** `f_read`: on success the next `br` bytes of the file, as many as are wanted and left, are in `rbuff`,
        and the file pointer has moved past them; the file itself is the same. */
    method Read(rbuff: array<byte>, want: nat) returns (res: FResult, br: nat)
      requires Ready() && (err == Ok ==> Intact() && MapOk())
      requires want <= rbuff.Length && rbuff != buf && rbuff != fs.win
      modifies `err, `fptr, `clust, `dirty, `sect, buf, fs`disk, fs`winsect, fs`wflag, fs.win, rbuff
      ensures Ready() && fs.Fat() == old(fs.Fat()) && (err == Ok ==> Intact())
      ensures OnlyOwn(fs.g, chain, old(fs.View()), fs.View())
      ensures WindowMoved(fs.g, old(fs.winsect), fs.winsect)
      ensures res == Ok || res == Denied ==> sect == old(sect) || Own(fs.g, chain, sect)
      ensures old(err) != Ok ==> res == old(err) == err && br == 0
      ensures old(err) == Ok && !canRead ==>
        res == Denied && err == Ok && br == 0 && Bytes() == old(Bytes()) && fptr == old(fptr)
      ensures old(err) == Ok && canRead && fs.g.reliable ==> res == Ok
      ensures old(err) == Ok && canRead ==> err == res && (res == Ok || res == DiskErr)
      ensures old(err) == Ok && canRead && res == Ok ==>
                && br == (if want <= objsize - old(fptr) then want else objsize - old(fptr))
                && fptr == old(fptr) + br
                && Bytes() == old(Bytes())
                && rbuff[..] == Patch(old(rbuff[..]), 0, Bytes()[old(fptr)..fptr])
      ensures old(err) == Ok && canRead && res == Ok ==>
        br <= rbuff.Length
        && AllOnDisk(fs.g, chain, old(fs.disk), old(dirty), old(sect), old(buf[..]), old(fptr), rbuff[..br])
    {
      hide AllOnDisk;
      hide File.MapOk, FatOf, Volume.View, Geometry.DataFits, Geometry.Index, Geometry.Within, Geometry.PowerOfTwo;
      hide Patch, ByteOf, Lba, Slice, Sound, Own, OnlyOwn;
      OthersRefl(fs.g, fs.Fat(), chain, fs.View());
      br := 0;
      if err != Ok {
        return err, br;
      }
      if !canRead {
        return Denied, br;
      }
      var remain := objsize - fptr;
      var btr := want;
      if btr > remain {
        btr := remain;
      }
      ghost var a0, p0, r0 := Snap(), fptr, rbuff[..];
      Placed(p0, btr);
      res, br := ReadLoop(rbuff, btr);
      if res != Ok {
        err := res;
        return;
      }
      SliceOfContent(fs.g, chain, a0, objsize, p0, br);
      SoundContent(fs.g, fs.Fat(), fs.winsect, Fields(), a0, Snap());
      PatchedFront(r0, Bytes()[p0..fptr]);
    }

    // -------------------------------------------------------------- f_write

    /** `create_chain` after the first `i` clusters of the file: the next cluster of the chain, or a new one
        linked to its end; 0 when no cluster could be had. */
    method FollowOrGrow(cl: nat, ghost i: nat) returns (clst: nat)
      requires Ready() && Held() && i <= |chain| && (if i == 0 then chain == [] && cl == 0 else cl == chain[i - 1])
      modifies `sclust, `chain, fs, fs.win
      ensures Ready()
      ensures OthersKept(old(fs.Fat()), old(chain), fs.Fat()) && OnlyOwn(fs.g, old(chain), old(fs.View()), fs.View())
      ensures WindowMoved(fs.g, old(fs.winsect), fs.winsect)
      ensures clst != INVALID && old(CountOk(fs)) ==> CountOk(fs)
      ensures clst == INVALID ==> !fs.g.reliable
      ensures clst == 1 ==> Damaged(old(fs.Fat()))
      ensures clst == 0 ==> NoSpace(fs.g, fs.Fat(), fs.freeClst) && chain == old(chain) && i == |chain|
      ensures clst != 1 && clst != INVALID ==> Held() && SameOn(fs.g, old(chain), old(Snap()), Snap())
      ensures clst != 1 && clst != INVALID ==> Grown(old(fs.Fat()), old(chain), fs.Fat(), chain)
      ensures clst >= 2 && clst != INVALID ==> i < |chain| && chain[i] == clst && fs.g.HasEntry(clst)
      ensures old(chain) <= chain && OnlyOwn(fs.g, chain, old(fs.View()), fs.View())
      ensures chain == old(chain) || chain == old(chain) + [clst]
    {
      hide FatOf, Volume.View, Geometry.DataFits, Geometry.Index, Geometry.Within, Geometry.PowerOfTwo;
      hide Own, FreeCount, UsedBetween, Created, ChainOrNone, SameOn, OnlyOwn, Untouched, Grown, Room, WindowMoved;
      ghost var fat, f, a, w := fs.Fat(), Fields(), Snap(), fs.winsect;
      GrownRefl(fat, chain);
      GrownKeepsOthers(fat, chain, fat, chain);
      ChainLinks(fs.g, fat, chain, i);
      ChainClusters(fs.g, fat, chain);
      clst := CreateChain(fs, cl);
      FatAccessKeeps(fs.g, fat, w, fs.winsect, f, a, Snap());
      if clst == 0 || clst == 1 || clst == INVALID {
        return;
      }
      if i == |chain| {
        GrowthKeeps(fs.g, fat, w, fs.winsect, f, a, Snap(), clst);
        GrownKeepsOthers(fat, f.chain, fs.Fat(), f.chain + [clst]);
        OnlyOwnRefl(fs.g, f.chain + [clst], fs.View());
        OnlyOwnTrans(fs.g, f.chain, f.chain + [clst], a.view, fs.View(), fs.View());
        chain := chain + [clst];
      }
      if sclust == 0 {
        sclust := clst;
      }
    }

    /** The file pointer is at the end of the last cluster of the file, and the file gets no other: no cluster is free,
        or it has a link map, which is never extended. */
    ghost predicate Full(fat: seq<nat>, free: nat)
      requires fs.g.csize > 0 && |fat| == fs.g.nFatent
      reads `chain, `fptr, `cltbl
    {
      (NoSpace(fs.g, fat, free) || (cltbl != null && chain != []))
      && fptr % 512 == 0 && fs.g.Index(fptr / 512) == |chain| && fs.g.Within(fptr / 512) == 0
    }

    /** On a cluster boundary, follow or stretch the chain to the cluster of the next byte; `full` when no
        cluster could be had. */
    method EnterForWrite() returns (res: FResult, full: bool)
      requires Ready() && Intact() && MapOk() && fptr % 512 == 0
      modifies `clust, `sclust, `chain, fs, fs.win
      ensures Ready()
      ensures res == Ok || res == DiskErr || res == IntErr
      ensures res == DiskErr ==> !fs.g.reliable
      ensures res == IntErr ==> Damaged(old(fs.Fat()))
      ensures OthersKept(old(fs.Fat()), old(chain), fs.Fat()) && OnlyOwn(fs.g, old(chain), old(fs.View()), fs.View())
      ensures res == Ok ==> MapOk()
      ensures old(cltbl != null && chain != []) ==> fs.Fat() == old(fs.Fat()) && chain == old(chain)
      ensures WindowMoved(fs.g, old(fs.winsect), fs.winsect)
      ensures res != DiskErr && old(CountOk(fs)) ==> CountOk(fs)
      ensures res == Ok ==>
        Grown(old(fs.Fat()), old(chain), fs.Fat(), chain) && SameOn(fs.g, old(chain), old(Snap()), Snap())
      ensures old(chain) <= chain
      ensures res == Ok ==> Held()
      ensures res == Ok && !full ==> AtNext()
      ensures res == Ok && full ==> Intact() && chain == old(chain) && Full(fs.Fat(), fs.freeClst)
    {
      hide IsTable, FatOf, Volume.View, Geometry.DataFits, Geometry.Index, Geometry.Within, Geometry.PowerOfTwo;
      hide Own, FreeCount, Sound, Grown, SameOn, OnlyOwn, NoSpace, OthersKept, Lba, CountOk, Damaged, Full, IsChain;
      hide File.Held, File.Intact, File.MapOk;
      res, full := Ok, false;
      CursorInside();
      AtRest();
      InsideCell();
      if fs.g.Within(fptr / 512) == 0 {
        var clst := ChooseCluster();
        if clst == 0 {
          return Ok, true;
        }
        if clst == 1 {
          return IntErr, full;
        }
        if clst == INVALID {
          return DiskErr, full;
        }
        HeldIs();
        SoundCursor(fs.g, fs.Fat(), fs.winsect, Fields(), Snap(), clst, fptr);
        clust := clst;
        HeldIs();
      }
    }

    /** Inside a cluster the current one is that of the next byte. */
    lemma InsideCell()
      requires Ready() && Intact() && fptr % 512 == 0
      ensures fs.g.csize > 0 && (fs.g.Within(fptr / 512) != 0 ==> AtNext())
    {
      hide FatOf, Volume.View, Geometry.DataFits, Geometry.Index, Geometry.Within, Geometry.PowerOfTwo, Own, Lba;
      IndexZero(fs.g);
      NextCell(fs.g, fs.Fat(), fs.winsect, Fields(), Snap());
    }

    /** The cluster of the next byte, on a cluster boundary: the first of the file, that of the link map, or the next of
        the chain; 0 when no cluster could be had. */
    method ChooseCluster() returns (clst: nat)
      requires Ready() && Intact() && MapOk() && fptr % 512 == 0 && fs.g.csize > 0 && fs.g.Within(fptr / 512) == 0
      modifies `sclust, `chain, fs, fs.win
      ensures Ready()
      ensures OthersKept(old(fs.Fat()), old(chain), fs.Fat()) && OnlyOwn(fs.g, old(chain), old(fs.View()), fs.View())
      ensures old(cltbl != null && chain != []) ==> fs.Fat() == old(fs.Fat()) && chain == old(chain)
      ensures WindowMoved(fs.g, old(fs.winsect), fs.winsect) && old(chain) <= chain
      ensures clst != INVALID && old(CountOk(fs)) ==> CountOk(fs)
      ensures (clst == INVALID ==> !fs.g.reliable) && (clst == 1 ==> Damaged(old(fs.Fat())))
      ensures clst != 1 && clst != INVALID ==> Held() && MapOk() && SameOn(fs.g, old(chain), old(Snap()), Snap())
      ensures clst != 1 && clst != INVALID ==> Grown(old(fs.Fat()), old(chain), fs.Fat(), chain)
      ensures clst == 0 ==> Intact() && chain == old(chain) && Full(fs.Fat(), fs.freeClst)
      ensures clst >= 2 && clst != INVALID ==> InFile(fs.g, chain, fptr / 512) && clst == chain[fs.g.Index(fptr / 512)]
    {
      hide IsTable, FatOf, Volume.View, Geometry.DataFits, Geometry.Index, Geometry.Within, Geometry.PowerOfTwo;
      hide Own, FreeCount, Sound, Grown, SameOn, OnlyOwn, NoSpace, OthersKept, Lba, CountOk, Damaged, IsChain;
      hide File.Held, File.Intact;
      CursorInside();
      AtRest();
      IntactIs();
      IndexZero(fs.g);
      ChainClusters(fs.g, fs.Fat(), chain);
      NextCell(fs.g, fs.Fat(), fs.winsect, Fields(), Snap());
      if fptr == 0 {
        clst := sclust;
        if clst == 0 {
          clst := FollowOrGrow(0, 0);
        }
      } else if cltbl != null {
        clst := MappedCluster();
      } else {
        clst := FollowOrGrow(clust, fs.g.Index(fptr / 512));
      }
      if clst == 0 {
        IntactIs();
        HeldIs();
      }
    }

    /** Store whole sectors straight to the device, and refresh the buffer if it holds one of them. */
    method StoreSectors(chunk: seq<byte>, lba: nat, cc: nat) returns (res: FResult)
      requires Ready() && Held() && !dirty && InFile(fs.g, chain, fptr / 512) && lba == Lba(fs.g, chain, fptr / 512)
      requires 0 < cc && fs.g.Within(fptr / 512) + cc <= fs.g.csize && |chunk| == cc * 512
      modifies buf, fs`disk
      ensures Ready() && fs.Fat() == old(fs.Fat())
      ensures res == Ok || res == DiskErr
      ensures fs.g.reliable ==> res == Ok
      ensures OnlyOwn(fs.g, chain, old(fs.View()), fs.View())
      ensures res == Ok ==> Held() && Stored(fs.g, chain, old(Snap()), Snap(), lba, Sectors(chunk, cc))
    {
      hide FatOf, Volume.View, Geometry.DataFits, Geometry.Index, Geometry.Within, Geometry.PowerOfTwo;
      hide Lba, Own, Flatten, Sectors, Patch, Stored, OnlyOwn, Sound, IsChain, ChainOrNone, Untouched, Clusters;
      ghost var a, f, fat, w := Snap(), Fields(), fs.Fat(), fs.winsect;
      StoreRange(fs.g, fat, w, f, a, cc);
      var data := Sectors(chunk, cc);
      res := PutSectors(data, lba);
      WroteOwn(fs.g, chain, a.view, fs.View(), lba, cc);
      if res != Ok {
        return;
      }
      OwnInside(fs.g, fat, w, f, a);
      StoredSound(fs.g, fat, w, f, a, Snap(), lba, data);
    }

    /** `disk_write` of whole sectors, wherever they are, and the buffer refreshed if it holds one of them. */
    method PutSectors(data: seq<Sector>, lba: nat) returns (res: FResult)
      requires Ready() && fs.g.database <= lba && lba + |data| <= fs.g.nsect
      requires !(lba <= fs.winsect < lba + |data|)
      modifies buf, fs`disk
      ensures Ready() && fs.Fat() == old(fs.Fat())
      ensures (res == Ok || res == DiskErr) && (fs.g.reliable ==> res == Ok)
      ensures forall s: nat :: s < fs.g.nsect && !(lba <= s < lba + |data|) ==> fs.View()[s] == old(fs.View())[s]
      ensures res == Ok ==> forall s: nat :: lba <= s < lba + |data| ==> fs.View()[s] == data[s - lba]
      ensures res == Ok ==> buf[..] == if lba <= sect < lba + |data| then data[sect - lba] else old(buf[..])
    {
      hide FatOf, Volume.View, Geometry.DataFits, Geometry.Index, Geometry.Within, Geometry.PowerOfTwo, Patch;
      ghost var v, was := fs.View(), buf[..];
      var ok := fs.WriteData(lba, data);
      if !ok {
        return DiskErr;
      }
      WrittenRun(v, fs.View(), lba, data);
      if lba <= sect < lba + |data| {
        CopyIn(buf, 0, data[sect - lba], 0, 512);
        PatchAll(was, data[sect - lba]);
      }
      return Ok;
    }

    /** Put bytes into the sector `lba` in the buffer, which then differs from the device. */
    method StoreBuffered(chunk: seq<byte>, lba: nat)
      requires Ready() && Held() && InFile(fs.g, chain, fptr / 512) && lba == Lba(fs.g, chain, fptr / 512)
      requires 0 < |chunk| && fptr % 512 + |chunk| <= 512 && fptr <= objsize
      requires sect == lba || (!dirty && fptr % 512 == 0 && fptr == objsize)
      modifies `sect, `dirty, buf
      ensures Ready() && Held() && sect == lba
      ensures Own(fs.g, chain, sect)
      ensures var m := if fptr + |chunk| <= objsize then objsize else fptr + |chunk|;
              Buffered(fs.g, chain, old(Snap()), Snap(), lba, fptr % 512, chunk, m - fptr / 512 * 512)
    {
      hide FatOf, Volume.View, Geometry.DataFits, Geometry.Index, Geometry.Within, Geometry.PowerOfTwo;
      hide Lba, Sound, Own, Patch, Buffered, File.Held;
      HeldIs();
      ghost var f, a := Fields(), Snap();
      BufferedIs(fs.g, fs.Fat(), fs.winsect, f, a, lba, chunk);
      sect := lba;
      CopyIn(buf, fptr % 512, chunk, 0, |chunk|);
      assert chunk[0..|chunk|] == chunk;
      dirty := true;
      HeldIs();
    }

    /** The step of the write loop past `n` stored bytes: the file pointer moves on, and the size with it. */
    method MovePast(n: nat)
      requires Ready() && Held() && AtNext() && 0 < n && fptr <= objsize && fptr + n <= 0xFFFF_FFFF
      requires || (fptr % 512 + n <= 512 && sect == Lba(fs.g, chain, fptr / 512))
               || (fptr % 512 == 0 && n % 512 == 0 && fs.g.Within(fptr / 512) + n / 512 <= fs.g.csize)
      requires Room(fs.g, chain, if fptr + n <= objsize then objsize else fptr + n)
      modifies `fptr, `objsize
      ensures Ready() && Intact() && fptr == old(fptr) + n
      ensures objsize == if old(fptr) + n <= old(objsize) then old(objsize) else old(fptr) + n
    {
      hide FatOf, Volume.View, Geometry.DataFits, Geometry.Index, Geometry.Within, Geometry.PowerOfTwo;
      hide Lba, Own, ChainOrNone, Room;
      ghost var f := Fields();
      fptr := fptr + n;
      if fptr > objsize {
        objsize := fptr;
      }
      Advance(fs.g, f.(objsize := objsize), n);
    }

    /** The whole-sector round of `f_write`. */
    method WriteSectors(wbuff: seq<byte>, at: nat, btw: nat, lba: nat) returns (res: FResult, wcnt: nat)
      requires Ready() && Held() && AtNext() && !dirty && fptr % 512 == 0 && fptr <= objsize
        && fptr + btw <= 0xFFFF_FFFF
      requires 512 <= btw && at + btw <= |wbuff| && lba == Lba(fs.g, chain, fptr / 512)
      modifies `fptr, `objsize, buf, fs`disk
      ensures Ready() && fs.Fat() == old(fs.Fat())
      ensures res == Ok || res == DiskErr
      ensures fs.g.reliable ==> res == Ok
      ensures OnlyOwn(fs.g, chain, old(fs.View()), fs.View())
      ensures res == Ok ==> Intact() && 0 < wcnt <= btw && fptr == old(fptr) + wcnt
      ensures res == Ok ==>
        Bytes() == Overwrite(Content(fs.g, chain, old(Snap()), old(objsize)), old(fptr), wbuff[at..at + wcnt])
    {
      hide FatOf, Volume.View, Geometry.DataFits, Geometry.Index, Geometry.Within, Geometry.PowerOfTwo;
      hide File.Held, File.Intact, File.Bytes, IsChain, Flatten;
      hide Lba, Sound, Stored, Content, Overwrite, Room, CursorOk, Sectors;
      HeldIs();
      SoundGeometry(fs.g, fs.Fat(), fs.winsect, Fields(), Snap());
      var csect := fs.g.Within(fptr / 512);
      var cc := btw / 512;
      if csect + cc > fs.g.csize {
        cc := fs.g.csize - csect;
      }
      wcnt := 512 * cc;
      var chunk := wbuff[at..at + wcnt];
      ghost var f, fat, w, a, data := Fields(), fs.Fat(), fs.winsect, Snap(), Sectors(chunk, cc);
      res := StoreSectors(chunk, lba, cc);
      if res == Ok {
        ghost var m := if fptr + wcnt <= objsize then objsize else fptr + wcnt;
        StoredContent(fs.g, fat, w, f, a, Snap(), fptr, data, m);
        MovePast(wcnt);
        BytesAre();
      }
    }

    /** The rest of a round of `f_write`: bytes into the sector in the buffer. */
    method WriteBuffered(wbuff: seq<byte>, at: nat, btw: nat, lba: nat) returns (wcnt: nat)
      requires Ready() && Held() && AtNext() && fptr <= objsize && fptr + btw <= 0xFFFF_FFFF
      requires 0 < btw && at + btw <= |wbuff| && lba == Lba(fs.g, chain, fptr / 512)
      requires sect == lba || (!dirty && fptr % 512 == 0 && fptr == objsize)
      modifies `fptr, `objsize, `sect, `dirty, buf
      ensures Ready() && Intact() && 0 < wcnt <= btw && fptr == old(fptr) + wcnt
      ensures Own(fs.g, chain, sect)
      ensures Bytes() == Overwrite(Content(fs.g, chain, old(Snap()), old(objsize)), old(fptr), wbuff[at..at + wcnt])
    {
      hide File.Held, File.Intact, File.Bytes, IsChain;
      hide FatOf, Volume.View, Geometry.DataFits, Geometry.Index, Geometry.Within, Geometry.PowerOfTwo;
      hide Lba, Sound, Buffered, Content, Overwrite, Room, CursorOk;
      HeldIs();
      SoundGeometry(fs.g, fs.Fat(), fs.winsect, Fields(), Snap());
      wcnt := 512 - fptr % 512;
      if wcnt > btw {
        wcnt := btw;
      }
      var chunk := wbuff[at..at + wcnt];
      ghost var f, fat, w, a := Fields(), fs.Fat(), fs.winsect, Snap();
      StoreBuffered(chunk, lba);
      ghost var m := if fptr + wcnt <= objsize then objsize else fptr + wcnt;
      BufferedContent(fs.g, fat, w, f, a, Snap(), fptr, chunk, m);
      MovePast(wcnt);
      BytesAre();
    }

    /** A round of `f_write` on a sector boundary: whole sectors straight to the device, or (`wcnt == 0`)
        the buffer prepared for the next sector `lba`; `full` when no cluster could be had. */
    method WriteAligned(wbuff: seq<byte>, at: nat, btw: nat) returns (res: FResult, full: bool, wcnt: nat, lba: nat)
      requires Ready() && Intact() && MapOk() && fptr % 512 == 0 && fptr + btw <= 0xFFFF_FFFF
      requires 0 < btw && at + btw <= |wbuff|
      modifies `clust, `sclust, `chain, `fptr, `objsize, `sect, `dirty, buf, fs, fs.win
      ensures Ready()
      ensures res == Ok || res == DiskErr || res == IntErr
      ensures res == DiskErr ==> !fs.g.reliable
      ensures res == IntErr ==> Damaged(old(fs.Fat()))
      ensures OthersKept(old(fs.Fat()), old(chain), fs.Fat()) && OnlyOwn(fs.g, chain, old(fs.View()), fs.View())
        && old(chain) <= chain
      ensures res == Ok ==> MapOk()
      ensures old(cltbl != null && chain != []) ==> fs.Fat() == old(fs.Fat()) && chain == old(chain)
      ensures WindowMoved(fs.g, old(fs.winsect), fs.winsect)
      ensures res != DiskErr && old(CountOk(fs)) ==> CountOk(fs)
      ensures res == Ok ==> Grown(old(fs.Fat()), old(chain), fs.Fat(), chain)
      ensures res == Ok ==> sect == old(sect) || Own(fs.g, chain, sect)
      ensures res == Ok && full ==>
        Intact() && Bytes() == old(Bytes()) && fptr == old(fptr) && Full(fs.Fat(), fs.freeClst)
      ensures res == Ok && !full && wcnt > 0 ==> Intact() && wcnt <= btw && fptr == old(fptr) + wcnt
      ensures res == Ok && !full && wcnt > 0 ==> Bytes() == Overwrite(old(Bytes()), old(fptr), wbuff[at..at + wcnt])
      ensures res == Ok && !full && wcnt == 0 ==> Held() && AtNext() && fptr == old(fptr) && objsize == old(objsize)
      ensures res == Ok && !full && wcnt == 0 ==> Content(fs.g, chain, Snap(), objsize) == old(Bytes())
      ensures res == Ok && !full && wcnt == 0 ==>
        lba == Lba(fs.g, chain, fptr / 512) && (sect == lba || (!dirty && fptr == objsize))
    {
      hide File.MapOk, FatOf, Volume.View, Geometry.DataFits, Geometry.Index, Geometry.Within, Geometry.PowerOfTwo;
      hide Lba, Base, Sound, Content, Overwrite, Room, CursorOk, SameOn, OnlyOwn, Grown, OthersKept, Own, FreeCount,
        NoSpace;
      wcnt, lba := 0, 0;
      ghost var a, f, v0 := Snap(), Fields(), fs.View();
      SizeFacts(fs.g, fs.Fat(), fs.winsect, f, a);
      res, full := EnterForWrite();
      OnlyOwnTrans(fs.g, f.chain, chain, v0, fs.View(), fs.View()) by { SameOnRefl(fs.g, chain, Snap()); }
      if res != Ok {
        return;
      }
      GrownContent(fs.g, fs.Fat(), fs.winsect, Fields(), f.chain, a, Snap());
      if full {
        return;
      }
      ghost var v1 := fs.View();
      res, wcnt, lba := StoreAligned(wbuff, at, btw);
      OnlyOwnTrans(fs.g, chain, chain, v0, v1, fs.View());
    }

    /** The part of such a round that follows once the cluster is known. */
    method StoreAligned(wbuff: seq<byte>, at: nat, btw: nat) returns (res: FResult, wcnt: nat, lba: nat)
      requires Ready() && Held() && AtNext() && fptr <= objsize && fptr % 512 == 0 && fptr + btw <= 0xFFFF_FFFF
      requires 0 < btw && at + btw <= |wbuff|
      modifies `fptr, `objsize, `sect, `dirty, buf, fs`disk
      ensures Ready() && fs.Fat() == old(fs.Fat())
      ensures res == Ok || res == DiskErr
      ensures fs.g.reliable ==> res == Ok
      ensures OnlyOwn(fs.g, chain, old(fs.View()), fs.View())
      ensures res == Ok ==> sect == old(sect) || Own(fs.g, chain, sect)
      ensures res == Ok && wcnt > 0 ==> Intact() && wcnt <= btw && fptr == old(fptr) + wcnt
      ensures res == Ok && wcnt > 0 ==>
        Bytes() == Overwrite(Content(fs.g, chain, old(Snap()), old(objsize)), old(fptr), wbuff[at..at + wcnt])
      ensures res == Ok && wcnt == 0 ==> Held() && AtNext() && fptr == old(fptr) && objsize == old(objsize)
      ensures res == Ok && wcnt == 0 ==>
        Content(fs.g, chain, Snap(), objsize) == Content(fs.g, chain, old(Snap()), objsize)
      ensures res == Ok && wcnt == 0 ==>
        lba == Lba(fs.g, chain, fptr / 512) && (sect == lba || (!dirty && fptr == objsize))
    {
      hide FatOf, Volume.View, Geometry.DataFits, Geometry.Index, Geometry.Within, Geometry.PowerOfTwo;
      hide Lba, Base, Sound, Content, Overwrite, Room, CursorOk, SameOn, OnlyOwn, Own;
      wcnt, lba := 0, 0;
      ghost var a, f, v0 := Snap(), Fields(), fs.View();
      res := Flush();
      if res != Ok {
        return;
      }
      ghost var v1 := fs.View();
      SameOnRefl(fs.g, chain, Snap());
      SoundContent(fs.g, fs.Fat(), fs.winsect, Fields(), a, Snap());
      SectorHere(fs.g, fs.Fat(), fs.winsect, Fields(), Snap());
      lba := Clst2Sect(fs.g, clust);
      if lba == 0 {
        res := IntErr;
        return;
      }
      lba := lba + fs.g.Within(fptr / 512);
      if btw / 512 > 0 {
        res, wcnt := WriteSectors(wbuff, at, btw, lba);
      } else if sect != lba && fptr < objsize {
        ghost var b := Snap();
        res := Fetch(lba);
        if res == Ok {
          SameOnTrans(fs.g, chain, a, b, Snap());
          SoundContent(fs.g, fs.Fat(), fs.winsect, Fields(), a, Snap());
        }
      }
      OnlyOwnTrans(fs.g, chain, chain, v0, v1, fs.View());
    }

    /** One round of the loop of `f_write`. */
    method WriteRound(wbuff: seq<byte>, at: nat, btw: nat) returns (res: FResult, full: bool, wcnt: nat)
      requires Ready() && Intact() && MapOk() && fptr + btw <= 0xFFFF_FFFF && 0 < btw && at + btw <= |wbuff|
      modifies `clust, `sclust, `chain, `fptr, `objsize, `sect, `dirty, buf, fs, fs.win
      ensures Ready()
      ensures res == Ok || res == DiskErr || res == IntErr
      ensures res == DiskErr ==> !fs.g.reliable
      ensures res == IntErr ==> Damaged(old(fs.Fat()))
      ensures OthersKept(old(fs.Fat()), old(chain), fs.Fat()) && OnlyOwn(fs.g, chain, old(fs.View()), fs.View())
        && old(chain) <= chain
      ensures res == Ok ==> MapOk()
      ensures old(cltbl != null && chain != []) ==> fs.Fat() == old(fs.Fat()) && chain == old(chain)
      ensures WindowMoved(fs.g, old(fs.winsect), fs.winsect)
      ensures res != DiskErr && old(CountOk(fs)) ==> CountOk(fs)
      ensures res == Ok ==> Intact() && Grown(old(fs.Fat()), old(chain), fs.Fat(), chain)
      ensures res == Ok ==> sect == old(sect) || Own(fs.g, chain, sect)
      ensures res == Ok && full ==> Bytes() == old(Bytes()) && fptr == old(fptr) && Full(fs.Fat(), fs.freeClst)
      ensures res == Ok && !full ==> 0 < wcnt <= btw && fptr == old(fptr) + wcnt
      ensures res == Ok && !full ==> Bytes() == Overwrite(old(Bytes()), old(fptr), wbuff[at..at + wcnt])
    {
      hide File.MapOk, FatOf, Volume.View, Geometry.DataFits, Geometry.Index, Geometry.Within, Geometry.PowerOfTwo;
      hide Lba, Sound, Content, Overwrite, Room, CursorOk, SameOn, OnlyOwn, Grown, OthersKept, Own, FreeCount, NoSpace;
      res, full, wcnt := Ok, false, 0;
      ghost var fat, f, a, w := fs.Fat(), Fields(), Snap(), fs.winsect;
      NothingDone(fs.g, fat, w, f, a);
      SizeFacts(fs.g, fat, w, f, a);
      var lba := sect;
      if fptr % 512 == 0 {
        res, full, wcnt, lba := WriteAligned(wbuff, at, btw);
      } else {
        CurrentCluster(fs.g, f);
      }
      if res == Ok && !full && wcnt == 0 {
        wcnt := WriteBuffered(wbuff, at, btw, lba);
      }
    }

    /** The loop of `f_write`. */
    method WriteLoop(wbuff: seq<byte>, total: nat) returns (res: FResult, bw: nat)
      requires Ready() && Intact() && MapOk() && total <= |wbuff| && fptr + total <= 0xFFFF_FFFF
      modifies `clust, `sclust, `chain, `fptr, `objsize, `sect, `dirty, buf, fs, fs.win
      ensures Ready()
      ensures res == Ok || res == DiskErr || res == IntErr
      ensures (res == DiskErr ==> !fs.g.reliable) && (res == IntErr ==> Damaged(old(fs.Fat())))
      ensures OthersKept(old(fs.Fat()), old(chain), fs.Fat()) && OnlyOwn(fs.g, chain, old(fs.View()), fs.View())
        && old(chain) <= chain
      ensures res == Ok ==> MapOk()
      ensures old(cltbl != null && chain != []) ==> fs.Fat() == old(fs.Fat()) && chain == old(chain)
      ensures WindowMoved(fs.g, old(fs.winsect), fs.winsect)
      ensures res != DiskErr && old(CountOk(fs)) ==> CountOk(fs)
      ensures res == Ok ==> Intact() && Grown(old(fs.Fat()), old(chain), fs.Fat(), chain)
      ensures res == Ok ==> sect == old(sect) || Own(fs.g, chain, sect)
      ensures res == Ok ==> bw <= total && fptr == old(fptr) + bw && (bw == total || Full(fs.Fat(), fs.freeClst))
      ensures res == Ok ==> Bytes() == Overwrite(old(Bytes()), old(fptr), wbuff[..bw])
    {
      hide File.MapOk, FatOf, Volume.View, Geometry.DataFits, Geometry.Index, Geometry.Within, Geometry.PowerOfTwo,
        Full;
      hide File.Held, File.Intact, File.Bytes;
      hide Lba, Sound, Content, Overwrite, Room, SameOn, OnlyOwn, Grown, OthersKept, Own, FreeCount, NoSpace,
        Damaged, ChainOrNone;
      bw := 0;
      ghost var fat0, cs0, v0, p0, bytes0 := fs.Fat(), chain, fs.View(), fptr, Bytes();
      CursorInside();
      AtRest();
      var btw := total;
      OverwriteNothing(bytes0, p0);
      assert wbuff[..0] == [];
      while btw > 0
        invariant Ready() && Intact() && MapOk() && Grown(fat0, cs0, fs.Fat(), chain) && cs0 <= chain
        invariant OthersKept(fat0, cs0, fs.Fat()) && OnlyOwn(fs.g, chain, v0, fs.View())
        invariant WindowMoved(fs.g, old(fs.winsect), fs.winsect)
        invariant 0 <= btw && bw + btw == total && fptr == p0 + bw
        invariant Bytes() == Overwrite(bytes0, p0, wbuff[..bw])
        invariant old(CountOk(fs)) ==> CountOk(fs)
        invariant old(cltbl != null && chain != []) ==> fs.Fat() == fat0 && chain == cs0
        invariant sect == old(sect) || Own(fs.g, chain, sect)
      {
        ghost var fat1, cs1, v1 := fs.Fat(), chain, fs.View();
        var full, wcnt;
        res, full, wcnt := WriteRound(wbuff, bw, btw);
        OwnStays(fs.g, cs1, chain, sect);
        OthersTrans(fat0, cs0, fat1, cs1, fs.Fat());
        OnlyOwnTrans(fs.g, cs1, chain, v0, v1, fs.View());
        if res != Ok {
          DamageIsOld(fat0, cs0, fat1, cs1);
          return;
        }
        GrownTrans(fat0, cs0, fat1, cs1, fs.Fat(), chain);
        if full {
          return;
        }
        OverwriteTwice(bytes0, p0, wbuff[..bw], wbuff[bw..bw + wcnt]);
        assert wbuff[..bw] + wbuff[bw..bw + wcnt] == wbuff[..bw + wcnt];
        btw := btw - wcnt;
        bw := bw + wcnt;
      }
      res := Ok;
    }

    /** `f_write`: on success the first `bw` bytes of `wbuff` lie over the file from the old file pointer on,
        which has moved past them; all that are wanted below the size limit of 4 GiB - 1 are written, unless
        the chain of the file has no room and no cluster is free. Used clusters of others stay theirs. */
    method Write(wbuff: seq<byte>, want: nat) returns (res: FResult, bw: nat)
      requires Ready() && (err == Ok ==> Intact() && MapOk()) && want <= |wbuff| && want <= 0xFFFF_FFFF
      modifies `err, `modified, `clust, `sclust, `chain, `fptr, `objsize, `sect, `dirty, buf, fs, fs.win
      ensures Ready() && (err == Ok ==> Intact())
      ensures OthersKept(old(fs.Fat()), old(chain), fs.Fat()) && OnlyOwn(fs.g, chain, old(fs.View()), fs.View())
        && old(chain) <= chain
      ensures err == Ok ==> MapOk()
      ensures old(cltbl != null && chain != []) ==> fs.Fat() == old(fs.Fat()) && chain == old(chain)
      ensures WindowMoved(fs.g, old(fs.winsect), fs.winsect)
      ensures old(err) != Ok ==> res == old(err) == err && bw == 0
      ensures old(err) == Ok && !canWrite ==>
        res == Denied && err == Ok && bw == 0 && Bytes() == old(Bytes()) && fptr == old(fptr)
      ensures old(err) == Ok && !canWrite ==> fs.Fat() == old(fs.Fat()) && chain == old(chain)
      ensures old(err) == Ok && canWrite ==> err == res && (res == Ok || res == DiskErr || res == IntErr)
      ensures old(err) == Ok && canWrite ==>
        (res == DiskErr ==> !fs.g.reliable) && (res == IntErr ==> Damaged(old(fs.Fat())))
      ensures res != DiskErr && old(CountOk(fs)) ==> CountOk(fs)
      ensures res == Ok || res == Denied ==> sect == old(sect) || Own(fs.g, chain, sect)
      ensures old(err) == Ok && canWrite && res == Ok ==>
                && bw <= want && fptr == old(fptr) + bw && modified
                && Bytes() == Overwrite(old(Bytes()), old(fptr), wbuff[..bw])
                && Grown(old(fs.Fat()), old(chain), fs.Fat(), chain)
                && (bw == want || fptr == 0xFFFF_FFFF || Full(fs.Fat(), fs.freeClst))
      ensures old(err) == Ok && canWrite && res == Ok ==>
        bw <= want && AllOnDisk(fs.g, chain, fs.disk, dirty, sect, buf[..], old(fptr), wbuff[..bw])
    {
      hide AllOnDisk;
      hide File.MapOk, FatOf, Volume.View, Geometry.DataFits, Geometry.Index, Geometry.Within, Geometry.PowerOfTwo;
      hide Lba, Sound, Content, Overwrite, Room, SameOn, OnlyOwn, Grown, OthersKept, Own, FreeCount, NoSpace, Damaged,
        IsChain, ChainOrNone, Untouched, CursorOk;
      OthersRefl(fs.g, fs.Fat(), chain, fs.View());
      if err != Ok {
        return err, 0;
      }
      if !canWrite {
        return Denied, 0;
      }
      SizeFacts(fs.g, fs.Fat(), fs.winsect, Fields(), Snap());
      var btw := want;
      if (fptr + btw) % 0x1_0000_0000 < fptr {
        btw := 0xFFFF_FFFF - fptr;
      }
      res, bw := WriteLoop(wbuff, btw);
      if res != Ok {
        err := res;
      } else {
        modified := true;
        WrittenPlaced(old(Bytes()), old(fptr), wbuff[..bw]);
      }
    }

    // -------------------------------------------------------------- f_lseek

    /** The file pointer is at the start of the cluster with index `j` of the chain, and `c` is that cluster. */
    ghost predicate AtStart(j: nat, c: nat)
      requires fs.g.csize > 0
      reads `chain, `fptr, `clust
    {
      fptr % 512 == 0 && fs.g.Within(fptr / 512) == 0 && fs.g.Index(fptr / 512) == j < |chain| && chain[j] == c == clust
    }

    /** The start of the walk of `f_lseek` to `ofs`: the current cluster if it does not lie behind `ofs`, else
        the first one, which is created if need be. `rest` is the way left from there. */
    method SeekStart(ofs: nat) returns (res: FResult, clst: nat, rest: nat)
      requires Ready() && Intact() && 0 < ofs
      modifies `fptr, `clust, `sclust, `chain, fs, fs.win
      ensures Ready()
      ensures res == Ok || res == DiskErr || res == IntErr
      ensures (res == DiskErr ==> !fs.g.reliable) && (res == IntErr ==> Damaged(old(fs.Fat())))
      ensures OthersKept(old(fs.Fat()), old(chain), fs.Fat()) && OnlyOwn(fs.g, chain, old(fs.View()), fs.View())
        && old(chain) <= chain
      ensures WindowMoved(fs.g, old(fs.winsect), fs.winsect)
      ensures res != DiskErr && old(CountOk(fs)) ==> CountOk(fs)
      ensures res == Ok ==>
        Held() && Grown(old(fs.Fat()), old(chain), fs.Fat(), chain) && SameOn(fs.g, old(chain), old(Snap()), Snap())
      ensures old(chain) != [] ==> fs.Fat() == old(fs.Fat()) && chain == old(chain)
      ensures res == Ok && clst == 0 ==> fptr == 0 && old(chain) == [] && Full(fs.Fat(), fs.freeClst)
      ensures res == Ok && clst != 0 ==> AtStart(fs.g.Index(fptr / 512), clst) && 0 < rest && fptr + rest == ofs
    {
      hide FatOf, Volume.View, Geometry.DataFits, Geometry.Index, Geometry.Within, Geometry.PowerOfTwo;
      hide Geometry.ClusterOf, Geometry.ClusterStart, Geometry.ClusterBytes;
      hide Own, FreeCount, Sound, Grown, SameOn, OnlyOwn, NoSpace, OthersKept, Lba, Damaged;
      ghost var fat, f, a, w := fs.Fat(), Fields(), Snap(), fs.winsect;
      NothingDone(fs.g, fat, w, f, a);
      OnlyOwnRefl(fs.g, f.chain, a.view);
      StartCluster(fs.g, fat, w, f, a);
      IndexZero(fs.g);
      res := Ok;
      var ifptr := fptr;
      fptr := 0;
      rest := ofs;
      if ifptr > 0 && fs.g.ClusterOf(ofs - 1) >= fs.g.ClusterOf(ifptr - 1) {
        SeekForward(fs.g, ifptr, ofs);
        fptr := fs.g.ClusterStart(ifptr - 1);
        rest := ofs - fptr;
        clst := clust;
        SoundCursor(fs.g, fat, w, f, a, clst, fptr);
      } else {
        clst := sclust;
        if clst == 0 {
          clst := FollowOrGrow(0, 0);
          if clst == 1 {
            return IntErr, clst, rest;
          }
          if clst == INVALID {
            return DiskErr, clst, rest;
          }
        }
        SoundCursor(fs.g, fs.Fat(), fs.winsect, f.(chain := chain, sclust := sclust), Snap(), clst, 0);
        clust := clst;
      }
    }

    /** One step of the walk of `f_lseek` in write mode: to the next cluster, made if there is none. `clst` is
        0 when none could be had. */
    method SeekGrow(c: nat) returns (res: FResult, clst: nat)
      requires Ready() && Held() && AtStart(fs.g.Index(fptr / 512), c)
      modifies `fptr, `clust, `sclust, `chain, fs, fs.win
      ensures Ready()
      ensures res == Ok || res == DiskErr || res == IntErr
      ensures (res == DiskErr ==> !fs.g.reliable) && (res == IntErr ==> Damaged(old(fs.Fat())))
      ensures OthersKept(old(fs.Fat()), old(chain), fs.Fat()) && OnlyOwn(fs.g, chain, old(fs.View()), fs.View())
        && old(chain) <= chain
      ensures WindowMoved(fs.g, old(fs.winsect), fs.winsect)
      ensures res != DiskErr && old(CountOk(fs)) ==> CountOk(fs)
      ensures res == Ok ==>
        Held() && Grown(old(fs.Fat()), old(chain), fs.Fat(), chain) && SameOn(fs.g, old(chain), old(Snap()), Snap())
      ensures res == Ok ==> fptr == old(fptr) + fs.g.ClusterBytes()
      ensures res == Ok && clst == 0 ==> clust == c && Full(fs.Fat(), fs.freeClst) && chain[|chain| - 1] == c
      ensures res == Ok && clst != 0 ==> AtStart(fs.g.Index(fptr / 512), clst)
    {
      hide File.Held;
      hide FatOf, Volume.View, Geometry.DataFits, Geometry.Index, Geometry.Within, Geometry.PowerOfTwo;
      hide Geometry.ClusterBytes, Room, ChainOrNone, Sound;
      hide Own, FreeCount, Grown, SameOn, OnlyOwn, NoSpace, OthersKept, Lba, Damaged;
      ghost var fat, f, a, w, j := fs.Fat(), Fields(), Snap(), fs.winsect, fs.g.Index(fptr / 512);
      AtRest();
      HeldIs();
      NothingDone(fs.g, fat, w, f, a);
      StepCluster(fs.g, fptr);
      fptr := fptr + fs.g.ClusterBytes();
      SoundCursor(fs.g, fat, w, f, a, clust, fptr);
      HeldIs();
      clst := FollowOrGrow(c, j + 1);
      if clst == 0 {
        return Ok, clst;
      }
      if clst == INVALID {
        return DiskErr, clst;
      }
      if clst <= 1 || clst >= fs.g.nFatent {
        return IntErr, clst;
      }
      HeldIs();
      SoundCursor(fs.g, fs.Fat(), fs.winsect, Fields(), Snap(), clst, fptr);
      clust := clst;
      HeldIs();
      return Ok, clst;
    }

    /** One step of the walk of `f_lseek` without write access. */
    method SeekFollow(c: nat, ghost way: nat) returns (res: FResult, clst: nat)
      requires Ready() && Held() && AtStart(fs.g.Index(fptr / 512), c) && fs.g.ClusterBytes() < way
        && fptr + way <= objsize
      modifies `fptr, `clust, fs`disk, fs`winsect, fs`wflag, fs.win
      ensures Ready() && fs.Fat() == old(fs.Fat())
      ensures res == Ok || res == DiskErr
      ensures res == DiskErr ==> !fs.g.reliable
      ensures OnlyOwn(fs.g, chain, old(fs.View()), fs.View())
      ensures WindowMoved(fs.g, old(fs.winsect), fs.winsect)
      ensures res == Ok ==> Held() && SameOn(fs.g, chain, old(Snap()), Snap())
      ensures res == Ok ==>
        fptr == old(fptr) + fs.g.ClusterBytes() && clst != 0 && AtStart(fs.g.Index(fptr / 512), clst)
    {
      hide FatOf, Volume.View, Geometry.DataFits, Geometry.Index, Geometry.Within, Geometry.PowerOfTwo;
      hide Geometry.ClusterBytes, Room, Sound, Own, SameOn, OnlyOwn, Lba;
      ghost var fat, f, a, w := fs.Fat(), Fields(), Snap(), fs.winsect;
      NothingDone(fs.g, fat, w, f, a);
      StepCluster(fs.g, fptr);
      ChainLinks(fs.g, fat, chain, fs.g.Index(fptr / 512) + 1);
      NextClusterExists(fs.g, fat, w, f, a, way);
      fptr := fptr + fs.g.ClusterBytes();
      SoundCursor(fs.g, fat, w, f, a, clust, fptr);
      clst := fs.GetFat(c);
      FatAccessKeeps(fs.g, fat, w, fs.winsect, Fields(), a, Snap());
      if clst == INVALID {
        return DiskErr, clst;
      }
      if clst <= 1 || clst >= fs.g.nFatent {
        res := IntErr;
        return;
      }
      SoundCursor(fs.g, fs.Fat(), fs.winsect, Fields(), Snap(), clst, fptr);
      clust := clst;
      return Ok, clst;
    }

    /** The cluster-following loop of `f_lseek`: to the cluster of the byte before the target, `way` bytes on
        from the start of cluster `first`; `rest` is the way left in it. With `full`, the end of the chain. */
    method SeekWalk(first: nat, way: nat) returns (res: FResult, clst: nat, rest: nat, full: bool)
      requires Ready() && Held() && AtStart(fs.g.Index(fptr / 512), first) && first != 0 && 0 < way
      requires !canWrite ==> fptr + way <= objsize
      modifies `fptr, `clust, `sclust, `chain, fs, fs.win
      ensures Ready()
      ensures res == Ok || res == DiskErr || res == IntErr
      ensures (res == DiskErr ==> !fs.g.reliable) && (res == IntErr ==> Damaged(old(fs.Fat())))
      ensures OthersKept(old(fs.Fat()), old(chain), fs.Fat()) && OnlyOwn(fs.g, chain, old(fs.View()), fs.View())
        && old(chain) <= chain
      ensures WindowMoved(fs.g, old(fs.winsect), fs.winsect)
      ensures res != DiskErr && old(CountOk(fs)) ==> CountOk(fs)
      ensures !canWrite ==> fs.Fat() == old(fs.Fat()) && chain == old(chain)
      ensures res == Ok ==>
        Held() && Grown(old(fs.Fat()), old(chain), fs.Fat(), chain) && SameOn(fs.g, old(chain), old(Snap()), Snap())
      ensures res == Ok && full ==> canWrite && rest == 0 && fptr < old(fptr) + way && Full(fs.Fat(), fs.freeClst)
      ensures res == Ok && full ==> |chain| > 0 && chain[|chain| - 1] == clust && fptr > 0
      ensures res == Ok && !full ==>
        AtStart(fs.g.Index(fptr / 512), clst) && 0 < rest <= fs.g.ClusterBytes() && fptr + rest == old(fptr) + way
    {
      hide FatOf, Volume.View, Geometry.DataFits, Geometry.Index, Geometry.Within, Geometry.PowerOfTwo;
      hide Geometry.ClusterBytes, Room, Sound, ChainOrNone;
      hide Own, FreeCount, Grown, SameOn, OnlyOwn, NoSpace, OthersKept, Lba, Damaged;
      ghost var fat0, cs0, a0, v0, p0 := fs.Fat(), chain, Snap(), fs.View(), fptr;
      NothingDone(fs.g, fat0, fs.winsect, Fields(), a0);
      StepCluster(fs.g, fptr);
      res, clst, rest, full := Ok, first, way, false;
      while rest > fs.g.ClusterBytes()
        invariant res == Ok && Ready() && Held() && AtStart(fs.g.Index(fptr / 512), clst) && clst != 0
        invariant 0 < rest && fptr + rest == p0 + way
        invariant Grown(fat0, cs0, fs.Fat(), chain) && cs0 <= chain && SameOn(fs.g, cs0, a0, Snap())
        invariant OthersKept(fat0, cs0, fs.Fat()) && OnlyOwn(fs.g, chain, v0, fs.View())
        invariant WindowMoved(fs.g, old(fs.winsect), fs.winsect)
        invariant old(CountOk(fs)) ==> CountOk(fs)
        invariant !canWrite ==> fs.Fat() == fat0 && chain == cs0
      {
        ghost var fat1, cs1, a1, v1 := fs.Fat(), chain, Snap(), fs.View();
        if canWrite {
          res, clst := SeekGrow(clst);
          OthersTrans(fat0, cs0, fat1, cs1, fs.Fat());
          DamageIsOld(fat0, cs0, fat1, cs1);
        } else {
          res, clst := SeekFollow(clst, rest);
        }
        OnlyOwnTrans(fs.g, cs1, chain, v0, v1, fs.View());
        if res != Ok {
          return;
        }
        SameOnPrefix(fs.g, cs0, cs1, a0, a1, Snap());
        if canWrite {
          GrownTrans(fat0, cs0, fat1, cs1, fs.Fat(), chain);
        }
        rest := rest - fs.g.ClusterBytes();
        if clst == 0 {
          rest, full := 0, true;
          return;
        }
      }
    }

    /** The end of `f_lseek`: past the file pointer by `rest` bytes in the cluster `clst` where it stands, with
        the size following and the sector of the new file pointer in the buffer. */
    method SeekFinish(clst: nat, rest: nat) returns (res: FResult)
      requires Ready() && Held() && AtStart(fs.g.Index(fptr / 512), clst)
      requires 0 < rest <= fs.g.ClusterBytes() && fptr + rest <= 0xFFFF_FFFF
      modifies `fptr, `objsize, `modified, `dirty, `sect, buf, fs`disk
      ensures Ready() && fs.Fat() == old(fs.Fat())
      ensures res == Ok || res == DiskErr
      ensures fs.g.reliable ==> res == Ok
      ensures OnlyOwn(fs.g, chain, old(fs.View()), fs.View())
      ensures res == Ok ==> Intact() && fptr == old(fptr) + rest && SameOn(fs.g, chain, old(Snap()), Snap())
      ensures res == Ok ==> objsize == (if old(fptr) + rest > old(objsize) then old(fptr) + rest else old(objsize))
      ensures res == Ok && objsize != old(objsize) ==> modified
      ensures res == Ok ==> sect == old(sect) || Own(fs.g, chain, sect)
    {
      hide FatOf, Volume.View, Geometry.DataFits, Geometry.Index, Geometry.Within, Geometry.PowerOfTwo;
      hide Geometry.ClusterBytes, Own, Lba, SameOn, OnlyOwn, ChainOrNone, Base, Sound, IsChain, Content, Patch,
        Room, Clst2Sect;
      ghost var fat, f, a, w := fs.Fat(), Fields(), Snap(), fs.winsect;
      NothingDone(fs.g, fat, w, f, a);
      SeekTarget(fs.g, fat, w, f, a, rest);
      SoundReaching(fs.g, fat, w, f, a, fptr + rest);
      res := Ok;
      fptr := fptr + rest;
      var nsect := 0;
      if rest % 512 != 0 {
        nsect := Clst2Sect(fs.g, clst);
        if nsect == 0 {
          res := IntErr;
          return;
        }
        nsect := nsect + rest / 512;
      }
      if fptr > objsize {
        objsize := fptr;
        modified := true;
      }
      if fptr % 512 != 0 && nsect != sect {
        res := Load(nsect);
      }
    }

    /** `f_lseek` (normal seek): on success the file pointer is at `want`, clipped to the size without write
        access; a file open for writing is stretched to reach it, to the end of its last cluster if the disk
        fills up. The bytes the file had are the same; those a stretch exposes are whatever lies there. */
    method Lseek(want: nat) returns (res: FResult)
      requires Ready() && (err == Ok ==> Intact()) && cltbl == null && want <= 0xFFFF_FFFF
      modifies `err, `modified, `clust, `sclust, `chain, `fptr, `objsize, `sect, `dirty, buf, fs, fs.win
      ensures Ready() && (err == Ok ==> Intact())
      ensures OthersKept(old(fs.Fat()), old(chain), fs.Fat()) && OnlyOwn(fs.g, chain, old(fs.View()), fs.View())
        && old(chain) <= chain
      ensures WindowMoved(fs.g, old(fs.winsect), fs.winsect)
      ensures old(err) != Ok ==> res == old(err) == err
      ensures old(err) == Ok ==> err == res && (res == Ok || res == DiskErr || res == IntErr)
      ensures old(err) == Ok ==> (res == DiskErr ==> !fs.g.reliable) && (res == IntErr ==> Damaged(old(fs.Fat())))
      ensures res != DiskErr && old(CountOk(fs)) ==> CountOk(fs)
      ensures res == Ok ==> sect == old(sect) || Own(fs.g, chain, sect)
      ensures old(err) == Ok && !canWrite ==> fs.Fat() == old(fs.Fat()) && chain == old(chain)
      ensures old(err) == Ok && want == 0 ==>
        res == Ok && chain == old(chain) && sect == old(sect) && buf[..] == old(buf[..])
      ensures old(err) == Ok && want == 0 ==> fs.Fat() == old(fs.Fat()) && fs.View() == old(fs.View())
      ensures old(err) == Ok && res == Ok ==>
                var target := if want > old(objsize) && !canWrite then old(objsize) else want;
                && (fptr == target || (canWrite && fptr < target && Full(fs.Fat(), fs.freeClst)))
                && objsize == (if fptr > old(objsize) then fptr else old(objsize))
                && Bytes()[..old(objsize)] == old(Bytes())
                && Grown(old(fs.Fat()), old(chain), fs.Fat(), chain)
      ensures old(err) == Ok && res == Ok ==> CursorPlaced()
    {
      hide CursorPlaced;
      hide FatOf, Volume.View, Geometry.DataFits, Geometry.Index, Geometry.Within, Geometry.PowerOfTwo;
      hide Geometry.ClusterBytes, Own, Lba, SameOn, OnlyOwn, ChainOrNone, Base, Sound, Content, FreeCount, Grown,
        OthersKept, NoSpace, Damaged;
      OthersRefl(fs.g, fs.Fat(), chain, fs.View());
      if err != Ok {
        return err;
      }
      ghost var fat0, f0, a0, v0 := fs.Fat(), Fields(), Snap(), fs.View();
      NothingDone(fs.g, fat0, fs.winsect, f0, a0);
      SizeFacts(fs.g, fat0, fs.winsect, f0, a0);
      var ofs := want;
      if ofs > objsize && !canWrite {
        ofs := objsize;
      }
      if ofs == 0 {
        SoundCursor(fs.g, fat0, fs.winsect, f0, a0, clust, 0);
        fptr := 0;
        WholeContent(fs.g, chain, a0, a0, objsize, objsize);
        CursorPlace();
        return Ok;
      }
      res := SeekTo(ofs);
      if res != Ok {
        err := res;
      } else {
        CursorPlace();
      }
    }

    /** The way of `f_lseek` to the cluster of the byte before `ofs`: in it, or at the end of the last cluster. */
    method SeekReach(ofs: nat) returns (res: FResult, clst: nat, rest: nat, full: bool)
      requires Ready() && Intact() && 0 < ofs && (!canWrite ==> ofs <= objsize)
      modifies `clust, `sclust, `chain, `fptr, fs, fs.win
      ensures Ready()
      ensures res == Ok || res == DiskErr || res == IntErr
      ensures (res == DiskErr ==> !fs.g.reliable) && (res == IntErr ==> Damaged(old(fs.Fat())))
      ensures OthersKept(old(fs.Fat()), old(chain), fs.Fat()) && OnlyOwn(fs.g, chain, old(fs.View()), fs.View())
        && old(chain) <= chain
      ensures WindowMoved(fs.g, old(fs.winsect), fs.winsect)
      ensures res != DiskErr && old(CountOk(fs)) ==> CountOk(fs)
      ensures !canWrite ==> fs.Fat() == old(fs.Fat()) && chain == old(chain)
      ensures res == Ok ==>
        Held() && Grown(old(fs.Fat()), old(chain), fs.Fat(), chain) && SameOn(fs.g, old(chain), old(Snap()), Snap())
      ensures res == Ok && full ==> Full(fs.Fat(), fs.freeClst) && fptr < ofs && canWrite
      ensures res == Ok && full && fptr > 0 ==> |chain| > 0 && chain[|chain| - 1] == clust
      ensures res == Ok && !full ==>
        AtStart(fs.g.Index(fptr / 512), clst) && 0 < rest <= fs.g.ClusterBytes() && fptr + rest == ofs
    {
      hide FatOf, Volume.View, Geometry.DataFits, Geometry.Index, Geometry.Within, Geometry.PowerOfTwo;
      hide Geometry.ClusterBytes, Own, Lba, SameOn, OnlyOwn, ChainOrNone, Base, Sound, FreeCount, Grown, OthersKept,
        NoSpace, Damaged;
      ghost var fat0, f0, a0, v0 := fs.Fat(), Fields(), Snap(), fs.View();
      NothingDone(fs.g, fat0, fs.winsect, f0, a0);
      SizeFacts(fs.g, fat0, fs.winsect, f0, a0);
      full := false;
      res, clst, rest := SeekStart(ofs);
      if res != Ok {
        return;
      }
      if clst == 0 {
        full := true;
        return;
      }
      ghost var fat1, cs1, a1, v1 := fs.Fat(), chain, Snap(), fs.View();
      res, clst, rest, full := SeekWalk(clst, rest);
      OthersTrans(fat0, f0.chain, fat1, cs1, fs.Fat());
      DamageIsOld(fat0, f0.chain, fat1, cs1);
      OnlyOwnTrans(fs.g, cs1, chain, v0, v1, fs.View());
      if res == Ok {
        SameOnPrefix(fs.g, f0.chain, cs1, a0, a1, Snap());
        GrownTrans(fat0, f0.chain, fat1, cs1, fs.Fat(), chain);
      }
    }

    /** The part of `f_lseek` for a target other than the start of the file. */
    method SeekTo(ofs: nat) returns (res: FResult)
      requires Ready() && Intact() && 0 < ofs <= 0xFFFF_FFFF && (!canWrite ==> ofs <= objsize)
      modifies `modified, `clust, `sclust, `chain, `fptr, `objsize, `sect, `dirty, buf, fs, fs.win
      ensures Ready()
      ensures res == Ok || res == DiskErr || res == IntErr
      ensures (res == DiskErr ==> !fs.g.reliable) && (res == IntErr ==> Damaged(old(fs.Fat())))
      ensures OthersKept(old(fs.Fat()), old(chain), fs.Fat()) && OnlyOwn(fs.g, chain, old(fs.View()), fs.View())
        && old(chain) <= chain
      ensures WindowMoved(fs.g, old(fs.winsect), fs.winsect)
      ensures res != DiskErr && old(CountOk(fs)) ==> CountOk(fs)
      ensures !canWrite ==> fs.Fat() == old(fs.Fat()) && chain == old(chain)
      ensures res == Ok ==> Intact() && (fptr == ofs || (canWrite && fptr < ofs && Full(fs.Fat(), fs.freeClst)))
      ensures res == Ok ==> objsize == (if fptr > old(objsize) then fptr else old(objsize))
      ensures res == Ok ==> Bytes()[..old(objsize)] == old(Bytes())
      ensures res == Ok ==> Grown(old(fs.Fat()), old(chain), fs.Fat(), chain)
      ensures res == Ok ==> sect == old(sect) || Own(fs.g, chain, sect)
    {
      hide File.Held, File.Intact, File.Bytes, IsChain;
      hide FatOf, Volume.View, Geometry.DataFits, Geometry.Index, Geometry.Within, Geometry.PowerOfTwo;
      hide Geometry.ClusterBytes, Own, Lba, SameOn, OnlyOwn, ChainOrNone, Base, Sound, Content, FreeCount, Grown,
        OthersKept, NoSpace, Damaged;
      hide CursorOk, Room;
      ghost var f0, a0, v0 := Fields(), Snap(), fs.View();
      CursorInside();
      AtRest();
      IntactIs();
      BytesAre();
      SizeFacts(fs.g, fs.Fat(), fs.winsect, f0, a0);
      var clst, rest, full;
      res, clst, rest, full := SeekReach(ofs);
      if res != Ok {
        return;
      }
      HeldIs();
      GrownContent(fs.g, fs.Fat(), fs.winsect, Fields(), f0.chain, a0, Snap());
      ghost var v1 := fs.View();
      if full {
        SeekEnd();
      } else {
        res := SeekInside(clst, rest);
        OnlyOwnTrans(fs.g, chain, chain, v0, v1, fs.View());
      }
    }

    /** The size follows a file pointer at the end of the chain. */
    method SeekEnd()
      requires Ready() && Held() && fptr <= 0xFFFF_FFFF
      requires fptr % 512 == 0 && fs.g.Within(fptr / 512) == 0 && fs.g.Index(fptr / 512) == |chain|
      requires fptr > 0 ==> |chain| > 0 && chain[|chain| - 1] == clust
      modifies `objsize, `modified
      ensures Ready() && Intact() && objsize == (if fptr > old(objsize) then fptr else old(objsize))
      ensures Bytes()[..old(objsize)] == Content(fs.g, chain, Snap(), old(objsize))
    {
      hide FatOf, Volume.View, Geometry.DataFits, Geometry.Index, Geometry.Within, Geometry.PowerOfTwo;
      hide File.Held, File.Intact, File.Bytes, Sound, CursorOk, Content;
      HeldIs();
      ghost var a, size := Snap(), objsize;
      FullCursor(fs.g, fs.Fat(), fs.winsect, Fields(), a);
      if fptr > objsize {
        objsize := fptr;
        modified := true;
      }
      IntactIs();
      BytesAre();
      WholeContent(fs.g, chain, a, a, size, objsize);
    }

    /** The end of `f_lseek` in a cluster of the file, with what the file holds then. */
    method SeekInside(clst: nat, rest: nat) returns (res: FResult)
      requires Ready() && Held() && AtStart(fs.g.Index(fptr / 512), clst)
      requires 0 < rest <= fs.g.ClusterBytes() && fptr + rest <= 0xFFFF_FFFF
      modifies `fptr, `objsize, `modified, `dirty, `sect, buf, fs`disk
      ensures Ready() && fs.Fat() == old(fs.Fat())
      ensures (res == Ok || res == DiskErr) && (fs.g.reliable ==> res == Ok)
      ensures OnlyOwn(fs.g, chain, old(fs.View()), fs.View())
      ensures res == Ok ==> sect == old(sect) || Own(fs.g, chain, sect)
      ensures res == Ok ==> Intact() && fptr == old(fptr) + rest
      ensures res == Ok ==> objsize == (if fptr > old(objsize) then fptr else old(objsize))
      ensures res == Ok ==> Bytes()[..old(objsize)] == Content(fs.g, chain, old(Snap()), old(objsize))
    {
      hide FatOf, Volume.View, Geometry.DataFits, Geometry.Index, Geometry.Within, Geometry.PowerOfTwo;
      hide Geometry.ClusterBytes, File.Held, File.Intact, File.Bytes, Sound, CursorOk, Content, SameOn, OnlyOwn, Own,
        Room;
      ghost var a, size, cs := Snap(), objsize, chain;
      AtRest();
      res := SeekFinish(clst, rest);
      if res == Ok {
        IntactIs();
        BytesAre();
        KeptContent(fs.g, fs.Fat(), chain, a, Snap(), size);
        WholeContent(fs.g, chain, Snap(), Snap(), size, objsize);
      }
    }

    // -------------------------------------------------------------- f_truncate

    /** Free the clusters of the file behind the file pointer. */
    method DropTail() returns (res: FResult)
      requires Ready() && Intact() && fptr < objsize
      modifies `sclust, `chain, fs, fs.win
      ensures Ready()
      ensures res == Ok || res == DiskErr
      ensures fs.g.reliable ==> res == Ok
      ensures old(CountOk(fs)) ==> CountOk(fs)
      ensures Untouched(fs.g, old(fs.View()), fs.View()) && WindowMoved(fs.g, old(fs.winsect), fs.winsect)
      ensures res == Ok ==>
        chain == old(chain)[..Kept(fs.g, fptr)] && sclust == (if chain == [] then 0 else old(sclust))
      ensures res == Ok ==> CutTo(old(fs.Fat()), old(chain), fs.Fat(), chain)
      ensures OthersKept(old(fs.Fat()), old(chain), fs.Fat())
    {
      hide FatOf, Volume.View, Geometry.DataFits, Geometry.Index, Geometry.Within, Geometry.PowerOfTwo;
      hide Own, Lba, Base, FreeFrom, Untouched, FreeCount, CutFat, WindowMoved, OthersKept, PartlyFreed;
      ghost var fat, f, a, v0, w0 := fs.Fat(), Fields(), Snap(), fs.View(), fs.winsect;
      UntouchedRefl(fs.g, v0);
      OthersRefl(fs.g, fat, chain, v0);
      StartCluster(fs.g, fat, w0, f, a);
      KeptBounds(fs.g, fat, w0, f, a);
      ghost var k := Kept(fs.g, fptr);
      hide Sound, CursorOk, Kept;
      if fptr == 0 {
        CutChain(fs.g, fat, chain, 0);
        res := RemoveChain(fs, sclust, 0);
        FreedOthers(fs.g, fat, f.chain, 0, fs.Fat());
        sclust := 0;
        chain := [];
      } else {
        ChainLinks(fs.g, fat, chain, k);
        ghost var cs := chain;
        var ncl := fs.GetFat(clust);
        WindowRefl(fs.g, w0, fs.winsect);
        res := Ok;
        if ncl == INVALID {
          res := DiskErr;
        }
        if ncl == 1 {
          res := IntErr;
        }
        if res == Ok && ncl < fs.g.nFatent {
          CutChain(fs.g, fat, chain, k);
          ghost var v1, w1 := fs.View(), fs.winsect;
          res := RemoveChain(fs, ncl, clust);
          FreedOthers(fs.g, fat, f.chain, k, fs.Fat());
          UntouchedTrans(fs.g, v0, v1, fs.View());
          WindowTrans(fs.g, w0, w1, fs.winsect);
        }
        chain := chain[..k];
      }
    }

    /** The body of `f_truncate` for a file pointer before the end of the file. */
    method TruncateHere() returns (res: FResult)
      requires Ready() && Intact() && fptr < objsize
      modifies `modified, `sclust, `chain, `objsize, `dirty, fs, fs.win
      ensures Ready()
      ensures OthersKept(old(fs.Fat()), old(chain), fs.Fat()) && OnlyOwn(fs.g, old(chain), old(fs.View()), fs.View())
      ensures WindowMoved(fs.g, old(fs.winsect), fs.winsect)
      ensures (res == Ok || res == DiskErr) && (fs.g.reliable ==> res == Ok)
      ensures old(CountOk(fs)) ==> CountOk(fs)
      ensures res == Ok ==> Intact() && Bytes() == old(Bytes())[..fptr] && modified
      ensures res == Ok ==> |chain| == Kept(fs.g, fptr) && CutTo(old(fs.Fat()), old(chain), fs.Fat(), chain)
      ensures res == Ok ==> !dirty
    {
      hide FatOf, Volume.View, Geometry.DataFits, Geometry.Index, Geometry.Within, Geometry.PowerOfTwo;
      hide Own, Lba, Base, FreeCount, CutFat, WindowMoved, OthersKept, Sound, Content, OnlyOwn, CutTo, Kept,
        CursorOk, Untouched, SameOn;
      ghost var fat, f, a, w := fs.Fat(), Fields(), Snap(), fs.winsect;
      KeptBounds(fs.g, fat, w, f, a);
      res := DropTail();
      ghost var b, w' := Snap(), fs.winsect;
      CutBuffer(fs.g, fat, w, f, a, w', b);
      objsize := fptr;
      modified := true;
      if res != Ok {
        return;
      }
      if dirty {
        res := WriteBack(f.chain, a.view);
        if res != Ok {
          return;
        }
      }
      CutSound(fs.g, fat, w, f, a, fs.Fat(), w', b, Snap());
    }

    /** Write the buffer back where it belongs, which may be a cluster that is no longer in the file. */
    method WriteBack(ghost cs: seq<nat>, ghost v: seq<Sector>) returns (res: FResult)
      requires Ready() && fs.g.database <= sect < fs.g.nsect && sect != fs.winsect && Own(fs.g, cs, sect)
      requires OnlyOwn(fs.g, cs, v, fs.View())
      modifies `dirty, fs`disk
      ensures Ready() && fs.Fat() == old(fs.Fat()) && OnlyOwn(fs.g, cs, v, fs.View())
      ensures (res == Ok || res == DiskErr) && (fs.g.reliable ==> res == Ok)
      ensures forall s: nat :: s < fs.g.nsect && s != sect ==> fs.View()[s] == old(fs.View())[s]
      ensures res == Ok ==> !dirty && fs.View()[sect] == buf[..]
    {
      hide FatOf, Volume.View, Own, Base;
      var ok := fs.WriteData(sect, [buf[..]]);
      if !ok {
        return DiskErr;
      }
      assert fs.View()[sect] == fs.View()[sect..sect + 1][0];
      dirty := false;
      return Ok;
    }

    /** `f_truncate`: on success the file ends at the file pointer, its bytes up to there are the same, its
        chain has exactly the clusters these need and the others are free. */
    method Truncate() returns (res: FResult)
      requires Ready() && (err == Ok ==> Intact())
      modifies `err, `modified, `sclust, `chain, `objsize, `dirty, fs, fs.win
      ensures Ready() && (err == Ok ==> Intact())
      ensures OthersKept(old(fs.Fat()), old(chain), fs.Fat()) && OnlyOwn(fs.g, old(chain), old(fs.View()), fs.View())
      ensures WindowMoved(fs.g, old(fs.winsect), fs.winsect)
      ensures old(err) != Ok ==> res == old(err) == err
      ensures old(err) == Ok && !canWrite ==>
        res == Denied && err == Ok && Bytes() == old(Bytes()) && chain == old(chain)
      ensures old(err) == Ok && !canWrite ==> fs.Fat() == old(fs.Fat())
      ensures old(err) == Ok && canWrite ==>
        err == res && (res == Ok || res == DiskErr) && (fs.g.reliable ==> res == Ok)
      ensures old(CountOk(fs)) ==> CountOk(fs)
      ensures old(err) == Ok && canWrite && res == Ok ==>
                && Bytes() == old(Bytes())[..fptr]
                && (if fptr < old(objsize) then |chain| == Kept(fs.g, fptr) && modified else chain == old(chain))
                && CutTo(old(fs.Fat()), old(chain), fs.Fat(), chain)
      ensures res == Ok && fptr < old(objsize) ==> !dirty
      ensures old(err) == Ok && res == Ok && old(cltbl != null && MapOk()) ==>
        (MapOk() <==> chain == old(chain) || mapped == [])
      ensures old(err) == Ok && res == Ok && old(cltbl != null && MapOk()) ==>
        (MapOk() <==> old(fptr >= objsize || Kept(fs.g, fptr) == |chain| || mapped == []))
    {
      hide FatOf, Volume.View, Geometry.DataFits, Geometry.Index, Geometry.Within, Geometry.PowerOfTwo;
      hide Own, Lba, Base, FreeCount, CutFat, OthersKept, Sound, Content, OnlyOwn, Kept;
      OthersRefl(fs.g, fs.Fat(), chain, fs.View());
      if err != Ok {
        return err;
      }
      if !canWrite {
        return Denied;
      }
      res := Ok;
      if fptr < objsize {
        res := TruncateHere();
        if res != Ok {
          err := res;
        }
      }
    }
  }

  lemma OwnStays(g: Geometry, cs: seq<nat>, cs': seq<nat>, s: nat)
    requires cs <= cs'
    ensures Own(g, cs, s) ==> Own(g, cs', s)
  {
    OwnGrows(g, cs, cs');
  }

  lemma SameOnPrefix(g: Geometry, cs: seq<nat>, cs': seq<nat>, a: Cache, b: Cache, c: Cache)
    requires SameOn(g, cs, a, b) && SameOn(g, cs', b, c) && cs <= cs'
    ensures SameOn(g, cs, a, c)
  {
    OwnGrows(g, cs, cs');
    hide Own;
  }

  /** Bytes put into the buffer, which holds the sector, or is to hold it from its first byte on. */
  lemma BufferedIs(g: Geometry, fat: seq<nat>, w: nat, f: Fil, a: Cache, lba: nat, chunk: seq<byte>)
    requires Sound(g, fat, w, f, a) && InFile(g, f.chain, f.fptr / 512) && lba == Lba(g, f.chain, f.fptr / 512)
    requires 0 < |chunk| && f.fptr % 512 + |chunk| <= 512 && f.fptr <= f.objsize
    requires f.sect == lba || (!f.dirty && f.fptr % 512 == 0 && f.fptr == f.objsize)
    ensures Own(g, f.chain, lba)
    ensures var b := Cache(a.view, lba, Patch(a.buf, f.fptr % 512, chunk));
            var m := if f.fptr + |chunk| <= f.objsize then f.objsize else f.fptr + |chunk|;
            && Sound(g, fat, w, f.(sect := lba, dirty := true), b)
            && Buffered(g, f.chain, a, b, lba, f.fptr % 512, chunk, m - f.fptr / 512 * 512)
  {
    hide Geometry.DataFits, Geometry.Index, Geometry.Within, Geometry.PowerOfTwo, Lba, ChainOrNone, Room;
    ChainClusters(g, fat, f.chain);
    LbaInside(g, f.chain, f.fptr / 512);
    hide Own;
  }

  /** Sectors of a file in one cluster: on the device and out of the window, and as the file sees them. */
  lemma DirectFacts(g: Geometry, fat: seq<nat>, w: nat, f: Fil, a: Cache, cc: nat)
    requires Sound(g, fat, w, f, a) && InFile(g, f.chain, f.fptr / 512) && g.Within(f.fptr / 512) + cc <= g.csize
      && cc > 0
    ensures var lba := Lba(g, f.chain, f.fptr / 512);
            && g.Wf() && g.DataFits() && Clusters(g, f.chain)
            && g.database <= lba && lba + cc <= g.nsect && !(lba <= w < lba + cc)
            && forall s: nat :: lba <= s < lba + cc ==> a.At(s) == if f.dirty && s == f.sect then a.buf else a.view[s]
  {
    hide Geometry.DataFits, Geometry.Index, Geometry.Within, Geometry.PowerOfTwo, Lba, ChainOrNone, Room, Own;
    ChainClusters(g, fat, f.chain);
    RunSectors(g, f.chain, f.fptr / 512, cc);
  }

  /** Such sectors are bytes of the file. */
  lemma SeenRun(g: Geometry, fat: seq<nat>, w: nat, f: Fil, a: Cache, data: seq<Sector>, seen: seq<Sector>)
    requires Sound(g, fat, w, f, a) && InFile(g, f.chain, f.fptr / 512) && f.fptr % 512 == 0
    requires |data| > 0 && g.Within(f.fptr / 512) + |data| <= g.csize
    requires var lba := Lba(g, f.chain, f.fptr / 512);
             && lba + |data| <= |a.view| && data == a.view[lba..lba + |data|]
             && seen == if f.dirty && lba <= f.sect < lba + |data| then data[f.sect - lba := a.buf] else data
    ensures Flatten(seen) == Slice(g, f.chain, a, f.fptr, |data| * 512)
  {
    hide *;
    DirectFacts(g, fat, w, f, a, |data|);
    SeenSectors(f, a, Lba(g, f.chain, f.fptr / 512), data, seen);
    RunBytes(g, f.chain, a, f.fptr, seen);
  }

  /** Sectors read from the device, with the dirty one of them replaced, are those that the file sees. */
  lemma SeenSectors(f: Fil, a: Cache, lba: nat, data: seq<Sector>, seen: seq<Sector>)
    requires lba + |data| <= |a.view| && data == a.view[lba..lba + |data|]
    requires forall s: nat :: lba <= s < lba + |data| ==>
               a.At(s) == if f.dirty && s == f.sect then a.buf else a.view[s]
    requires seen == if f.dirty && lba <= f.sect < lba + |data| then data[f.sect - lba := a.buf] else data
    ensures |seen| == |data| && forall i :: 0 <= i < |data| ==> seen[i] == a.At(lba + i)
  {
    hide Cache.At;
  }

  lemma KeptContent(g: Geometry, fat: seq<nat>, cs: seq<nat>, a: Cache, b: Cache, n: nat)
    requires g.Wf() && g.DataFits() && |fat| == g.nFatent && ChainOrNone(fat, cs) && Room(g, cs, n)
      && SameOn(g, cs, a, b)
    ensures Content(g, cs, b, n) == Content(g, cs, a, n)
  {
    hide SameOn, Content, Geometry.DataFits, IsChain;
    ChainClusters(g, fat, cs);
    SameContent(g, cs, cs, a, b, n);
  }

  /** The place of a target `n` bytes on from the start of a cluster. */
  lemma SeekTarget(g: Geometry, fat: seq<nat>, w: nat, f: Fil, a: Cache, n: nat)
    requires Sound(g, fat, w, f, a) && f.fptr % 512 == 0 && g.Within(f.fptr / 512) == 0 && 0 < n <= g.ClusterBytes()
    requires g.Index(f.fptr / 512) < |f.chain| && f.chain[g.Index(f.fptr / 512)] == f.clust
    ensures InFile(g, f.chain, (f.fptr + n - 1) / 512) && f.clust == f.chain[g.Index((f.fptr + n - 1) / 512)]
    ensures Room(g, f.chain, f.fptr + n) && (f.fptr + n) % 512 == n % 512
    ensures Clst2Sect(g, f.clust) > 0
    ensures n % 512 != 0 ==> Clst2Sect(g, f.clust) + n / 512 == Lba(g, f.chain, (f.fptr + n) / 512)
    ensures n % 512 != 0 ==> Own(g, f.chain, Lba(g, f.chain, (f.fptr + n) / 512))
  {
    hide Geometry.DataFits, Geometry.Index, Geometry.Within, Geometry.PowerOfTwo, Geometry.ClusterBytes, Base, Own;
    ChainClusters(g, fat, f.chain);
    InsideCluster(g, f.fptr, n);
    BaseBounds(g, f.clust);
    if n % 512 != 0 {
      LbaInside(g, f.chain, (f.fptr + n) / 512);
    }
  }

  /** With the file pointer at `p`, inside the chain, and the size at least that, a file is still sound. */
  lemma SoundReaching(g: Geometry, fat: seq<nat>, w: nat, f: Fil, a: Cache, p: nat)
    requires Sound(g, fat, w, f, a) && Room(g, f.chain, p) && p <= 0xFFFF_FFFF
    ensures Sound(g, fat, w, f.(fptr := p, objsize := if p > f.objsize then p else f.objsize), a)
  {
  }

  /** A file that reaches `way` bytes beyond the start of a cluster, more than a cluster, has a next cluster. */
  lemma NextClusterExists(g: Geometry, fat: seq<nat>, w: nat, f: Fil, a: Cache, way: nat)
    requires Sound(g, fat, w, f, a) && f.fptr % 512 == 0 && g.Within(f.fptr / 512) == 0
    requires g.ClusterBytes() < way && f.fptr + way <= f.objsize
    ensures g.Index(f.fptr / 512) + 1 < |f.chain| && g.HasEntry(f.chain[g.Index(f.fptr / 512) + 1])
  {
    hide Geometry.DataFits, Geometry.Index, Geometry.Within, Geometry.PowerOfTwo, Own, Lba, Geometry.ClusterBytes;
    ChainClusters(g, fat, f.chain);
    StepCluster(g, f.fptr);
    RoomFor(g, f.chain, f.objsize, f.fptr + way - 1);
    Monotone(g, (f.fptr + g.ClusterBytes()) / 512, (f.fptr + way - 1) / 512);
  }

  /** A walk to a cluster not behind the current one may start where the current one does. */
  lemma SeekForward(g: Geometry, ifptr: nat, ofs: nat)
    requires g.Wf() && ifptr > 0 && ofs > 0 && g.ClusterOf(ofs - 1) >= g.ClusterOf(ifptr - 1)
    ensures var s := g.ClusterStart(ifptr - 1);
            0 <= s < ofs && s % 512 == 0 && g.Within(s / 512) == 0 && g.Index(s / 512) == g.Index((ifptr - 1) / 512)
  {
    hide Geometry.ClusterOf, Geometry.ClusterStart, Geometry.ClusterBytes, Geometry.Index, Geometry.Within;
    ClusterOfIndex(g, ofs - 1);
    ClusterOfIndex(g, ifptr - 1);
    ClusterStarts(g, ifptr - 1);
    ClusterStarts(g, ofs - 1);
    if ofs - 1 < g.ClusterStart(ifptr - 1) {
      Monotone(g, (ofs - 1) / 512, g.ClusterStart(ifptr - 1) / 512);
      SameClusterStart(g, ofs - 1, ifptr - 1);
    }
  }

  lemma SameClusterStart(g: Geometry, p: nat, q: nat)
    requires g.Wf() && g.Index(p / 512) == g.Index(q / 512)
    ensures g.ClusterStart(p) == g.ClusterStart(q)
  {
    hide Geometry.ClusterOf, Geometry.ClusterStart, Geometry.ClusterBytes, Geometry.Index, Geometry.Within;
    ClusterStarts(g, p);
    ClusterStarts(g, q);
    DivModUnique(g, g.ClusterStart(p) / 512, g.ClusterStart(q) / 512);
  }

  lemma StartCluster(g: Geometry, fat: seq<nat>, w: nat, f: Fil, a: Cache)
    requires Sound(g, fat, w, f, a) && CursorOk(g, f)
    ensures f.sclust == 0 <==> f.chain == []
    ensures f.chain != [] ==> f.chain[0] == f.sclust && 2 <= f.sclust < INVALID
    ensures f.fptr > 0 ==>
      InFile(g, f.chain, (f.fptr - 1) / 512) && f.clust == f.chain[g.Index((f.fptr - 1) / 512)] && f.clust != 0
  {
    hide Geometry.DataFits, Geometry.Index, Geometry.Within, Geometry.PowerOfTwo, Own, Lba;
    ChainClusters(g, fat, f.chain);
  }

  lemma OnlyOwnRefl(g: Geometry, cs: seq<nat>, v: seq<Sector>)
    ensures OnlyOwn(g, cs, v, v)
  {
  }

  lemma OthersRefl(g: Geometry, fat: seq<nat>, cs: seq<nat>, v: seq<Sector>)
    ensures OthersKept(fat, cs, fat) && OnlyOwn(g, cs, v, v)
  {
  }

  lemma SizeFacts(g: Geometry, fat: seq<nat>, w: nat, f: Fil, a: Cache)
    requires Sound(g, fat, w, f, a) && CursorOk(g, f)
    ensures f.fptr <= f.objsize <= 0xFFFF_FFFF && Room(g, f.chain, f.objsize)
    ensures f.objsize > 0 ==> f.chain != []
  {
  }

  lemma GrownContent(g: Geometry, fat: seq<nat>, w: nat, f: Fil, cs: seq<nat>, a: Cache, b: Cache)
    requires Sound(g, fat, w, f, b) && cs <= f.chain && Room(g, cs, f.objsize) && SameOn(g, cs, a, b)
    ensures Content(g, cs, a, f.objsize) == Content(g, f.chain, b, f.objsize)
  {
    hide Own, SameOn, Content;
    ChainClusters(g, fat, f.chain);
    assert forall i :: 0 <= i < |cs| ==> cs[i] == f.chain[i];
    SameContent(g, cs, f.chain, a, b, f.objsize);
  }

  lemma StoreRange(g: Geometry, fat: seq<nat>, w: nat, f: Fil, a: Cache, cc: nat)
    requires Sound(g, fat, w, f, a) && InFile(g, f.chain, f.fptr / 512) && 0 < cc
      && g.Within(f.fptr / 512) + cc <= g.csize
    ensures var lba := Lba(g, f.chain, f.fptr / 512);
            g.database <= lba && lba + cc <= g.nsect && !(lba <= w < lba + cc) && forall s: nat ::
              lba <= s < lba + cc ==> Own(g, f.chain, s)
  {
    hide Geometry.DataFits, Geometry.Index, Geometry.Within, Geometry.PowerOfTwo, Own, Lba;
    ChainClusters(g, fat, f.chain);
    RunSectors(g, f.chain, f.fptr / 512, cc);
  }

  lemma OwnInside(g: Geometry, fat: seq<nat>, w: nat, f: Fil, a: Cache)
    requires Sound(g, fat, w, f, a)
    ensures forall s: nat :: Own(g, f.chain, s) ==> 0 < s < g.nsect
  {
    forall s: nat | Own(g, f.chain, s) ensures 0 < s < g.nsect {
      OwnBounds(g, fat, f.chain, s);
    }
  }

  lemma WroteOwn(g: Geometry, cs: seq<nat>, v: seq<Sector>, v': seq<Sector>, lba: nat, cc: nat)
    requires g.Wf() && |v| == g.nsect == |v'| && g.database <= lba
    requires forall s: nat :: lba <= s < lba + cc ==> Own(g, cs, s)
    requires forall s: nat :: s < g.nsect && !(lba <= s < lba + cc) ==> v'[s] == v[s]
    ensures OnlyOwn(g, cs, v, v')
  {
    hide Own;
  }

  /** Sectors stored on the device and, where it held one of them, in the clean buffer. */
  lemma StoredSound(g: Geometry, fat: seq<nat>, w: nat, f: Fil, a: Cache, b: Cache, lba: nat, data: seq<Sector>)
    requires Sound(g, fat, w, f, a) && !f.dirty && lba > 0 && lba + |data| <= g.nsect && |b.view| == g.nsect
    requires forall s: nat :: s < g.nsect ==> b.view[s] == if lba <= s < lba + |data| then data[s - lba] else a.view[s]
    requires b.sect == a.sect && b.buf == if lba <= a.sect < lba + |data| then data[a.sect - lba] else a.buf
    requires forall s: nat :: Own(g, f.chain, s) ==> 0 < s < g.nsect
    ensures Sound(g, fat, w, f, b) && Stored(g, f.chain, a, b, lba, data)
  {
    hide Geometry.DataFits, Geometry.Index, Geometry.Within, Geometry.PowerOfTwo, Own, Lba, ChainOrNone, Room;
  }

  lemma WrittenRun(v: seq<Sector>, v': seq<Sector>, lba: nat, data: seq<Sector>)
    requires |v'| == |v| && lba + |data| <= |v| && v'[lba..lba + |data|] == data
    ensures forall s: nat :: lba <= s < lba + |data| ==> v'[s] == data[s - lba]
  {
    forall s: nat | lba <= s < lba + |data| ensures v'[s] == data[s - lba] {
      assert v'[lba..lba + |data|][s - lba] == v'[s];
    }
  }

  lemma NothingDone(g: Geometry, fat: seq<nat>, w: nat, f: Fil, a: Cache)
    requires Sound(g, fat, w, f, a)
    ensures g.csize > 0 && ChainOrNone(fat, f.chain)
    ensures Grown(fat, f.chain, fat, f.chain) && OthersKept(fat, f.chain, fat)
    ensures SameOn(g, f.chain, a, a) && OnlyOwn(g, f.chain, a.view, a.view)
  {
    hide Own, Lba, Base, Geometry.DataFits;
    GrownRefl(fat, f.chain);
    GrownKeepsOthers(fat, f.chain, fat, f.chain);
  }

  /** Where the byte after the file pointer lies or will lie, on a sector boundary. */
  lemma NextCell(g: Geometry, fat: seq<nat>, w: nat, f: Fil, a: Cache)
    requires Sound(g, fat, w, f, a) && CursorOk(g, f) && f.fptr % 512 == 0
    ensures var k := f.fptr / 512;
            if f.fptr == 0 then
              g.Within(k) == 0 && g.Index(k) == 0
              && (if f.sclust == 0 then f.chain == []
                else InFile(g, f.chain, k) && f.chain[0] == f.sclust && 2 <= f.sclust < INVALID)
            else if g.Within(k) == 0 then
              0 < g.Index(k) <= |f.chain| && f.clust == f.chain[g.Index(k) - 1]
            else
              InFile(g, f.chain, k) && f.clust == f.chain[g.Index(k)]
  {
    hide Geometry.DataFits, Geometry.Index, Geometry.Within, Geometry.PowerOfTwo, Own, Lba;
    var k := f.fptr / 512;
    ChainClusters(g, fat, f.chain);
    IndexZero(g);
    if f.fptr > 0 {
      assert (f.fptr - 1) / 512 == k - 1;
      if g.Within(k) == 0 {
        NextCluster(g, k);
      } else {
        PrevInCluster(g, k);
      }
    }
  }

  /** A new cluster at the end of the chain leaves an open file sound. */
  lemma GrowthKeeps(g: Geometry, fat: seq<nat>, w: nat, w': nat, f: Fil, a: Cache, b: Cache, r: nat)
    requires Sound(g, fat, w, f, a) && g.HasEntry(r) && fat[r] == 0 && g.FirstFat(w')
    requires Untouched(g, a.view, b.view) && b.sect == a.sect && b.buf == a.buf
    ensures LastOr0(f.chain) < |fat|
    ensures Grown(fat, f.chain, Created(fat, LastOr0(f.chain), r), f.chain + [r])
    ensures Sound(g, Created(fat, LastOr0(f.chain), r), w',
                  f.(chain := f.chain + [r], sclust := if f.sclust == 0 then r else f.sclust), b)
  {
    hide Geometry.DataFits, Geometry.Index, Geometry.Within, Geometry.PowerOfTwo, Own;
    var cs', fat' := f.chain + [r], Created(fat, LastOr0(f.chain), r);
    FatAccessKeeps(g, fat, w, w', f, a, b);
    CreatedGrows(fat, f.chain, r);
    hide Created, Grown, IsChain, OnlyOwn, Untouched, SameOn;
    OwnGrows(g, f.chain, cs');
    if Own(g, cs', w') {
      OwnBounds(g, fat', cs', w');
    }
  }

  ghost predicate NoSpace(g: Geometry, fat: seq<nat>, free: nat)
    requires |fat| == g.nFatent
  {
    free == 0 || forall c: nat :: g.HasEntry(c) ==> fat[c] != 0
  }

  /** The entry of the `i`th cluster before the next one. */
  lemma ChainLinks(g: Geometry, fat: seq<nat>, cs: seq<nat>, i: nat)
    requires |fat| == g.nFatent && ChainOrNone(fat, cs) && i <= |cs|
    ensures 0 < i ==> g.HasEntry(cs[i - 1]) && cs[i - 1] != 0 && fat[cs[i - 1]] >= 2
    ensures 0 < i < |cs| ==> fat[cs[i - 1]] == cs[i] && g.HasEntry(cs[i])
    ensures 0 < i == |cs| ==> fat[cs[i - 1]] >= g.nFatent
  {
    if i > 0 {
      assert Cluster(fat, cs[i - 1]);
      ChainInUse(fat, cs, i - 1);
    }
    if 0 < i < |cs| {
      assert Cluster(fat, cs[i]);
    }
  }

  lemma SoundGeometry(g: Geometry, fat: seq<nat>, w: nat, f: Fil, a: Cache)
    requires Sound(g, fat, w, f, a)
    ensures g.Wf() && g.csize > 0
  {
  }

  /** The sector that `clst2sect` gives for the current cluster is that of the next byte. */
  lemma SectorHere(g: Geometry, fat: seq<nat>, w: nat, f: Fil, a: Cache)
    requires Sound(g, fat, w, f, a) && InFile(g, f.chain, f.fptr / 512) && f.clust == f.chain[g.Index(f.fptr / 512)]
    ensures Clst2Sect(g, f.clust) > 0 && Clst2Sect(g, f.clust) + g.Within(f.fptr / 512) == Lba(g, f.chain, f.fptr / 512)
    ensures Own(g, f.chain, Lba(g, f.chain, f.fptr / 512))
  {
    hide Geometry.DataFits, Geometry.Index, Geometry.Within, Geometry.PowerOfTwo, Base;
    ChainClusters(g, fat, f.chain);
    LbaInside(g, f.chain, f.fptr / 512);
    BaseBounds(g, f.clust);
  }

  /** Where the byte after the file pointer lies, on a sector boundary. */
  lemma NextByte(g: Geometry, fat: seq<nat>, w: nat, f: Fil, a: Cache)
    requires Sound(g, fat, w, f, a) && CursorOk(g, f)
    requires f.fptr < f.objsize && f.fptr % 512 == 0
    ensures InFile(g, f.chain, f.fptr / 512)
    ensures g.HasEntry(f.chain[g.Index(f.fptr / 512)])
    ensures f.fptr == 0 ==> f.chain[g.Index(f.fptr / 512)] == f.sclust
    ensures f.fptr > 0 && g.Within(f.fptr / 512) == 0 ==>
      0 < g.Index(f.fptr / 512) && g.HasEntry(f.clust) && fat[f.clust] == f.chain[g.Index(f.fptr / 512)]
    ensures f.fptr > 0 && g.Within(f.fptr / 512) != 0 ==> f.clust == f.chain[g.Index(f.fptr / 512)]
  {
    hide Geometry.DataFits, Geometry.Index, Geometry.Within, Geometry.PowerOfTwo, Own;
    var k := f.fptr / 512;
    RoomFor(g, f.chain, f.objsize, f.fptr);
    ChainClusters(g, fat, f.chain);
    IndexZero(g);
    if f.fptr > 0 {
      assert (f.fptr - 1) / 512 == k - 1;
      if g.Within(k) == 0 {
        NextCluster(g, k);
      } else {
        PrevInCluster(g, k);
      }
    }
  }

  /** A cursor at the end of the chain. */
  lemma FullCursor(g: Geometry, fat: seq<nat>, w: nat, f: Fil, a: Cache)
    requires Sound(g, fat, w, f, a) && f.fptr <= 0xFFFF_FFFF
    requires f.fptr % 512 == 0 && g.Within(f.fptr / 512) == 0 && g.Index(f.fptr / 512) == |f.chain|
    requires f.fptr > 0 ==> |f.chain| > 0 && f.chain[|f.chain| - 1] == f.clust
    ensures var n := if f.fptr > f.objsize then f.fptr else f.objsize;
            Sound(g, fat, w, f.(objsize := n), a) && CursorOk(g, f.(objsize := n))
  {
    hide Geometry.DataFits, Geometry.Index, Geometry.Within, Geometry.PowerOfTwo, Own, Lba, ChainOrNone;
    if f.fptr > 0 {
      NextCluster(g, f.fptr / 512);
      assert (f.fptr - 1) / 512 == f.fptr / 512 - 1;
    }
  }

  /** The first bytes of the file do not depend on how many are looked at. */
  lemma WholeContent(g: Geometry, cs: seq<nat>, a: Cache, b: Cache, n: nat, m: nat)
    requires g.csize > 0 && n <= m && a == b
    ensures Content(g, cs, b, m)[..n] == Content(g, cs, a, n)
  {
    hide ByteOf;
    var l, r := Content(g, cs, b, m)[..n], Content(g, cs, a, n);
    forall i | 0 <= i < n ensures l[i] == r[i] {
      assert l[i] == Content(g, cs, b, m)[i];
    }
  }

  /** The number of clusters that `n` bytes need. */
  ghost function Kept(g: Geometry, n: nat): (k: nat)
    requires g.csize > 0
  {
    if n == 0 then 0 else g.Index((n - 1) / 512) + 1
  }

  /** The clusters that the first `n` bytes take: as many as hold them, and no more. */
  lemma KeptIs(g: Geometry, n: nat)
    requires g.csize > 0
    ensures (n == 0 ==> Kept(g, n) == 0) && n <= Kept(g, n) * (g.csize * 512) < n + g.csize * 512
  {
    if n > 0 {
      var k := (n - 1) / 512;
      Division.DivMod(k, g.csize);
      assert Kept(g, n) * (g.csize * 512) == 512 * (g.csize * (k / g.csize)) + 512 * g.csize;
    }
  }

  lemma KeptBounds(g: Geometry, fat: seq<nat>, w: nat, f: Fil, a: Cache)
    requires Sound(g, fat, w, f, a) && CursorOk(g, f) && f.fptr < f.objsize
    ensures Kept(g, f.fptr) <= |f.chain| && 0 < |f.chain| && IsChain(fat, f.chain)
    ensures f.fptr > 0 ==> 0 < Kept(g, f.fptr) && f.clust == f.chain[Kept(g, f.fptr) - 1] && g.HasEntry(f.clust)
  {
    hide Geometry.DataFits, Geometry.Index, Geometry.Within, Geometry.PowerOfTwo, Own, Lba;
    ChainClusters(g, fat, f.chain);
  }

  /** `(fat', cs')` comes from `(fat, cs)` by freeing the clusters of the chain behind `cs'`. */
  ghost predicate CutTo(fat: seq<nat>, cs: seq<nat>, fat': seq<nat>, cs': seq<nat>) {
    && cs' <= cs
    && if |cs'| == |cs| then fat' == fat
       else (|cs'| > 0 ==> cs[|cs'| - 1] < |fat|) && fat' == CutFat(fat, cs, |cs'|)
  }

  /** Freeing from the `k`th cluster of a chain on is what `CutTo` says. */
  lemma CutChain(g: Geometry, fat: seq<nat>, cs: seq<nat>, k: nat)
    requires g.Wf() && |fat| == g.nFatent && IsChain(fat, cs) && k <= |cs|
    ensures k < |cs| ==> g.HasEntry(cs[k])
    ensures k == 0 ==> FreeFrom(fat, cs[0]) == (CutFat(fat, cs, 0), true)
    ensures 0 < k < |cs| ==> g.HasEntry(cs[k - 1]) && cs[k - 1] != 0 && fat[cs[k - 1]] != 0
    ensures 0 < k < |cs| ==> FreeFrom(fat[cs[k - 1] := EOC], cs[k]) == (CutFat(fat, cs, k), true)
  {
    if k < |cs| {
      assert Cluster(fat, cs[k]);
      FatOwnership.RemoveIsCut(fat, cs, k);
      if k > 0 {
        assert Cluster(fat, cs[k - 1]);
      }
    }
  }

  lemma WindowRefl(g: Geometry, w: nat, w': nat)
    ensures w == w' || w' == INVALID || g.FirstFat(w') ==> WindowMoved(g, w, w')
  {
  }

  lemma WindowTrans(g: Geometry, w: nat, w': nat, w'': nat)
    requires WindowMoved(g, w, w') && WindowMoved(g, w', w'')
    ensures WindowMoved(g, w, w'')
  {
  }

  /** Freeing behind the `k`th cluster of a chain, finished or not, leaves the used entries of others alone. */
  lemma FreedOthers(g: Geometry, fat: seq<nat>, cs: seq<nat>, k: nat, fat': seq<nat>)
    requires g.Wf() && |fat| == g.nFatent == |fat'| && IsChain(fat, cs) && k < |cs|
      && Cluster(fat, if k == 0 then 2 else cs[k - 1])
    requires || fat' == fat
             || fat' == CutFat(fat, cs, k)
             || PartlyFreed(if k == 0 then fat else fat[cs[k - 1] := EOC], cs[k], fat')
    ensures OthersKept(fat, cs, fat')
  {
    FatOwnership.CutEntries(fat, cs, k);
    if k == 0 {
      if PartlyFreed(fat, cs[0], fat') {
        PartlyFreedKeepsOthers(fat, cs, fat');
      }
    } else {
      var marked := fat[cs[k - 1] := EOC];
      CutLeavesChain(fat, cs, k);
      if PartlyFreed(marked, cs[k], fat') {
        PartlyFreedKeepsOthers(marked, cs[k..], fat');
      }
      assert cs[k - 1] in cs;
    }
  }

  /** A buffered sector stays out of the window while FAT entries are accessed. */
  lemma CutBuffer(g: Geometry, fat: seq<nat>, w: nat, f: Fil, a: Cache, w': nat, b: Cache)
    requires Sound(g, fat, w, f, a) && Untouched(g, a.view, b.view) && WindowMoved(g, w, w')
    requires b.sect == a.sect && b.buf == a.buf
    ensures f.dirty ==> g.database <= f.sect < g.nsect && f.sect != w' && Own(g, f.chain, f.sect)
    ensures OnlyOwn(g, f.chain, a.view, b.view) && SameOn(g, f.chain, a, b)
  {
    FatAccessKeeps(g, fat, w, w', f, a, b);
  }

  /** A file cut at its file pointer, with its buffer written back, is sound and has the bytes up to there. */
  lemma CutSound(g: Geometry, fat: seq<nat>, w: nat, f: Fil, a: Cache, fat': seq<nat>, w': nat, b: Cache, c: Cache)
    requires Sound(g, fat, w, f, a) && CursorOk(g, f) && f.fptr < f.objsize
    requires Untouched(g, a.view, b.view) && WindowMoved(g, w, w') && b.sect == a.sect && b.buf == a.buf
    requires Kept(g, f.fptr) <= |f.chain| && |fat'| == |fat| && CutTo(fat, f.chain, fat', f.chain[..Kept(g, f.fptr)])
    requires c.sect == a.sect && c.buf == a.buf && |c.view| == |b.view|
    requires forall s: nat :: s < |b.view| && !(f.dirty && s == f.sect) ==> c.view[s] == b.view[s]
    requires f.dirty && f.sect < |c.view| ==> c.view[f.sect] == a.buf
    ensures Sound(g, fat', w', CutFile(g, f), c) && CursorOk(g, CutFile(g, f))
    ensures Content(g, f.chain[..Kept(g, f.fptr)], c, f.fptr) == Content(g, f.chain, a, f.objsize)[..f.fptr]
  {
    hide Geometry.DataFits, Geometry.Index, Geometry.Within, Geometry.PowerOfTwo, CutFile, Kept, CursorOk;
    var k := Kept(g, f.fptr);
    var cs := f.chain[..k];
    FatAccessKeeps(g, fat, w, w', f, a, b);
    hide Own, Room, Cache.At, ChainOrNone, CutTo, Untouched, Content, SameOn;
    CutSameOn(g, fat, w', f, a, b, c, cs);
    CutIsChain(g, fat, f.chain, fat', k);
    CutRoom(g, f);
    CutState(g, fat, fat', w', f, b, c);
    ChainClusters(g, fat', cs);
    SameContent(g, cs, f.chain, c, a, f.fptr);
    WholeContent(g, f.chain, a, a, f.fptr, f.objsize);
  }

  /** The fields of a file that was cut at its file pointer. */
  ghost function CutFile(g: Geometry, f: Fil): (f': Fil)
    requires g.csize > 0 && Kept(g, f.fptr) <= |f.chain|
  {
    var cs := f.chain[..Kept(g, f.fptr)];
    f.(chain := cs, sclust := if cs == [] then 0 else f.sclust, objsize := f.fptr, dirty := false)
  }

  lemma CutRoom(g: Geometry, f: Fil)
    requires g.csize > 0 && CursorOk(g, f) && Kept(g, f.fptr) <= |f.chain|
    ensures Room(g, f.chain[..Kept(g, f.fptr)], f.fptr) && CursorOk(g, CutFile(g, f))
  {
    hide Geometry.Index, Geometry.Within, Base;
  }

  lemma CutState(g: Geometry, fat: seq<nat>, fat': seq<nat>, w: nat, f: Fil, b: Cache, c: Cache)
    requires Sound(g, fat, w, f, b) && Kept(g, f.fptr) <= |f.chain| && f.fptr < f.objsize
    requires |fat'| == |fat| && ChainOrNone(fat', f.chain[..Kept(g, f.fptr)])
    requires Room(g, f.chain[..Kept(g, f.fptr)], f.fptr)
    requires c.sect == b.sect && c.buf == b.buf && |c.view| == |b.view|
    requires forall s: nat :: s < |b.view| && !(f.dirty && s == f.sect) ==> c.view[s] == b.view[s]
    requires f.dirty && f.sect < |c.view| ==> c.view[f.sect] == b.buf
    ensures Sound(g, fat', w, CutFile(g, f), c)
  {
    hide Geometry.DataFits, Geometry.Index, Geometry.Within, Geometry.PowerOfTwo, ChainOrNone, Room;
    OwnGrows(g, f.chain[..Kept(g, f.fptr)], f.chain);
    hide Own, Kept;
  }

  lemma CutSameOn(g: Geometry, fat: seq<nat>, w: nat, f: Fil, a: Cache, b: Cache, c: Cache, cs: seq<nat>)
    requires Sound(g, fat, w, f, b) && SameOn(g, f.chain, a, b) && cs <= f.chain
    requires c.sect == b.sect == a.sect && c.buf == b.buf == a.buf && |c.view| == |b.view| == |a.view|
    requires forall s: nat :: s < |b.view| && !(f.dirty && s == f.sect) ==> c.view[s] == b.view[s]
    requires f.dirty && f.sect < |c.view| ==> c.view[f.sect] == a.buf
    ensures SameOn(g, cs, c, a)
  {
    hide Geometry.DataFits, ChainOrNone, Room;
    OwnGrows(g, cs, f.chain);
    forall s: nat | Own(g, cs, s) ensures s < g.nsect && c.At(s) == a.At(s) {
      OwnBounds(g, fat, f.chain, s);
    }
  }

  lemma CutIsChain(g: Geometry, fat: seq<nat>, cs: seq<nat>, fat': seq<nat>, k: nat)
    requires g.Wf() && |fat| == g.nFatent && ChainOrNone(fat, cs) && k <= |cs| && CutTo(fat, cs, fat', cs[..k])
    ensures ChainOrNone(fat', cs[..k])
  {
    assert k == |cs| ==> cs[..k] == cs;
    if 0 < k < |cs| {
      CutLeavesChain(fat, cs, k);
    }
  }
}
