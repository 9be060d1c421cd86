/** The link map that `f_truncate` leaves behind. `f_write` takes its cluster from the table, which still names the
    clusters that were cut off, and so writes over whatever file has them by then. */
module StaleMaps {
  import opened Bytes
  import opened FatChains
  import opened Volumes
  import opened ClusterAlloc
  import opened FileLayout
  import opened FileBytes
  import opened LinkTable
  import opened OpenFile
  import opened StaleBuffers
  import FileRuns
  import LinkMap

  /** What `clmt_clust` gives over the table of a file that was cut since: a cluster of the file just in front of the
      clusters that went, and one that is free just from there to the end of the table. */
  method TruncatedMap(g: Geometry, tbl: array<nat>, ofs: nat, ghost fat: seq<nat>, ghost cs: seq<nat>,
                      ghost fat': seq<nat>, ghost cs': seq<nat>)
      returns (c: nat)
    requires g.Wf() && |fat| == g.nFatent && IsTable(tbl, cs) && IsChain(fat, cs) && CutTo(fat, cs, fat', cs')
    ensures c in cs' <==> g.ClusterOf(ofs) < |cs'|
    ensures g.HasEntry(c) && c !in cs' && fat'[c] == 0 <==> |cs'| <= g.ClusterOf(ofs) < |cs|
    ensures c == 0 <==> g.ClusterOf(ofs) >= |cs|
  {
    hide IsTable, Geometry.ClusterOf;
    ClusterOfIndex(g, ofs);
    c := ClmtClust(g, tbl, ofs, cs);
    if g.ClusterOf(ofs) < |cs| {
      CutCluster(fat, cs, fat', cs', g.ClusterOf(ofs));
    } else {
      NoZero(fat, cs, fat', cs');
    }
  }

  /** Cluster `k` of a chain that was cut is in the rest, or free. */
  lemma CutCluster(fat: seq<nat>, cs: seq<nat>, fat': seq<nat>, cs': seq<nat>, k: nat)
    requires IsChain(fat, cs) && CutTo(fat, cs, fat', cs') && k < |cs|
    ensures |fat'| == |fat| && Cluster(fat, cs[k]) && (cs[k] in cs' <==> k < |cs'|)
    ensures k >= |cs'| ==> fat'[cs[k]] == 0
  {
    assert Cluster(fat, cs[k]);
    if k < |cs'| {
      assert cs'[k] == cs[k];
    } else {
      forall i | 0 <= i < |cs'| ensures cs'[i] != cs[k] {
        ChainDistinct(fat, cs, i, k);
      }
      assert cs[|cs'|..][k - |cs'|] == cs[k];
    }
  }

  lemma NoZero(fat: seq<nat>, cs: seq<nat>, fat': seq<nat>, cs': seq<nat>)
    requires IsChain(fat, cs) && CutTo(fat, cs, fat', cs')
    ensures 0 !in cs'
  {
    forall i | 0 <= i < |cs'| ensures cs'[i] != 0 {
      assert Cluster(fat, cs[i]);
    }
  }

  /** Cluster `c`, from its first sector on, holds `data`, and every other sector is what it was. */
  ghost predicate Overlaid(g: Geometry, v: seq<Sector>, v': seq<Sector>, c: nat, data: seq<Sector>) {
    && |v'| == |v| == g.nsect && |data| <= g.csize && 0 <= Base(g, c) && Base(g, c) + g.csize <= g.nsect
    && forall s: nat :: s < g.nsect ==>
                          v'[s] == if Base(g, c) <= s < Base(g, c) + |data| then data[s - Base(g, c)] else v[s]
  }

  /** A round of the loop of `f_write` for whole sectors, on a cluster boundary behind the first cluster, with a link
      map: the sectors go to the cluster `c` that the table names, whoever has it. */
  method WriteRound(f: File, chunk: seq<byte>, cc: nat, ghost c: nat) returns (res: FResult)
    requires f.Ready() && f.fs.g.DataFits() && f.cltbl != null && IsTable(f.cltbl, f.mapped) && !f.dirty
    requires f.fptr % 512 == 0 && f.fs.g.Within(f.fptr / 512) == 0
    requires f.fs.g.Index(f.fptr / 512) < |f.mapped| && f.mapped[f.fs.g.Index(f.fptr / 512)] == c
    requires f.fs.g.HasEntry(c) && !InCluster(f.fs.g, c, f.fs.winsect)
    requires 0 < cc <= f.fs.g.csize && |chunk| == cc * 512
    modifies f`clust, f`fptr, f`objsize, f.buf, f.fs`disk
    ensures f.Ready() && f.fs.Fat() == old(f.fs.Fat()) && (f.fs.g.reliable ==> res == Ok)
    ensures res == Ok ==> Overlaid(f.fs.g, old(f.fs.View()), f.fs.View(), c, Sectors(chunk, cc))
    ensures res == Ok ==> f.fptr == old(f.fptr) + cc * 512
  {
    hide FatOf, Volume.View, Geometry.DataFits, Geometry.Index, Geometry.Within, Geometry.PowerOfTwo, IsTable;
    hide Base, Sectors, Flatten;
    var clst := f.MappedCluster();
    BaseBounds(f.fs.g, c);
    f.clust := clst;
    var lba := Clst2Sect(f.fs.g, f.clust);
    res := f.PutSectors(Sectors(chunk, cc), lba);
    if res == Ok {
      f.fptr := f.fptr + cc * 512;
      if f.fptr > f.objsize {
        f.objsize := f.fptr;
      }
    }
  }

  // ---------------------------------------------------------------- the run

  /** The file has a table, is not dirty, and stands behind its first cluster; cluster `c` is in the table there. */
  ghost predicate Behind(f: File, c: nat)
    reads f, f.cltbl, f.fs, f.fs.win
  {
    && f.Ready() && f.cltbl != null && IsTable(f.cltbl, f.mapped) && |f.mapped| == 2 && f.mapped[1] == c && !f.dirty
    && f.fptr % 512 == 0 && f.fs.g.Within(f.fptr / 512) == 0 && f.fs.g.Index(f.fptr / 512) == 1
  }

  /** A file of two clusters with a link map is truncated to the first; the second is then the only free one. */
  method Shorten(f: File, c: nat, d: nat)
    requires f.Ready() && f.canWrite && f.err == Ok && f.Intact() && f.cltbl != null && f.MapOk()
    requires f.mapped == f.chain == [c, d] && f.fs.g.ClusterBytes() < f.objsize
    requires Volatile(f.fs) && OthersUsed(f.fs.Fat(), d)
    modifies f, f.buf, f.fs, f.fs.win
    ensures Behind(f, d) && f.chain == [c] && f.Intact() && Volatile(f.fs) && OnlyFree(f.fs.Fat(), d)
  {
    hide FatOf, Volume.View, Geometry.DataFits, Geometry.Index, Geometry.Within, Geometry.PowerOfTwo, Sound, CursorOk;
    hide Content, OnlyOwn, OthersKept, SameOn, CutTo, Kept, IsTable, FreeCount, Damaged, OthersUsed, OnlyFree;
    hide Geometry.ClusterBytes;
    var g := f.fs.g;
    SoundGeometry(g, f.fs.Fat(), f.fs.winsect, f.Fields(), f.Snap());
    FirstCluster(g);
    var res := LinkMap.FastSeek(f, g.ClusterBytes());
    ghost var fat := f.fs.Fat();
    TwoClusters(f, c, d);
    res := f.Truncate();
    CutSecond(fat, c, d, f.fs.Fat(), f.chain);
    FileRuns.CutUndamaged(fat, [c, d], f.fs.Fat(), f.chain);
  }

  /** Where the first cluster of a file ends. */
  lemma FirstCluster(g: Geometry)
    requires g.Wf()
    ensures var n := g.ClusterBytes();
            n > 0 && n % 512 == 0 && g.Within(n / 512) == 0 && g.Index(n / 512) == 1 && Kept(g, n) == 1
  {
    hide Geometry.PowerOfTwo;
    IndexZero(g);
    StepCluster(g, 0);
    InsideCluster(g, 0, g.ClusterBytes());
  }

  lemma TwoClusters(f: File, c: nat, d: nat)
    requires f.Ready() && f.Intact() && f.chain == [c, d]
    ensures IsChain(f.fs.Fat(), [c, d])
  {
  }

  lemma CutSecond(fat: seq<nat>, c: nat, d: nat, fat': seq<nat>, cs': seq<nat>)
    requires IsChain(fat, [c, d]) && OthersUsed(fat, d) && CutTo(fat, [c, d], fat', cs') && |cs'| == 1
    ensures cs' == [c] && OnlyFree(fat', d)
  {
    assert cs' == [c, d][..1] == [c];
    assert [c, d][1..] == [d];
    assert Cluster(fat, [c, d][0]) && Cluster(fat, [c, d][1]);
  }

  /** The first byte of a file of one cluster, read through a file object of its own. */
  method FirstByte(fs: Volume, c: nat) returns (b: byte)
    requires fs.Valid() && Volatile(fs) && IsChain(fs.Fat(), [c]) && !InCluster(fs.g, c, fs.winsect)
    modifies fs, fs.win
    ensures fs.Valid() && Volatile(fs) && fs.Fat() == old(fs.Fat()) && !InCluster(fs.g, c, fs.winsect)
    ensures 0 <= Base(fs.g, c) < fs.g.nsect && b == old(fs.View())[Base(fs.g, c)][0]
  {
    hide FatOf, Volume.View, Geometry.DataFits, Geometry.Index, Geometry.Within, Geometry.PowerOfTwo, IsChain;
    hide Own, Sound, CursorOk, Content, Base, OnlyOwn, FreeCount, Damaged;
    OneClusterFile(fs.g, c);
    ClusterPlace(fs.g, fs.Fat(), c, 0);
    var f := new File(fs, c, 512, true, false, [c]);
    ghost var a := f.Snap();
    var rbuff := new byte[1];
    var res, br := f.Read(rbuff, 1);
    b := rbuff[0];
    FirstOf(fs.g, c, a, f.Bytes());
    WindowApart(f, c);
  }

  lemma WindowApart(f: File, c: nat)
    requires f.Ready() && f.Intact() && f.chain == [c]
    ensures !InCluster(f.fs.g, c, f.fs.winsect)
  {
    OwnOne(f.fs.g, c, f.fs.winsect);
  }

  lemma OwnOne(g: Geometry, c: nat, s: nat)
    ensures Own(g, [c], s) <==> InCluster(g, c, s)
  {
    assert c in [c];
  }

  lemma OneClusterFile(g: Geometry, c: nat)
    requires g.Wf()
    ensures Room(g, [c], 512) && forall s: nat :: Own(g, [c], s) <==> InCluster(g, c, s)
  {
    hide Geometry.PowerOfTwo;
    IndexZero(g);
    forall s: nat ensures Own(g, [c], s) <==> InCluster(g, c, s) {
      OwnOne(g, c, s);
    }
  }

  lemma FirstOf(g: Geometry, c: nat, a: Cache, s: seq<byte>)
    requires g.Wf() && 0 < Base(g, c) < |a.view| && a.sect == 0 && s == Content(g, [c], a, 512)
    ensures s[0] == a.view[Base(g, c)][0]
  {
    IndexZero(g);
    assert s[0] == ByteOf(g, [c], a, 0);
  }

  /** A file of two clusters with a link map is truncated to one, another file gets the free cluster and stores `data`
      there. A write through the table that the truncation left behind then stores `mine` over it: the other file, on
      which no call is made in between, reads `before` and then `after`. */
  method Overwrites(f: File, c: nat, d: nat, data: seq<byte>, mine: seq<byte>)
      returns (h: File, before: byte, after: byte)
    requires f.Ready() && f.canWrite && f.err == Ok && f.Intact() && f.cltbl != null && f.MapOk()
    requires f.mapped == f.chain == [c, d] && f.fs.g.ClusterBytes() < f.objsize
    requires Volatile(f.fs) && OthersUsed(f.fs.Fat(), d)
    requires |data| == |mine| == 512 && data[0] != mine[0]
    modifies f, f.buf, f.fs, f.fs.win
    ensures f.chain == [c] && fresh(h) && h.fs == f.fs && h.chain == [d]
    ensures before == data[0] && after == mine[0] && before != after
  {
    hide FatOf, Volume.View, Geometry.DataFits, Geometry.Index, Geometry.Within, Geometry.PowerOfTwo, IsChain;
    hide Own, Sound, CursorOk, Content, Base, OnlyOwn, FreeCount, Damaged, OnlyFree, OthersUsed, IsTable, Sectors;
    hide Flatten, InCluster;
    Shorten(f, c, d);
    h := Written(f.fs, d, data);
    WindowApart(h, d);
    HasIt(f.fs.g, f.fs.Fat(), d);
    before := FirstByte(f.fs, d);
    OneSectorOf(mine);
    var res := WriteRound(f, mine, 1, d);
    after := FirstByte(f.fs, d);
  }

  lemma HasIt(g: Geometry, fat: seq<nat>, d: nat)
    requires g.Wf() && |fat| == g.nFatent && IsChain(fat, [d])
    ensures g.HasEntry(d)
  {
    assert Cluster(fat, [d][0]);
  }

  lemma OneSectorOf(s: seq<byte>)
    requires |s| == 512
    ensures |Sectors(s, 1)| == 1 && Sectors(s, 1)[0][0] == s[0]
  {
  }
}
