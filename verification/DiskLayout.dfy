/** Where the bytes of a file lie on the device, in numbers: the place that `clst2sect` computes, without the functions
    that the file code is specified by. */
module DiskLayout {
  import opened Bytes
  import opened Volumes
  import opened FatChains
  import opened ClusterAlloc
  import opened FileLayout
  import Division

  /** The data area begins with cluster 2, and the clusters follow each other. */
  lemma ClusterPlaces(g: Geometry, c: nat)
    requires g.HasEntry(2)
    ensures Base(g, 2) == Clst2Sect(g, 2) == g.database
    ensures Base(g, c + 1) == Base(g, c) + g.csize
    ensures g.HasEntry(c) && g.HasEntry(c + 1) ==> Clst2Sect(g, c + 1) == Clst2Sect(g, c) + g.csize
  {
    assert g.csize * (c + 1 - 2) == g.csize * (c - 2) + g.csize;
  }

  /** Sector `s` of the device is the one of byte `i` of the file. */
  ghost predicate SectorOfByte(g: Geometry, cs: seq<nat>, i: nat, s: int) {
    && g.csize > 0 && 0 <= i / (g.csize * 512) < |cs|
    && s == g.database + g.csize * (cs[i / (g.csize * 512)] as int - 2) + i / 512 % g.csize
  }

  /** Byte `i` of the file is `b`, on the device, or in the buffer when that is dirty and holds the sector. */
  ghost predicate OnDisk(g: Geometry, cs: seq<nat>, disk: seq<Sector>, dirty: bool, sect: nat, buf: seq<byte>, i: nat,
                         b: byte) {
    exists s: int :: SectorOfByte(g, cs, i, s) && SectorHas(disk, dirty, sect, buf, s, i % 512, b)
  }

  ghost predicate SectorHas(disk: seq<Sector>, dirty: bool, sect: nat, buf: seq<byte>, s: int, o: nat, b: byte) {
    0 <= s < |disk| && o < 512 == |buf| && b == if dirty && s == sect then buf[o] else disk[s][o]
  }

  /** The clusters of the file follow each other from `c` on. */
  ghost predicate InRow(cs: seq<nat>, c: nat) { forall k :: 0 <= k < |cs| ==> cs[k] == c + k }

  /** The bytes of such a file lie in a row from the first sector of cluster `c` on. */
  lemma RowSector(g: Geometry, cs: seq<nat>, c: nat, i: nat, s: int)
    requires SectorOfByte(g, cs, i, s) && InRow(cs, c) && c >= 2
    ensures s == g.database + g.csize * (c - 2) + i / 512
  {
    var k := i / 512;
    Division.Offset(i, g.csize);
    Division.DivMod(k, g.csize);
    assert g.csize * (c + k / g.csize - 2) == g.csize * (c - 2) + g.csize * (k / g.csize);
  }

  /** So does byte `i` of a file whose clusters follow each other. */
  lemma RowOnDisk(g: Geometry, cs: seq<nat>, c: nat, disk: seq<Sector>, dirty: bool, sect: nat, buf: seq<byte>, i: nat,
                  b: byte)
    requires OnDisk(g, cs, disk, dirty, sect, buf, i, b) && InRow(cs, c) && c >= 2
    ensures SectorHas(disk, dirty, sect, buf, g.database + g.csize * (c - 2) + i / 512, i % 512, b)
  {
    hide SectorHas, InRow;
    var s: int :| SectorOfByte(g, cs, i, s) && SectorHas(disk, dirty, sect, buf, s, i % 512, b);
    RowSector(g, cs, c, i, s);
  }

  lemma FileSector(g: Geometry, cs: seq<nat>, k: nat, i: nat)
    requires g.Wf() && g.DataFits() && Clusters(g, cs) && InFile(g, cs, k) && k == i / 512
    ensures SectorOfByte(g, cs, i, Lba(g, cs, k)) && 0 < g.database <= Lba(g, cs, k) < g.nsect
  {
    hide Geometry.DataFits, Geometry.PowerOfTwo;
    LbaInside(g, cs, k);
    Division.Offset(i, g.csize);
  }

  /** A byte of a file as it is read through its buffer and the window is on the device, or in the dirty buffer: the
      window has no sector of the file. */
  lemma ByteOnDisk(fs: Volume, f: Fil, a: Cache, i: nat)
    requires fs.Valid() && Sound(fs.g, fs.Fat(), fs.winsect, f, a) && a.view == fs.View() && i < f.objsize
    ensures OnDisk(fs.g, f.chain, fs.disk, f.dirty, f.sect, a.buf, i, Content(fs.g, f.chain, a, f.objsize)[i])
  {
    hide FatOf, Geometry.DataFits, Geometry.Index, Geometry.Within, Geometry.PowerOfTwo, SectorOfByte;
    var s := Lba(fs.g, f.chain, i / 512);
    ChainClusters(fs.g, fs.Fat(), f.chain);
    RoomFor(fs.g, f.chain, f.objsize, i);
    LbaInside(fs.g, f.chain, i / 512);
    FileSector(fs.g, f.chain, i / 512, i);
    hide Lba, ChainOrNone, Room, Base;
    assert fs.View()[s] == fs.disk[s];
    assert SectorHas(fs.disk, f.dirty, f.sect, a.buf, s, i % 512, ByteOf(fs.g, f.chain, a, i));
  }

  /** All bytes of the file are. */
  ghost predicate AllOnDisk(g: Geometry, cs: seq<nat>, disk: seq<Sector>, dirty: bool, sect: nat, buf: seq<byte>,
    p: nat, t: seq<byte>) {
    && (forall j: nat :: j < |t| ==> OnDisk(g, cs, disk, dirty, sect, buf, p + j, t[j]))
    && forall c: nat, j: nat :: InRow(cs, c) && c >= 2 && j < |t| ==>
      SectorHas(disk, dirty, sect, buf, g.database + g.csize * (c - 2) + (p + j) / 512, (p + j) % 512, t[j])
  }

  lemma InRowToo(g: Geometry, cs: seq<nat>, disk: seq<Sector>, dirty: bool, sect: nat, buf: seq<byte>, p: nat,
                 t: seq<byte>)
    requires forall j: nat :: j < |t| ==> OnDisk(g, cs, disk, dirty, sect, buf, p + j, t[j])
    ensures AllOnDisk(g, cs, disk, dirty, sect, buf, p, t)
  {
    hide OnDisk, SectorHas, InRow;
    forall c: nat, j: nat | InRow(cs, c) && c >= 2 && j < |t|
      ensures SectorHas(disk, dirty, sect, buf, g.database + g.csize * (c - 2) + (p + j) / 512, (p + j) % 512, t[j])
    {
      RowOnDisk(g, cs, c, disk, dirty, sect, buf, p + j, t[j]);
    }
  }

  /** A file pointer inside a sector is in a sector of the file, if the byte before it is in the file. */
  lemma CursorSector(g: Geometry, cs: seq<nat>, p: nat)
    requires g.Wf() && g.DataFits() && Clusters(g, cs) && p > 0 && InFile(g, cs, (p - 1) / 512)
    ensures p % 512 != 0 ==> SectorOfByte(g, cs, p, Lba(g, cs, p / 512))
    ensures (p - 1) / (g.csize * 512) == g.Index((p - 1) / 512)
  {
    Division.Offset(p - 1, g.csize);
    if p % 512 != 0 {
      assert p / 512 == (p - 1) / 512;
      FileSector(g, cs, p / 512, p);
    }
  }
}
