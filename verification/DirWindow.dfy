/** Finding, registering and removing names in a directory through the window: `dir_find`, `dir_alloc`, `dir_register`
    and `dir_remove` of ff.c, against the table of entries that the clusters of the directory hold. */
module DirWindow {
  import Division
  import opened Bytes
  import opened FatChains
  import opened Volumes
  import opened ClusterAlloc
  import opened FileLayout
  import opened FileBytes
  import opened DirTable
  import opened LongNames
  import opened ShortNames
  import D = Directories
  import I = FileIsolation
  import DirSearch

  /** A directory no longer than one may be. */
  ghost predicate Good(d: Dir)
    reads d, d.fs, d.fs.win
  {
    d.Ready() && Entries(d.fs.g, |d.chain|) <= D.MAX_ENTRIES
  }

  ghost function Table(d: Dir): (table: seq<Entry>)
    requires Good(d)
    reads d, d.fs, d.fs.win
  {
    TableOf(d.fs.g, d.chain, d.fs.View())
  }

  /** The entry that the directory object is at. */
  ghost function Cur(d: Dir): (k: nat)
    reads d
  {
    d.dptr / 32
  }

  /** The directory object is at an entry of the table. */
  ghost predicate On(d: Dir)
    reads d, d.fs, d.fs.win
  {
    Good(d) && d.There() && d.sect != 0 && Cur(d) < |Table(d)|
  }

  ghost predicate InWindow(d: Dir)
    reads d, d.fs
  {
    d.fs.winsect == d.sect
  }

  // ---------------------------------------------------------------- the rest of the volume

  /** What the directory shares with files and other directories. */
  ghost function PlaceOf(d: Dir): (p: I.Place)
    requires d.fs.Valid()
    reads d, d.fs, d.fs.win
  {
    I.Place(d.fs.Fat(), d.fs.winsect, d.fs.View(), d.chain)
  }

  /** The chain of the directory at most grows, by clusters that were free; entries of others stay, and every sector
      outside the FATs and the clusters of the directory; the window does not go to sectors of others. */
  ghost predicate Only(g: Geometry, p: I.Place, q: I.Place) {
    && Grown(p.fat, p.chain, q.fat, q.chain)
    && OnlyOwn(g, q.chain, p.view, q.view) && WindowIn(g, q.chain, p.window, q.window)
  }

  lemma OnlyRefl(d: Dir)
    requires d.Ready()
    ensures Only(d.fs.g, PlaceOf(d), PlaceOf(d))
  {
    GrownRefl(d.fs.Fat(), d.chain);
    hide Own;
  }

  lemma OnlyTrans(g: Geometry, p: I.Place, q: I.Place, r: I.Place)
    requires Only(g, p, q) && Only(g, q, r) && ChainOrNone(p.fat, p.chain)
    ensures Only(g, p, r)
  {
    GrownTrans(p.fat, p.chain, q.fat, q.chain, r.fat, r.chain);
    GrownPrefix(q.fat, q.chain, r.fat, r.chain);
    hide Grown;
    OnlyOwnTrans(g, q.chain, r.chain, p.view, q.view, r.view);
    WindowInTrans(g, q.chain, r.chain, p.window, q.window, r.window);
  }

  lemma GrownPrefix(fat: seq<nat>, cs: seq<nat>, fat': seq<nat>, cs': seq<nat>)
    requires Grown(fat, cs, fat', cs')
    ensures cs <= cs'
  {
  }

  /** Only the window moved. */
  lemma OnlyMoved(d: Dir, p: I.Place)
    requires d.Ready() && p.fat == d.fs.Fat() && p.chain == d.chain && Untouched(d.fs.g, p.view, d.fs.View())
    requires WindowIn(d.fs.g, d.chain, p.window, d.fs.winsect)
    ensures Only(d.fs.g, p, PlaceOf(d))
  {
    GrownRefl(d.fs.Fat(), d.chain);
    hide Own;
  }

  /** A cluster more, cleared. */
  lemma OnlyStretched(d: Dir, p: I.Place, c: nat)
    requires d.Ready() && |p.fat| == d.fs.g.nFatent && Grown(p.fat, p.chain, d.fs.Fat(), d.chain)
    requires d.chain == p.chain + [c] && StretchedBy(d.fs.g, p.view, d.fs.View(), c)
    requires WindowIn(d.fs.g, d.chain, p.window, d.fs.winsect) && |p.view| == d.fs.g.nsect
    ensures Only(d.fs.g, p, PlaceOf(d))
  {
    hide FatOf, Volume.View, Grown, IsChain, Geometry.DataFits;
    var g := d.fs.g;
    var mid :| Untouched(g, p.view, mid) && Cleared(g, mid, d.fs.View(), c);
    LastEntry(g, d.fs.Fat(), d.chain);
    ClearedFat(g, mid, d.fs.View(), c);
    LastOwn(g, d.chain, c);
    hide Own, Cleared;
  }

  lemma LastEntry(g: Geometry, fat: seq<nat>, cs: seq<nat>)
    requires |fat| == g.nFatent && IsChain(fat, cs)
    ensures |cs| > 0 && g.HasEntry(cs[|cs| - 1])
  {
    assert Cluster(fat, cs[|cs| - 1]);
  }

  lemma LastOwn(g: Geometry, cs: seq<nat>, c: nat)
    requires |cs| > 0 && cs[|cs| - 1] == c
    ensures forall s: nat :: Own(g, [c], s) ==> Own(g, cs, s)
  {
    assert c in cs;
  }

  // ---------------------------------------------------------------- one entry

  lemma SameTable(g: Geometry, fat: seq<nat>, cs: seq<nat>, a: seq<Sector>, b: seq<Sector>)
    requires g.Wf() && g.DataFits() && |fat| == g.nFatent && IsChain(fat, cs) && |a| == g.nsect && Untouched(g, a, b)
    ensures TableOf(g, cs, b) == TableOf(g, cs, a)
  {
    hide Geometry.DataFits, Geometry.Index, Geometry.Within, Geometry.PowerOfTwo, IsChain, Lba;
    ChainClusters(g, fat, cs);
    forall k: nat | k < Entries(g, |cs|) ensures EntryAt(g, cs, b, k) == EntryAt(g, cs, a, k) {
      EntryInside(g, |cs|, k);
      LbaInside(g, cs, k / 16);
    }
  }

  /** Where the entry at `dptr` lies. */
  lemma EntryHere(g: Geometry, fat: seq<nat>, cs: seq<nat>, v: seq<Sector>, dptr: nat, clust: nat, sect: nat)
    requires g.Wf() && g.DataFits() && |fat| == g.nFatent && IsChain(fat, cs) && |v| == g.nsect
      && Placed(g, cs, dptr, clust, sect)
    ensures g.database <= sect < g.nsect && dptr / 32 < |TableOf(g, cs, v)| && dptr % 512 + 32 <= 512
    ensures TableOf(g, cs, v)[dptr / 32] == v[sect][dptr % 512..dptr % 512 + 32]
  {
    hide Geometry.DataFits, Geometry.Index, Geometry.Within, Geometry.PowerOfTwo, IsChain, Lba;
    ChainClusters(g, fat, cs);
    Places(dptr);
    EntryInside(g, |cs|, dptr / 32);
    LbaInside(g, cs, dptr / 512);
  }

  lemma Places(dptr: nat)
    requires dptr % 32 == 0
    ensures dptr / 32 / 16 == dptr / 512 && 32 * (dptr / 32 % 16) == dptr % 512 && dptr % 512 + 32 <= 512
  {
  }

  /** `move_window` to the sector of the entry. */
  method Bring(d: Dir) returns (ok: bool)
    requires On(d)
    modifies d.fs`disk, d.fs`winsect, d.fs`wflag, d.fs.win
    ensures ok || !d.fs.g.reliable
    ensures On(d) && Table(d) == old(Table(d)) && d.fs.Fat() == old(d.fs.Fat()) && (ok ==> InWindow(d))
    ensures ok ==> d.dptr % 512 + 32 <= 512 && d.fs.win[d.dptr % 512..d.dptr % 512 + 32] == Table(d)[Cur(d)]
    ensures old(CountOk(d.fs)) ==> CountOk(d.fs)
    ensures Only(d.fs.g, old(PlaceOf(d)), PlaceOf(d))
  {
    hide FatOf, Volume.View, TableOf, Placed, IsChain, Untouched, SameView, Geometry.DataFits, FreeCount, Entries;
    hide Own, Only;
    ghost var v, p := d.fs.View(), PlaceOf(d);
    EntryHere(d.fs.g, d.fs.Fat(), d.chain, v, d.dptr, d.clust, d.sect);
    var res := d.fs.MoveWindow(d.sect);
    SameTable(d.fs.g, d.fs.Fat(), d.chain, v, d.fs.View());
    EntryHere(d.fs.g, d.fs.Fat(), d.chain, d.fs.View(), d.dptr, d.clust, d.sect);
    SectorOwn(d);
    OnlyMoved(d, p);
    ok := res == Ok;
    if ok {
      WindowIs(d.fs);
    }
  }

  /** The sector of an entry is the directory's. */
  lemma SectorOwn(d: Dir)
    requires On(d)
    ensures Own(d.fs.g, d.chain, d.sect)
  {
    hide FatOf, Volume.View, TableOf, IsChain, Geometry.DataFits, Geometry.Index, Geometry.Within, Lba, Own;
    ChainClusters(d.fs.g, d.fs.Fat(), d.chain);
    LbaInside(d.fs.g, d.chain, d.dptr / 512);
  }

  lemma WindowIs(fs: Volume)
    requires fs.Valid() && fs.winsect < fs.g.nsect
    ensures fs.View()[fs.winsect] == fs.win[..]
  {
  }

  /** The view after the window of a data sector was changed. */
  lemma WindowSet(fs: Volume, v: seq<Sector>)
    requires fs.Valid() && fs.wflag && fs.g.database <= fs.winsect < fs.g.nsect && |v| == fs.g.nsect
    requires forall s :: 0 <= s < fs.g.nsect && s != fs.winsect ==> fs.disk[s] == v[s]
    ensures fs.View() == v[fs.winsect := fs.win[..]]
  {
  }

  /** The table after 32 bytes of the sector of an entry were set. */
  lemma TableSet(g: Geometry, fat: seq<nat>, cs: seq<nat>, v: seq<Sector>, dptr: nat, clust: nat, sect: nat, t: Sector)
    requires g.Wf() && g.DataFits() && |fat| == g.nFatent && IsChain(fat, cs) && |v| == g.nsect
      && Placed(g, cs, dptr, clust, sect)
    requires dptr % 512 + 32 <= 512 && sect < g.nsect
    requires forall k :: 0 <= k < 512 && !(dptr % 512 <= k < dptr % 512 + 32) ==> t[k] == v[sect][k]
    ensures dptr / 32 < |TableOf(g, cs, v)|
    ensures TableOf(g, cs, v[sect := t]) == TableOf(g, cs, v)[dptr / 32 := t[dptr % 512..dptr % 512 + 32]]
    ensures FatOf(g, v[sect := t]) == FatOf(g, v)
  {
    hide Geometry.DataFits, Geometry.Index, Geometry.Within, Geometry.PowerOfTwo, IsChain, FatOf;
    var w := v[sect := t];
    EntryHere(g, fat, cs, v, dptr, clust, sect);
    EntryHere(g, fat, cs, w, dptr, clust, sect);
    SameFatSectors(g, v, w);
    forall k: nat | k < Entries(g, |cs|) && k != dptr / 32 ensures EntryAt(g, cs, w, k) == EntryAt(g, cs, v, k) {
      OtherEntry(g, fat, cs, v, dptr, clust, sect, t, k);
    }
  }

  lemma OtherEntry(g: Geometry, fat: seq<nat>, cs: seq<nat>, v: seq<Sector>, dptr: nat, clust: nat, sect: nat,
    t: Sector, k: nat)
    requires g.Wf() && g.DataFits() && |fat| == g.nFatent && IsChain(fat, cs) && |v| == g.nsect
      && Placed(g, cs, dptr, clust, sect)
    requires dptr % 512 + 32 <= 512 && sect < g.nsect && k < Entries(g, |cs|) && k != dptr / 32
    requires forall k :: 0 <= k < 512 && !(dptr % 512 <= k < dptr % 512 + 32) ==> t[k] == v[sect][k]
    ensures EntryAt(g, cs, v[sect := t], k) == EntryAt(g, cs, v, k)
  {
    hide Geometry.DataFits, Geometry.Index, Geometry.Within, Geometry.PowerOfTwo, Lba;
    ChainClusters(g, fat, cs);
    EntryInside(g, |cs|, k);
    LbaInside(g, cs, k / 16);
    Places(dptr);
    if Lba(g, cs, k / 16) == sect {
      DistinctChain(fat, cs);
      LbaInjective(g, cs, k / 16, dptr / 512);
      hide IsChain;
      var o := 32 * (k % 16);
      assert o + 32 <= dptr % 512 || dptr % 512 + 32 <= o;
      assert v[sect := t][sect][o..o + 32] == v[sect][o..o + 32];
    }
  }

  // ---------------------------------------------------------------- the next entry

  /** `dir_next`, by what it does to the table. */
  method Next(d: Dir, stretch: bool) returns (res: DirResult)
    requires On(d)
    modifies d, d.fs, d.fs.win
    ensures (res == DeviceError ==> !d.fs.g.reliable) && (res == Damage ==> stretch && Damaged(old(d.fs.Fat())))
    ensures res != DeviceError ==> Good(d) && (old(CountOk(d.fs)) ==> CountOk(d.fs))
    ensures res != DeviceError && Damaged(d.fs.Fat()) ==> Damaged(old(d.fs.Fat()))
    ensures res != DeviceError ==> Only(d.fs.g, old(PlaceOf(d)), PlaceOf(d))
    ensures res == Moved ==> On(d) && Cur(d) == old(Cur(d)) + 1
    ensures res == Moved && Cur(d) < |old(Table(d))| ==> Table(d) == old(Table(d)) && d.fs.Fat() == old(d.fs.Fat())
    ensures res == Moved && Cur(d) >= |old(Table(d))| ==>
              stretch && D.Extends(old(Table(d)), Table(d)) && Cur(d) == |old(Table(d))|
              && |Table(d)| == |old(Table(d))| + d.fs.g.csize * 16
    ensures res != Moved && res != DeviceError ==>
              Table(d) == old(Table(d)) && d.fs.Fat() == old(d.fs.Fat()) && Cur(d) == old(Cur(d))
                && Cur(d) + 1 == |Table(d)|
    ensures res == EndOfTable && stretch ==> |Table(d)| == D.MAX_ENTRIES
    ensures res == NoRoom ==> stretch && (old(CountOk(d.fs)) ==> FreeCount(old(d.fs.Fat())) == 0)
  {
    hide FatOf, Volume.View, TableOf, IsChain, Untouched, Geometry.DataFits, Geometry.Index, FreeCount, Entries,
      Grown, StretchedBy;
    hide Damaged, Lba, Own, Only;
    ghost var p := PlaceOf(d);
    ghost var g, fat, cs, v, dptr, clust, sect := d.fs.g, d.fs.Fat(), d.chain, d.fs.View(), d.dptr, d.clust, d.sect;
    EntryHere(g, fat, cs, v, dptr, clust, sect);
    NextInside(g, cs, dptr);
    res := d.DirNext(stretch);
    if res == DeviceError {
      return;
    }
    if d.chain == cs {
      SameTable(g, fat, cs, v, d.fs.View());
      OnlyMoved(d, p);
    } else {
      DamageIsOld(fat, cs, d.fs.Fat(), d.chain);
      TableStretched(g, fat, cs, d.fs.Fat(), v, d.fs.View(), d.clust);
      LongEnough(g, |cs|, dptr);
      OnlyStretched(d, p, d.clust);
    }
    if res == Moved {
      EntryHere(g, d.fs.Fat(), d.chain, d.fs.View(), d.dptr, d.clust, d.sect);
    }
  }

  /** Whether the next entry is in the table is whether its sector is in the chain. */
  lemma NextInside(g: Geometry, cs: seq<nat>, dptr: nat)
    requires g.csize > 0 && dptr % 32 == 0
    ensures InFile(g, cs, (dptr + 32) / 512) <==> (dptr + 32) / 32 < Entries(g, |cs|)
    ensures (dptr + 32) / 32 == dptr / 32 + 1
  {
    Places(dptr + 32);
    EntryInside(g, |cs|, (dptr + 32) / 32);
  }

  /** A table that ends in front of the greatest length is at least a cluster shorter than that. */
  lemma LongEnough(g: Geometry, n: nat, dptr: nat)
    requires g.Wf() && Entries(g, n) == dptr / 32 + 1 && dptr % 32 == 0 && dptr + 32 < MAX_DIR
    ensures Entries(g, n + 1) == Entries(g, n) + g.csize * 16 <= D.MAX_ENTRIES
  {
    EntriesMore(g, n);
    var per := g.csize * 16;
    assert Entries(g, n) == per * n;
    Division.Unique(per, n, 0);
    PerDivides(g.csize);
    Division.Multiples(per * n, D.MAX_ENTRIES, per);
  }

  lemma PerDivides(csize: nat)
    requires csize in {1, 2, 4, 8, 16, 32, 64, 128}
    ensures D.MAX_ENTRIES % (csize * 16) == 0
  {
  }

  // ---------------------------------------------------------------- finding

  datatype Outcome = Done | NoFile | Refused | BadName | Broken | Failed

  /** `dir_sdi` to entry `k`. */
  method Goto(d: Dir, k: nat) returns (ok: bool)
    requires Good(d) && k < |Table(d)|
    modifies d`dptr, d`clust, d`sect, d.fs`disk, d.fs`winsect, d.fs`wflag, d.fs.win
    ensures ok || !d.fs.g.reliable
    ensures Good(d) && Table(d) == old(Table(d)) && d.fs.Fat() == old(d.fs.Fat())
      && (old(CountOk(d.fs)) ==> CountOk(d.fs))
    ensures ok ==> On(d) && Cur(d) == k
    ensures Only(d.fs.g, old(PlaceOf(d)), PlaceOf(d))
  {
    hide FatOf, Volume.View, TableOf, IsChain, Untouched, Geometry.DataFits, Geometry.Index, FreeCount, Entries, Lba;
    hide Own, Only;
    ghost var p := PlaceOf(d);
    ghost var g, fat, cs, v := d.fs.g, d.fs.Fat(), d.chain, d.fs.View();
    Places(32 * k);
    EntryInside(g, |cs|, k);
    var res := d.DirSdi(32 * k);
    SameTable(g, fat, cs, v, d.fs.View());
    OnlyMoved(d, p);
    ok := res == Moved;
    if ok {
      EntryHere(g, d.fs.Fat(), d.chain, d.fs.View(), d.dptr, d.clust, d.sect);
    }
  }

  lemma HasChain(d: Dir)
    requires Good(d)
    ensures ChainOrNone(PlaceOf(d).fat, PlaceOf(d).chain) && Only(d.fs.g, PlaceOf(d), PlaceOf(d))
  {
    OnlyRefl(d);
  }

  lemma NotEmpty(d: Dir)
    requires Good(d)
    ensures |Table(d)| > 0
  {
    hide FatOf, Volume.View, Geometry.DataFits, Geometry.Within, Geometry.PowerOfTwo;
    IndexZero(d.fs.g);
    EntryInside(d.fs.g, |d.chain|, 0);
  }

  /** `dir_find`: the object comes to the entry of the name, with `blk` at the slots in front of it. */
  method DirFind(d: Dir, q: D.Query) returns (res: Outcome, blk: int)
    requires Good(d) && D.QueryOk(q)
    modifies d, d.fs, d.fs.win
    ensures (res == Done || res == NoFile || res == Failed) && (res == Failed ==> !d.fs.g.reliable)
    ensures res != Failed ==> Good(d) && Table(d) == old(Table(d)) && d.fs.Fat() == old(d.fs.Fat())
    ensures res != Failed ==> (old(CountOk(d.fs)) ==> CountOk(d.fs))
    ensures res != Failed ==> Only(d.fs.g, old(PlaceOf(d)), PlaceOf(d))
    ensures res == NoFile ==> D.Find(Table(d), 0, D.NONE, q) == D.Nowhere
    ensures res == Done ==> On(d) && D.Find(Table(d), 0, D.NONE, q) == D.Found.At(Cur(d), blk)
    ensures res == NoFile ==> DirSearch.NoneNamed(Table(d), q)
    ensures res == Done ==> DirSearch.FirstNamed(Table(d), Cur(d), blk, q)
  {
    hide DirSearch.NoneNamed, DirSearch.FirstNamed;
    hide FatOf, Volume.View, TableOf, Dir.There, D.Pass, D.Hit, D.QueryOk, FreeCount, CountOk, D.Extends, Damaged;
    hide IsChain, Geometry.DataFits, Entries, Only, PlaceOf, ChainOrNone;
    ghost var g, p := d.fs.g, PlaceOf(d);
    HasChain(d);
    NotEmpty(d);
    ghost var table, fat := Table(d), d.fs.Fat();
    DirSearch.FindExact(table, q);
    blk := -1;
    var ok := Goto(d, 0);
    if !ok {
      return Failed, blk;
    }
    var st := D.NONE;
    while true
      invariant On(d) && Table(d) == table && d.fs.Fat() == fat && (old(CountOk(d.fs)) ==> CountOk(d.fs))
      invariant Only(g, p, PlaceOf(d))
      invariant D.Find(table, 0, D.NONE, q) == D.Find(table, Cur(d), st, q)
      decreases |table| - Cur(d)
    {
      ghost var p1 := PlaceOf(d);
      var look;
      look, st := Look(d, q, st);
      if look == Unread {
        return Failed, blk;
      }
      OnlyTrans(g, p, p1, PlaceOf(d));
      if look == Ended {
        return NoFile, blk;
      }
      if look == Met {
        return Done, st.blk;
      }
      ghost var p2 := PlaceOf(d);
      var moved := Next(d, false);
      if moved == DeviceError {
        return Failed, blk;
      }
      OnlyTrans(g, p, p2, PlaceOf(d));
      if moved != Moved {
        FindEnd(table, st, q);
        return NoFile, blk;
      }
    }
  }

  lemma FindEnd(table: seq<Entry>, st: D.Progress, q: D.Query)
    requires D.QueryOk(q)
    ensures D.Find(table, |table|, st, q) == D.Nowhere
  {
  }

  /** What a look at an entry shows: nothing, for a device failure, the end mark, the name, or another entry. */
  datatype Glance = Unread | Ended | Met | Other

  /** A round of `dir_find`: the entry at hand, and the progress with the name after it. */
  method Look(d: Dir, q: D.Query, st: D.Progress) returns (look: Glance, st': D.Progress)
    requires On(d) && D.QueryOk(q)
    modifies d.fs`disk, d.fs`winsect, d.fs`wflag, d.fs.win
    ensures look != Unread || !d.fs.g.reliable
    ensures On(d) && Table(d) == old(Table(d)) && d.fs.Fat() == old(d.fs.Fat()) && Cur(d) < |Table(d)|
      && (old(CountOk(d.fs)) ==> CountOk(d.fs))
    ensures Only(d.fs.g, old(PlaceOf(d)), PlaceOf(d))
    ensures look == Ended ==> D.Find(Table(d), Cur(d), st, q) == D.Nowhere
    ensures look == Met ==> st' == st && D.Find(Table(d), Cur(d), st, q) == D.Found.At(Cur(d), st.blk)
    ensures look == Other ==> D.Find(Table(d), Cur(d), st, q) == D.Find(Table(d), Cur(d) + 1, st', q)
  {
    hide FatOf, Volume.View, TableOf, Dir.There, D.Pass, D.Hit, D.QueryOk, FreeCount, CountOk, Damaged;
    hide IsChain, Geometry.DataFits, Entries, Only, PlaceOf, ChainOrNone;
    st' := st;
    var ok := Bring(d);
    if !ok {
      return Unread, st';
    }
    var o := d.dptr % 512;
    var e: Entry := d.fs.win[o..o + 32];
    if e[0] == 0 {
      return Ended, st';
    }
    var hit;
    hit, st' := D.Examine(e, d.dptr / 32, st, q);
    look := if hit then Met else Other;
  }

  // ---------------------------------------------------------------- reserving entries

  /** `dir_alloc`: the first run of `nent` free entries, with new clusters if there is none; the object comes to its
      last one. */
  method DirAlloc(d: Dir, nent: nat) returns (res: Outcome)
    requires Good(d) && nent > 0
    modifies d, d.fs, d.fs.win
    ensures (res == Done || res == Refused || res == Broken || res == Failed) && (res == Failed ==> !d.fs.g.reliable)
    ensures res != Failed ==> Good(d) && D.Extends(old(Table(d)), Table(d)) && (old(CountOk(d.fs)) ==> CountOk(d.fs))
    ensures res != Failed ==> Only(d.fs.g, old(PlaceOf(d)), PlaceOf(d))
    ensures res == Broken ==> Damaged(old(d.fs.Fat()))
    ensures res == Done ==> On(d) && Cur(d) + 1 >= nent && Free(Table(d), nent, Cur(d))
    ensures res == Refused ==> D.NoRun(Table(d), nent, |Table(d)|)
    ensures res == Refused ==> |Table(d)| == 0x1_0000 || (old(CountOk(d.fs)) ==> FreeCount(d.fs.Fat()) == 0)
    ensures res == Done ==>
      forall i :: Cur(d) + 1 - nent <= i <= Cur(d) ==> Table(d)[i][0] == 0 || Table(d)[i][0] == 0xE5
  {
    hide FatOf, Volume.View, TableOf, IsChain, Geometry.DataFits, Entries, FreeCount, CountOk, Damaged, Dir.There;
    hide D.Run, D.NoRun, D.Begins, D.Extends, D.IsFree, Only, PlaceOf, ChainOrNone;
    ghost var g, p := d.fs.g, PlaceOf(d);
    HasChain(d);
    ghost var table, fat, count := Table(d), d.fs.Fat(), CountOk(d.fs);
    NotEmpty(d);
    D.StillExtends(table);
    D.RunNone(table, nent);
    var ok := Goto(d, 0);
    if !ok {
      return Failed;
    }
    var n := 0;
    while true
      invariant On(d) && n < nent && n <= Cur(d) && D.Extends(table, Table(d)) && (count ==> CountOk(d.fs))
      invariant Only(g, p, PlaceOf(d))
      invariant Damaged(d.fs.Fat()) ==> Damaged(fat)
      invariant D.Run(Table(d), Cur(d) - n, n) && D.Begins(Table(d), Cur(d) - n) && D.NoRun(Table(d), nent, Cur(d))
      decreases D.MAX_ENTRIES - Cur(d)
    {
      var free;
      ghost var p1 := PlaceOf(d);
      ok, free := SeeFree(d, nent, n);
      if !ok {
        return Failed;
      }
      OnlyTrans(g, p, p1, PlaceOf(d));
      n := if free then n + 1 else 0;
      if n == nent {
        FreeAre(Table(d), nent, Cur(d));
        return Done;
      }
      ghost var p2 := PlaceOf(d);
      var moved := Onward(d, nent, n, table);
      if moved == DeviceError {
        return Failed;
      }
      OnlyTrans(g, p, p2, PlaceOf(d));
      if moved == Damage {
        return Broken;
      }
      if moved != Moved {
        return Refused;
      }
    }
  }

  lemma FreeAre(table: seq<Entry>, n: nat, k: nat)
    requires Free(table, n, k) && n > 0
    ensures k < |table|
    ensures forall i :: k + 1 - n <= i <= k ==> table[i][0] == 0 || table[i][0] == 0xE5
  {
  }

  /** The `n` entries up to `k` are the first run of so many free entries. */
  ghost predicate Free(table: seq<Entry>, n: nat, k: nat) {
    k + 1 >= n && D.Run(table, k + 1 - n, n) && D.Begins(table, k + 1 - n) && D.NoRun(table, n, k)
  }

  /** Whether the entry at hand is free, and what that makes of the run of `n` free entries in front of it. */
  method SeeFree(d: Dir, ghost nent: nat, n: nat) returns (ok: bool, free: bool)
    requires On(d) && n < nent && n <= Cur(d)
    requires D.Run(Table(d), Cur(d) - n, n) && D.Begins(Table(d), Cur(d) - n) && D.NoRun(Table(d), nent, Cur(d))
    modifies d.fs`disk, d.fs`winsect, d.fs`wflag, d.fs.win
    ensures ok || !d.fs.g.reliable
    ensures On(d) && Table(d) == old(Table(d)) && d.fs.Fat() == old(d.fs.Fat())
      && (old(CountOk(d.fs)) ==> CountOk(d.fs))
    ensures Only(d.fs.g, old(PlaceOf(d)), PlaceOf(d))
    ensures ok && free ==>
      D.Run(Table(d), Cur(d) - n, n + 1) && D.Begins(Table(d), Cur(d) - n) && D.NoRun(Table(d), nent, Cur(d))
    ensures ok && (!free || n + 1 < nent) ==> D.NoRun(Table(d), nent, Cur(d) + 1)
    ensures ok && !free ==> D.Run(Table(d), Cur(d) + 1, 0) && D.Begins(Table(d), Cur(d) + 1)
  {
    hide FatOf, Volume.View, TableOf, IsChain, Geometry.DataFits, Entries, FreeCount, CountOk, Dir.There;
    hide D.Run, D.NoRun, D.Begins, Only, PlaceOf;
    D.RunStep(Table(d), nent, Cur(d), n);
    ok := Bring(d);
    free := false;
    if ok {
      var o := d.dptr % 512;
      var e: Entry := d.fs.win[o..o + 32];
      free := e[0] == D.DDEM || e[0] == 0;
    }
  }

  /** `dir_next` with stretching, past a run of `n` free entries. */
  method Onward(d: Dir, ghost nent: nat, ghost n: nat, ghost table: seq<Entry>) returns (res: DirResult)
    requires On(d) && n < nent && n <= Cur(d) + 1 && D.Extends(table, Table(d))
    requires D.Run(Table(d), Cur(d) + 1 - n, n) && D.Begins(Table(d), Cur(d) + 1 - n)
      && D.NoRun(Table(d), nent, Cur(d) + 1)
    modifies d, d.fs, d.fs.win
    ensures (res == DeviceError ==> !d.fs.g.reliable) && (res == Damage ==> Damaged(old(d.fs.Fat())))
    ensures res != DeviceError ==> Good(d) && (old(CountOk(d.fs)) ==> CountOk(d.fs)) && D.Extends(table, Table(d))
    ensures res != DeviceError && Damaged(d.fs.Fat()) ==> Damaged(old(d.fs.Fat()))
    ensures res != DeviceError ==> Only(d.fs.g, old(PlaceOf(d)), PlaceOf(d))
    ensures res == Moved ==> On(d) && Cur(d) == old(Cur(d)) + 1
    ensures res == Moved ==>
              D.Run(Table(d), Cur(d) - n, n) && D.Begins(Table(d), Cur(d) - n) && D.NoRun(Table(d), nent, Cur(d))
    ensures res == EndOfTable || res == NoRoom ==>
              && D.NoRun(Table(d), nent, |Table(d)|)
              && (|Table(d)| == D.MAX_ENTRIES || (old(CountOk(d.fs)) ==> FreeCount(d.fs.Fat()) == 0))
  {
    hide FatOf, Volume.View, TableOf, IsChain, Geometry.DataFits, Entries, FreeCount, CountOk, Damaged, Dir.There;
    hide D.Run, D.NoRun, D.Begins, D.Extends, Only, PlaceOf;
    ghost var was, k := Table(d), Cur(d);
    res := Next(d, true);
    if res != DeviceError {
      D.StillExtends(was);
      D.ExtendsTrans(table, was, Table(d));
      D.RunsKept(was, Table(d), nent, k + 1, k + 1 - n, n);
    }
  }

  // ---------------------------------------------------------------- storing entries

  /** The table after the entry in the window was changed. */
  lemma Stored(d: Dir, fat: seq<nat>, v: seq<Sector>, table: seq<Entry>)
    requires d.fs.Valid() && d.fs.g.DataFits() && d.fs.wflag && InWindow(d) && d.sect != 0
    requires d.sect < d.fs.g.nsect && d.dptr % 512 + 32 <= 512
    requires |fat| == d.fs.g.nFatent && IsChain(fat, d.chain) && d.chain[0] == d.first
    requires |v| == d.fs.g.nsect && fat == FatOf(d.fs.g, v) && Placed(d.fs.g, d.chain, d.dptr, d.clust, d.sect)
    requires forall s :: 0 <= s < d.fs.g.nsect && s != d.sect ==> d.fs.disk[s] == v[s]
    requires forall k :: 0 <= k < 512 && !(d.dptr % 512 <= k < d.dptr % 512 + 32) ==> d.fs.win[k] == v[d.sect][k]
    requires Entries(d.fs.g, |d.chain|) <= D.MAX_ENTRIES && table == TableOf(d.fs.g, d.chain, v)
    ensures On(d) && Cur(d) < |table| && d.fs.Fat() == fat
    ensures OnlyOwn(d.fs.g, d.chain, v, d.fs.View())
    ensures Table(d) == table[Cur(d) := d.fs.win[d.dptr % 512..d.dptr % 512 + 32]]
  {
    hide FatOf, Volume.View, TableOf, Placed, IsChain, Geometry.DataFits, Entries, Own, OnlyOwn;
    EntryHere(d.fs.g, fat, d.chain, v, d.dptr, d.clust, d.sect);
    WindowSet(d.fs, v);
    TableSet(d.fs.g, fat, d.chain, v, d.dptr, d.clust, d.sect, d.fs.win[..]);
    SectorOwn(d);
    I.OneSector(d.fs.g, d.chain, v, d.sect, d.fs.win[..]);
  }

  /** The device and the window before the entry is changed. */
  lemma Before(d: Dir)
    requires On(d) && InWindow(d)
    ensures d.sect < d.fs.g.nsect && d.dptr % 512 + 32 <= 512 && d.fs.View()[d.sect] == d.fs.win[..]
    ensures forall s :: 0 <= s < d.fs.g.nsect && s != d.sect ==> d.fs.disk[s] == d.fs.View()[s]
  {
    hide FatOf, TableOf, Placed, IsChain, Geometry.DataFits, Entries;
    EntryHere(d.fs.g, d.fs.Fat(), d.chain, d.fs.View(), d.dptr, d.clust, d.sect);
  }

  lemma OnlyStored(d: Dir, p: I.Place)
    requires d.Ready() && p.fat == d.fs.Fat() && p.chain == d.chain && p.window == d.fs.winsect
    requires OnlyOwn(d.fs.g, d.chain, p.view, d.fs.View())
    ensures Only(d.fs.g, p, PlaceOf(d))
  {
    GrownRefl(d.fs.Fat(), d.chain);
    hide OnlyOwn, Own;
  }

  /** `put_lfn` into the entry in the window. */
  method PutSlot(d: Dir, buf: seq<nat>, ord: nat, sum: byte, ghost name: seq<nat>)
    requires On(d) && InWindow(d) && Holds(buf, name) && IsName(name) && 1 <= ord <= SlotCount(|name|)
    modifies d.fs`wflag, d.fs.win
    ensures On(d) && d.fs.Fat() == old(d.fs.Fat()) && (old(CountOk(d.fs)) ==> CountOk(d.fs))
    ensures Only(d.fs.g, old(PlaceOf(d)), PlaceOf(d))
    ensures IsSlot(Table(d)[Cur(d)], name, ord, sum) && Table(d) == old(Table(d))[Cur(d) := Table(d)[Cur(d)]]
  {
    hide FatOf, Volume.View, TableOf, Placed, IsChain, Geometry.DataFits, Entries, FreeCount, IsSlot, Holds, IsName;
    hide Only, OnlyOwn;
    ghost var p := PlaceOf(d);
    Before(d);
    ghost var fat, v, table := d.fs.Fat(), d.fs.View(), Table(d);
    PutLfn(buf, d.fs.win, d.dptr % 512, ord, sum, name);
    d.fs.wflag := true;
    Stored(d, fat, v, table);
    OnlyStored(d, p);
  }

  /** The short entry of a new file into the entry in the window. */
  method PutShort(d: Dir, fn: seq<byte>, nt: byte)
    requires On(d) && InWindow(d) && |fn| == 11
    modifies d.fs`wflag, d.fs.win
    ensures On(d) && d.fs.Fat() == old(d.fs.Fat()) && (old(CountOk(d.fs)) ==> CountOk(d.fs))
    ensures Only(d.fs.g, old(PlaceOf(d)), PlaceOf(d))
    ensures Table(d) == old(Table(d))[Cur(d) := D.ShortEntry(fn, nt)]
  {
    hide FatOf, Volume.View, TableOf, Placed, IsChain, Geometry.DataFits, Entries, FreeCount;
    hide Only, OnlyOwn;
    ghost var p := PlaceOf(d);
    Before(d);
    ghost var fat, v, table := d.fs.Fat(), d.fs.View(), Table(d);
    var o := d.dptr % 512;
    var e := fn + [0, nt] + seq(19, _ => 0);
    D.ShortEntryIs(fn, nt);
    CopyIn(d.fs.win, o, e, 0, 32);
    assert d.fs.win[o..o + 32] == e;
    d.fs.wflag := true;
    Stored(d, fat, v, table);
    OnlyStored(d, p);
  }

  /** The entry in the window marked deleted. */
  method Mark(d: Dir)
    requires On(d) && InWindow(d)
    modifies d.fs`wflag, d.fs.win
    ensures On(d) && d.fs.Fat() == old(d.fs.Fat()) && (old(CountOk(d.fs)) ==> CountOk(d.fs))
    ensures Only(d.fs.g, old(PlaceOf(d)), PlaceOf(d))
    ensures Table(d) == old(Table(d))[Cur(d) := old(Table(d))[Cur(d)][0 := D.DDEM]]
  {
    hide FatOf, Volume.View, TableOf, Placed, IsChain, Geometry.DataFits, Entries, FreeCount;
    hide Only, OnlyOwn;
    ghost var p := PlaceOf(d);
    Before(d);
    EntryHere(d.fs.g, d.fs.Fat(), d.chain, d.fs.View(), d.dptr, d.clust, d.sect);
    ghost var fat, v, table := d.fs.Fat(), d.fs.View(), Table(d);
    var o := d.dptr % 512;
    ghost var w: Sector := d.fs.win[..];
    d.fs.win[o] := D.DDEM;
    assert d.fs.win[o..o + 32] == w[o..o + 32][0 := D.DDEM];
    d.fs.wflag := true;
    Stored(d, fat, v, table);
    OnlyStored(d, p);
  }

  /** The entry at the cursor brought into the window and marked deleted. */
  method MarkHere(d: Dir) returns (ok: bool)
    requires On(d)
    modifies d.fs`disk, d.fs`winsect, d.fs`wflag, d.fs.win
    ensures ok || !d.fs.g.reliable
    ensures On(d) && d.fs.Fat() == old(d.fs.Fat()) && (old(CountOk(d.fs)) ==> CountOk(d.fs))
    ensures Only(d.fs.g, old(PlaceOf(d)), PlaceOf(d))
    ensures ok ==> Table(d) == old(Table(d))[Cur(d) := old(Table(d))[Cur(d)][0 := D.DDEM]]
  {
    hide FatOf, Volume.View, TableOf, Placed, IsChain, ChainOrNone, Geometry.DataFits, Entries, FreeCount, Only,
      PlaceOf;
    HasChain(d);
    ghost var p := PlaceOf(d);
    ok := Bring(d);
    if ok {
      ghost var p1 := PlaceOf(d);
      Mark(d);
      OnlyTrans(d.fs.g, p, p1, PlaceOf(d));
    }
  }

  // ---------------------------------------------------------------- registering

  /** The numbered names that `dir_register` tries for a name that is no short name. */
  method TryNumbers(d: Dir, sn: seq<byte>, buf: seq<nat>, name: seq<nat>, up: nat -> nat)
      returns (res: Outcome, fn: seq<byte>, ghost n: nat)
    requires Good(d) && |sn| == 11 && |buf| == MAX_LFN + 1
    modifies d, d.fs, d.fs.win
    ensures |fn| == 11 && (res == NoFile || res == Refused || res == Failed) && (res == Failed ==> !d.fs.g.reliable)
    ensures res != Failed ==> Good(d) && Table(d) == old(Table(d)) && d.fs.Fat() == old(d.fs.Fat())
    ensures res != Failed ==> (old(CountOk(d.fs)) ==> CountOk(d.fs))
    ensures res != Failed ==> Only(d.fs.g, old(PlaceOf(d)), PlaceOf(d))
    ensures res == NoFile ==>
              && 1 <= n < 100 && fn == Numbered(sn, Number(n, name))
              && D.Find(Table(d), 0, D.NONE, D.Query(fn, false, true, buf, up)) == D.Nowhere
    ensures res == NoFile || res == Refused ==>
              forall k :: 1 <= k < (if res == NoFile then n else 100) ==>
                D.Taken(Table(d), D.Query(Numbered(sn, Number(k, name)), false, true, buf, up))
  {
    hide FatOf, Volume.View, TableOf, IsChain, Geometry.DataFits, Entries, CountOk, Numbered, Number, D.Find;
    hide Only, PlaceOf, ChainOrNone;
    ghost var g, p := d.fs.g, PlaceOf(d);
    HasChain(d);
    ghost var table, fat := Table(d), d.fs.Fat();
    fn, n := sn, 1;
    for i := 1 to 100
      invariant Good(d) && Table(d) == table && d.fs.Fat() == fat && (old(CountOk(d.fs)) ==> CountOk(d.fs))
      invariant Only(g, p, PlaceOf(d))
      invariant |fn| == 11 && n == i
      invariant forall k :: 1 <= k < i ==> D.Taken(table, D.Query(Numbered(sn, Number(k, name)), false, true, buf, up))
    {
      fn := GenNumname(sn, name, i);
      var blk;
      ghost var p1 := PlaceOf(d);
      res, blk := DirFind(d, D.Query(fn, false, true, buf, up));
      if res == Failed {
        return;
      }
      OnlyTrans(g, p, p1, PlaceOf(d));
      if res != Done {
        return;
      }
      n := i + 1;
    }
    res := Refused;
  }

  /** The long-name slots of `dir_register`, the last part of the name first; the object comes to the place of the short
      entry. */
  method PutSlots(d: Dir, buf: seq<nat>, fn: seq<byte>, ghost name: seq<nat>, m: nat) returns (ok: bool)
    requires On(d) && Holds(buf, name) && IsName(name) && |fn| == 11 && m == SlotCount(|name|)
      && Cur(d) + m < |Table(d)|
    modifies d, d.fs, d.fs.win
    ensures ok || !d.fs.g.reliable
    ensures ok ==>
      On(d) && Cur(d) == old(Cur(d)) + m && d.fs.Fat() == old(d.fs.Fat()) && (old(CountOk(d.fs)) ==> CountOk(d.fs))
    ensures ok ==> Only(d.fs.g, old(PlaceOf(d)), PlaceOf(d))
    ensures ok ==> Slots(old(Table(d)), Table(d), old(Cur(d)), m, m, name, Sum(0, fn))
  {
    hide FatOf, Volume.View, TableOf, IsChain, Geometry.DataFits, Entries, CountOk, Damaged, Dir.There, FreeCount;
    hide IsSlot, Sum, D.Extends, Holds, IsName, Slots, Only, PlaceOf, ChainOrNone;
    ghost var g, p := d.fs.g, PlaceOf(d);
    HasChain(d);
    var sum := SumSfn(fn);
    assert fn[..11] == fn;
    ghost var s, table, fat := Cur(d), Table(d), d.fs.Fat();
    var nent := m;
    SlotsNone(table, s, m, name, Sum(0, fn));
    while nent > 0
      invariant On(d) && 0 <= nent <= m && Cur(d) == s + (m - nent) && d.fs.Fat() == fat
        && (old(CountOk(d.fs)) ==> CountOk(d.fs))
      invariant Only(g, p, PlaceOf(d))
      invariant |Table(d)| == |table| && Slots(table, Table(d), s, m - nent, m, name, Sum(0, fn))
    {
      ghost var p1 := PlaceOf(d);
      ok := Bring(d);
      if !ok {
        return;
      }
      OnlyTrans(g, p, p1, PlaceOf(d));
      ghost var was, p2 := Table(d), PlaceOf(d);
      PutSlot(d, buf, nent, sum, name);
      OnlyTrans(g, p, p2, PlaceOf(d));
      ghost var p3 := PlaceOf(d);
      SlotsMore(table, was, Table(d), s, m - nent, m, name, Sum(0, fn));
      var moved := Next(d, false);
      if moved != Moved {
        return false;
      }
      OnlyTrans(g, p, p3, PlaceOf(d));
      nent := nent - 1;
    }
    ok := true;
  }

  /** The first `k` of `m` slots of a name stand from place `s` on; nothing else differs. */
  ghost predicate Slots(table: seq<Entry>, now: seq<Entry>, s: nat, k: nat, m: nat, name: seq<nat>, sum: byte) {
    && |now| == |table| && k <= m && s + k <= |table|
    && (forall i :: 0 <= i < |table| && !(s <= i < s + k) ==> now[i] == table[i])
    && (forall i :: s <= i < s + k ==> IsSlot(now[i], name, m - (i - s), sum))
  }

  lemma SlotsNone(table: seq<Entry>, s: nat, m: nat, name: seq<nat>, sum: byte)
    requires s <= |table|
    ensures Slots(table, table, s, 0, m, name, sum)
  {
  }

  lemma SlotsMore(table: seq<Entry>, was: seq<Entry>, now: seq<Entry>, s: nat, k: nat, m: nat, name: seq<nat>,
    sum: byte)
    requires Slots(table, was, s, k, m, name, sum) && k < m && s + k < |was| && |now| == |was|
    requires now == was[s + k := now[s + k]] && IsSlot(now[s + k], name, m - k, sum)
    ensures Slots(table, now, s, k + 1, m, name, sum)
  {
    hide IsSlot;
  }

  /** What `dir_register` answers and leaves behind: `more` is the table with the clusters it got, `s` the place of the
      first of `m` slots. */
  ghost predicate RegisterSpec(d: Dir, table: seq<Entry>, more: seq<Entry>, res: Outcome, sn: seq<byte>,
    fn: seq<byte>, lossy: bool, s: nat, m: nat, nt: byte, buf: seq<nat>, name: seq<nat>, up: nat -> nat, count: bool)
    requires Good(d) && |sn| == |fn| == 11 && |buf| == MAX_LFN + 1
    reads d, d.fs, d.fs.win
  {
    && D.Extends(table, more) && (count ==> CountOk(d.fs)) && (res != Done ==> Table(d) == more)
    && (lossy && (res == Done || res == Broken) ==> Numbering(table, sn, fn, buf, name, up))
    && (!lossy ==> fn == sn)
    && (res == Done ==> On(d) && Cur(d) == s + m && D.Placed(more, Table(d), s, m, name, fn, nt))
    && (res == Refused ==>
          || (lossy && forall k :: 1 <= k < 100 ==>
            D.Taken(table, D.Query(Numbered(sn, Number(k, name)), false, true, buf, up)))
          || (D.NoRun(more, m + 1, |more|) && (|more| == 0x1_0000 || (count ==> FreeCount(d.fs.Fat()) == 0))))
  }

  /** A numbered name that no entry has. */
  ghost predicate Numbering(table: seq<Entry>, sn: seq<byte>, fn: seq<byte>, buf: seq<nat>, name: seq<nat>,
    up: nat -> nat)
    requires |sn| == |fn| == 11 && |buf| == MAX_LFN + 1
  {
    && (exists n :: 1 <= n < 100 && fn == Numbered(sn, Number(n, name)))
    && D.Find(table, 0, D.NONE, D.Query(fn, false, true, buf, up)) == D.Nowhere
  }

  /** `dir_register`: `lossy`, `long` and `invalid` are the flags of the name, `nt` its case flags. */
  method DirRegister(d: Dir, sn: seq<byte>, lossy: bool, long: bool, invalid: bool, nt: byte, buf: seq<nat>,
                     ghost name: seq<nat>, up: nat -> nat)
      returns (res: Outcome, fn: seq<byte>, ghost s: nat, ghost m: nat, ghost more: seq<Entry>)
    requires Good(d) && |sn| == 11 && Holds(buf, name) && IsName(name)
    modifies d, d.fs, d.fs.win
    ensures |fn| == 11 && (res == BadName <==> invalid) && (res == Failed ==> !d.fs.g.reliable) && res != NoFile
    ensures m == (if long then SlotCount(|name|) else 0) && (res == Broken ==> Damaged(old(d.fs.Fat())))
    ensures res != Failed ==> Good(d) && Only(d.fs.g, old(PlaceOf(d)), PlaceOf(d))
    ensures res != Failed ==> (old(CountOk(d.fs)) ==> CountOk(d.fs))
    ensures res != Failed && res != BadName ==>
              RegisterSpec(d, old(Table(d)), more, res, sn, fn, lossy, s, m, nt, buf, name, up, old(CountOk(d.fs)))
  {
    hide *;
    BufferSize(buf, name);
    SlotsOf(|name|);
    GoodValid(d);
    ghost var p := PlaceOf(d);
    HasChain(d);
    ghost var table, count := Table(d), CountOk(d.fs);
    fn, s, more := sn, 0, table;
    m := if long then SlotCount(|name|) else 0;
    D.StillExtends(table);
    if invalid {
      return BadName, fn, s, m, more;
    }
    var nlen := D.Length(buf, name);
    if lossy {
      ghost var n;
      res, fn, n := TryNumbers(d, sn, buf, buf[..nlen], up);
      if res != Failed {
        GoodValid(d);
      }
      if res != NoFile {
        if res == Refused {
          SpecTaken(d, table, sn, fn, s, m, nt, buf, name, up, count);
        }
        return;
      }
      IsNumbering(table, sn, fn, n, buf, name, up);
    }
    var nent := if long then (nlen + 12) / 13 + 1 else 1;
    ghost var p1 := PlaceOf(d);
    res, s, more := Reserve(d, fn, nt, buf, nent, name);
    if res != Failed {
      GoodValid(d);
      OnlyTrans(d.fs.g, p, p1, PlaceOf(d));
      SpecReserved(d, table, more, res, sn, fn, lossy, s, m, nt, buf, name, up, count);
    }
  }

  lemma GoodValid(d: Dir)
    requires Good(d)
    ensures d.fs.Valid()
  {
  }

  lemma BufferSize(buf: seq<nat>, name: seq<nat>)
    requires Holds(buf, name)
    ensures |buf| == MAX_LFN + 1 && |name| <= MAX_LFN && |name| < |buf|
  {
  }

  lemma SlotsOf(n: nat)
    ensures SlotCount(n) == (n + 12) / 13
  {
  }

  lemma IsNumbering(table: seq<Entry>, sn: seq<byte>, fn: seq<byte>, n: nat, buf: seq<nat>, name: seq<nat>,
                    up: nat -> nat)
    requires |sn| == |fn| == 11 && |buf| == MAX_LFN + 1 && 1 <= n < 100 && fn == Numbered(sn, Number(n, name))
    requires D.Find(table, 0, D.NONE, D.Query(fn, false, true, buf, up)) == D.Nowhere
    ensures Numbering(table, sn, fn, buf, name, up)
  {
  }

  lemma SpecTaken(d: Dir, table: seq<Entry>, sn: seq<byte>, fn: seq<byte>, s: nat, m: nat, nt: byte, buf: seq<nat>,
                  name: seq<nat>, up: nat -> nat, count: bool)
    requires Good(d) && |sn| == |fn| == 11 && |buf| == MAX_LFN + 1 && Table(d) == table && (count ==> CountOk(d.fs))
    requires forall k :: 1 <= k < 100 ==>
               D.Taken(table, D.Query(Numbered(sn, Number(k, name)), false, true, buf, up))
    ensures RegisterSpec(d, table, table, Refused, sn, fn, true, s, m, nt, buf, name, up, count)
  {
    hide FatOf, Volume.View, TableOf, IsChain, Geometry.DataFits, Entries, CountOk, Dir.There, FreeCount, D.Placed;
    hide Numbered, Number, D.Taken, Numbering, D.NoRun, D.Extends;
    D.StillExtends(table);
  }

  lemma SpecReserved(d: Dir, table: seq<Entry>, more: seq<Entry>, res: Outcome, sn: seq<byte>, fn: seq<byte>,
                     lossy: bool, s: nat, m: nat, nt: byte, buf: seq<nat>, name: seq<nat>, up: nat -> nat, count: bool)
    requires Good(d) && |sn| == |fn| == 11 && |buf| == MAX_LFN + 1 && D.Extends(table, more)
    requires (count ==> CountOk(d.fs)) && (res == Done || Table(d) == more)
    requires if lossy then Numbering(table, sn, fn, buf, name, up) else fn == sn
    requires res == Done ==> On(d) && Cur(d) == s + m && D.Placed(more, Table(d), s, m, name, fn, nt)
    requires res == Refused ==>
               D.NoRun(more, m + 1, |more|) && (|more| == D.MAX_ENTRIES || (count ==> FreeCount(d.fs.Fat()) == 0))
    ensures RegisterSpec(d, table, more, res, sn, fn, lossy, s, m, nt, buf, name, up, count)
  {
    hide FatOf, Volume.View, TableOf, IsChain, Geometry.DataFits, Entries, CountOk, Dir.There, FreeCount, D.Placed;
    hide Numbering, D.NoRun, D.Extends;
  }

  /** The part of `dir_register` that gets room for the entries and puts them there. */
  method Reserve(d: Dir, fn: seq<byte>, nt: byte, buf: seq<nat>, nent: nat, ghost name: seq<nat>)
      returns (res: Outcome, ghost s: nat, ghost more: seq<Entry>)
    requires Good(d) && |fn| == 11 && Holds(buf, name) && IsName(name) && nent > 0
    requires nent > 1 ==> nent - 1 == SlotCount(|name|)
    modifies d, d.fs, d.fs.win
    ensures (res == Done || res == Refused || res == Broken || res == Failed) && (res == Failed ==> !d.fs.g.reliable)
    ensures res == Broken ==> Damaged(old(d.fs.Fat()))
    ensures res != Failed ==> Good(d) && D.Extends(old(Table(d)), more) && (old(CountOk(d.fs)) ==> CountOk(d.fs))
    ensures res != Failed ==> Only(d.fs.g, old(PlaceOf(d)), PlaceOf(d))
    ensures res == Refused || res == Broken ==> Table(d) == more
    ensures res == Done ==> On(d) && Cur(d) == s + nent - 1 && D.Placed(more, Table(d), s, nent - 1, name, fn, nt)
    ensures res == Refused ==> D.NoRun(more, nent, |more|)
    ensures res == Refused ==> |more| == D.MAX_ENTRIES || (old(CountOk(d.fs)) ==> FreeCount(d.fs.Fat()) == 0)
  {
    hide FatOf, Volume.View, TableOf, IsChain, Geometry.DataFits, Entries, CountOk, Damaged, Dir.There, FreeCount;
    hide D.Extends, D.NoRun, D.Placed, Free, IsName, Holds, SlotCount;
    hide Only, PlaceOf, ChainOrNone;
    ghost var p := PlaceOf(d);
    HasChain(d);
    s, more := 0, [];
    res := DirAlloc(d, nent);
    if res == Failed {
      return;
    }
    more := Table(d);
    if res != Done {
      return;
    }
    s := Cur(d) + 1 - nent;
    ghost var p1 := PlaceOf(d);
    var ok := Fill(d, fn, nt, buf, nent, s, name);
    if !ok {
      return Failed, s, more;
    }
    OnlyTrans(d.fs.g, p, p1, PlaceOf(d));
  }

  /** The entries of a name put into the run of free ones that was reserved for them. */
  method Fill(d: Dir, fn: seq<byte>, nt: byte, buf: seq<nat>, nent: nat, ghost s: nat, ghost name: seq<nat>)
    returns (ok: bool)
    requires On(d) && |fn| == 11 && Holds(buf, name) && IsName(name) && Free(Table(d), nent, Cur(d)) && nent > 0
    requires s == Cur(d) + 1 - nent && (nent > 1 ==> nent - 1 == SlotCount(|name|))
    modifies d, d.fs, d.fs.win
    ensures ok || !d.fs.g.reliable
    ensures ok ==>
      On(d) && Cur(d) == s + nent - 1 && d.fs.Fat() == old(d.fs.Fat()) && (old(CountOk(d.fs)) ==> CountOk(d.fs))
    ensures ok ==> Only(d.fs.g, old(PlaceOf(d)), PlaceOf(d))
    ensures ok ==> D.Placed(old(Table(d)), Table(d), s, nent - 1, name, fn, nt)
  {
    hide FatOf, Volume.View, TableOf, IsChain, Geometry.DataFits, Entries, CountOk, Damaged, Dir.There, FreeCount;
    hide D.Run, D.NoRun, D.Begins, D.Placed, Slots, Free, IsName, Holds, Sum, D.ShortEntry;
    hide Only, PlaceOf, ChainOrNone;
    ghost var g, p := d.fs.g, PlaceOf(d);
    HasChain(d);
    ghost var table := Table(d);
    FreeRun(table, nent, Cur(d));
    if nent > 1 {
      ok := Goto(d, d.dptr / 32 + 1 - nent);
      if !ok {
        return;
      }
      ghost var p1 := PlaceOf(d);
      ok := PutSlots(d, buf, fn, name, nent - 1);
      if !ok {
        return;
      }
      OnlyTrans(g, p, p1, PlaceOf(d));
    } else {
      SlotsNone(table, s, 0, name, Sum(0, fn));
    }
    ghost var p2 := PlaceOf(d);
    ok := Bring(d);
    if !ok {
      return;
    }
    OnlyTrans(g, p, p2, PlaceOf(d));
    ghost var was, p3 := Table(d), PlaceOf(d);
    PutShort(d, fn, nt);
    OnlyTrans(g, p, p3, PlaceOf(d));
    AllPlaced(table, was, Table(d), s, nent - 1, name, fn, nt);
  }

  lemma FreeRun(table: seq<Entry>, n: nat, k: nat)
    requires Free(table, n, k) && n > 0
    ensures k + 1 >= n && D.Run(table, k + 1 - n, n) && D.Begins(table, k + 1 - n) && k < |table|
  {
  }

  lemma AllPlaced(table: seq<Entry>, was: seq<Entry>, now: seq<Entry>, s: nat, m: nat, name: seq<nat>, fn: seq<byte>,
    nt: byte)
    requires |fn| == 11 && Slots(table, was, s, m, m, name, Sum(0, fn)) && s + m < |was|
    requires now == was[s + m := D.ShortEntry(fn, nt)] && D.Run(table, s, m + 1) && D.Begins(table, s)
    ensures D.Placed(table, now, s, m, name, fn, nt)
  {
    hide IsSlot, D.ShortEntry, D.IsFree;
  }

  // ---------------------------------------------------------------- removing

  /** `dir_remove`: the entry that the object is at, and the slots from `blk` on in front of it. */
  method DirRemove(d: Dir, blk: int) returns (ok: bool)
    requires On(d) && blk <= Cur(d)
    modifies d, d.fs, d.fs.win
    ensures ok || !d.fs.g.reliable
    ensures ok ==>
      On(d) && Cur(d) == old(Cur(d)) && d.fs.Fat() == old(d.fs.Fat()) && (old(CountOk(d.fs)) ==> CountOk(d.fs))
    ensures ok ==> Only(d.fs.g, old(PlaceOf(d)), PlaceOf(d))
    ensures ok ==> D.Deleted(old(Table(d)), Table(d), if blk < 0 then old(Cur(d)) else blk as nat, old(Cur(d)))
  {
    hide FatOf, Volume.View, TableOf, IsChain, Geometry.DataFits, Entries, CountOk, Damaged, Dir.There, FreeCount;
    hide D.Extends, Marked, Only, PlaceOf, ChainOrNone;
    ghost var g, p := d.fs.g, PlaceOf(d);
    HasChain(d);
    var last := d.dptr / 32;
    ghost var table, fat := Table(d), d.fs.Fat();
    ok := true;
    if blk >= 0 {
      ok := Goto(d, blk);
      if !ok {
        return;
      }
    }
    ghost var lo := Cur(d);
    MarkedNone(table, lo);
    while true
      invariant On(d) && lo <= Cur(d) <= last && |Table(d)| == |table| && d.fs.Fat() == fat
        && (old(CountOk(d.fs)) ==> CountOk(d.fs))
      invariant Only(g, p, PlaceOf(d))
      invariant Marked(table, Table(d), lo, Cur(d))
      decreases last - Cur(d)
    {
      ghost var was, p1 := Table(d), PlaceOf(d);
      ok := MarkHere(d);
      if !ok {
        return;
      }
      OnlyTrans(g, p, p1, PlaceOf(d));
      ghost var p3 := PlaceOf(d);
      MarkedMore(table, was, Table(d), lo, Cur(d));
      if d.dptr / 32 >= last {
        break;
      }
      var moved := Next(d, false);
      if moved != Moved {
        return false;
      }
      OnlyTrans(g, p, p3, PlaceOf(d));
    }
    MarkedAll(table, Table(d), lo, last);
  }

  /** Entries `lo` to `k` are marked deleted, the last one excluded. */
  ghost predicate Marked(table: seq<Entry>, now: seq<Entry>, lo: nat, k: nat) {
    |now| == |table| && forall i :: 0 <= i < |table| ==>
      now[i] == if lo <= i < k then table[i][0 := D.DDEM] else table[i]
  }

  lemma MarkedNone(table: seq<Entry>, lo: nat)
    ensures Marked(table, table, lo, lo)
  {
  }

  lemma MarkedMore(table: seq<Entry>, was: seq<Entry>, now: seq<Entry>, lo: nat, k: nat)
    requires Marked(table, was, lo, k) && lo <= k < |was| && now == was[k := was[k][0 := D.DDEM]]
    ensures Marked(table, now, lo, k + 1)
  {
  }

  lemma MarkedAll(table: seq<Entry>, now: seq<Entry>, lo: nat, hi: nat)
    requires Marked(table, now, lo, hi + 1) && hi < |table|
    ensures D.Deleted(table, now, lo, hi)
  {
  }

  // ---------------------------------------------------------------- a name looked for, registered and looked for again

  /** When a name is looked for and not found, and then registered, the directory is well formed as before, and looking
      for it again comes to the new entry, just if the name has less than 255 units or its short name is not lossy. */
  method CreateThenFind(d: Dir, sn: seq<byte>, lossy: bool, long: bool, nt: byte, buf: seq<nat>, ghost name: seq<nat>,
                        up: nat -> nat)
      returns (first: Outcome, made: Outcome, again: Outcome, blk: int)
    requires Good(d) && D.WellFormed(Table(d)) && |sn| == 11 && sn[0] != 0 && sn[0] != D.DDEM && (lossy ==> long)
    requires Holds(buf, name) && IsName(name) && 0 < |name| <= MAX_LFN
    modifies d, d.fs, d.fs.win
    ensures first == Failed || made == Failed || again == Failed ==> !d.fs.g.reliable
    ensures first == NoFile && made == Done && again != Failed ==>
              && Good(d) && D.WellFormed(Table(d)) && (again == Done <==> |name| < MAX_LFN || !lossy)
              && (again == Done ==>
                On(d) && IsNew(old(Table(d)), Table(d), Cur(d), blk, if long then SlotCount(|name|) else 0))
    ensures first == NoFile && made == Refused ==> Good(d) && D.Extends(old(Table(d)), Table(d))
    ensures first != Failed && made != Failed && again != Failed ==>
              Good(d) && Only(d.fs.g, old(PlaceOf(d)), PlaceOf(d))
  {
    hide FatOf, Volume.View, TableOf, IsChain, Geometry.DataFits, Entries, CountOk, Damaged, Dir.There, FreeCount,
      IsNew, DirSearch.FirstNamed, DirSearch.NoneNamed;
    hide D.Find, D.Extends, D.WellFormed, RegisterSpec, SlotCount, IsName, Only, PlaceOf, ChainOrNone;
    HasChain(d);
    ghost var g, p0 := d.fs.g, PlaceOf(d);
    assert |buf| == MAX_LFN + 1;
    ghost var table := Table(d);
    var q := D.Query(sn, lossy, false, buf, up);
    made, again, blk := NoFile, NoFile, -1;
    first, blk := DirFind(d, q);
    if first != NoFile {
      return;
    }
    var fn;
    ghost var s, m, more;
    ghost var count := CountOk(d.fs);
    ghost var p1 := PlaceOf(d);
    made, fn, s, m, more := DirRegister(d, sn, lossy, long, false, nt, buf, name, up);
    if made != Failed {
      OnlyTrans(g, p0, p1, PlaceOf(d));
    }
    if made != Done {
      if made == Refused {
        RefusedKeeps(d, table, more, sn, fn, lossy, s, m, nt, buf, name, up, count);
      }
      return;
    }
    RegisteredHere(d, table, more, q, fn, s, m, nt, name, count);
    ghost var p2 := PlaceOf(d);
    again, blk := DirFind(d, q);
    if again != Failed {
      OnlyTrans(g, p0, p2, PlaceOf(d));
    }
  }

  /** Place `k` of the new table has an entry where there was none in the old one, behind the `m` slots from `blk`
      on. */
  ghost predicate IsNew(table: seq<Entry>, now: seq<Entry>, k: nat, blk: int, m: nat) {
    && k < |now| && D.IsShort(now[k]) && (m > 0 ==> blk + m == k) && (k >= |table| || D.IsFree(table[k]))
  }

  lemma RefusedKeeps(d: Dir, table: seq<Entry>, more: seq<Entry>, sn: seq<byte>, fn: seq<byte>, lossy: bool, s: nat,
    m: nat, nt: byte, buf: seq<nat>, name: seq<nat>, up: nat -> nat, count: bool)
    requires Good(d) && |sn| == |fn| == 11 && |buf| == MAX_LFN + 1
    requires RegisterSpec(d, table, more, Refused, sn, fn, lossy, s, m, nt, buf, name, up, count)
    ensures D.Extends(table, Table(d))
  {
  }

  lemma RegisteredHere(d: Dir, table: seq<Entry>, more: seq<Entry>, q: D.Query, fn: seq<byte>, s: nat, m: nat, nt: byte,
                       name: seq<nat>, count: bool)
    requires Good(d) && D.QueryOk(q) && |fn| == 11
    requires RegisterSpec(d, table, more, Done, q.fn, fn, q.lossy, s, m, nt, q.buf, name, q.up, count)
    requires D.WellFormed(table) && !q.noLong && q.fn[0] != 0 && q.fn[0] != D.DDEM && (q.lossy ==> m > 0)
    requires IsName(name) && 0 < |name| <= MAX_LFN && Holds(q.buf, name) && (m == 0 || m == SlotCount(|name|))
    requires D.Find(table, 0, D.NONE, q) == D.Nowhere
    ensures D.WellFormed(Table(d))
    ensures var found := D.Find(Table(d), 0, D.NONE, q);
            if |name| < MAX_LFN || !q.lossy then found.At? && found.index == s + m
              && IsNew(table, Table(d), s + m, found.blk, m)
            else found == D.Nowhere
  {
    hide FatOf, Volume.View, TableOf, IsChain, Geometry.DataFits, Entries, CountOk, Damaged, Dir.There, FreeCount;
    hide D.Find, D.WellFormed, D.Placed, D.Extends, IsSlot, Numbered, Number, D.IsShort;
    if q.lossy {
      var n :| 1 <= n < 100 && fn == Numbered(q.fn, Number(n, name));
    }
    D.Registered(table, more, Table(d), s, m, name, q, fn, nt);
    PlacedFree(table, more, Table(d), s, m, name, fn, nt);
  }

  lemma PlacedFree(table: seq<Entry>, more: seq<Entry>, now: seq<Entry>, s: nat, m: nat, name: seq<nat>,
    fn: seq<byte>, nt: byte)
    requires |fn| == 11 && D.Extends(table, more) && D.Placed(more, now, s, m, name, fn, nt)
    ensures s + m < |now| && (s + m >= |table| || D.IsFree(table[s + m]))
  {
    hide IsSlot;
  }

  /** A name of 255 times 'a', whose short name is eight times 'A' and lossy: it is registered in a directory with blank
      entries, and not found again. */
  method LongestName(d: Dir, up: nat -> nat) returns (made: Outcome, again: Outcome)
    requires Good(d) && d.fs.g.reliable && !Damaged(d.fs.Fat())
    requires |Table(d)| >= 21 && forall i :: 0 <= i < |Table(d)| ==> Table(d)[i] == D.Blank()
    modifies d, d.fs, d.fs.win
    ensures made == Done && again == NoFile
  {
    hide FatOf, Volume.View, TableOf, IsChain, Geometry.DataFits, Entries, CountOk, Damaged, Dir.There, FreeCount;
    hide D.Find, D.Extends, D.WellFormed, RegisterSpec, Numbered, Number;
    ghost var table := Table(d);
    var name: seq<nat> := seq(255, _ => 0x61);
    var buf := name + [0];
    var sn: seq<byte> := seq(8, _ => 0x41) + seq(3, _ => 0x20);
    var q := D.Query(sn, true, false, buf, up);
    D.BlankNowhere(table, q);
    assert buf[..255] == name;
    var fn;
    ghost var s, m, more;
    made, fn, s, m, more := DirRegister(d, sn, true, true, false, 0, buf, name, up);
    BlankDone(d, table, more, made, sn, fn, s, m, buf, name, up, old(CountOk(d.fs)));
    RegisteredHere(d, table, more, q, fn, s, m, 0, name, old(CountOk(d.fs)));
    var blk;
    again, blk := DirFind(d, q);
  }

  lemma BlankDone(d: Dir, table: seq<Entry>, more: seq<Entry>, res: Outcome, sn: seq<byte>, fn: seq<byte>, s: nat,
    m: nat, buf: seq<nat>, name: seq<nat>, up: nat -> nat, count: bool)
    requires Good(d) && |sn| == |fn| == 11 && |buf| == MAX_LFN + 1 && m == 20
    requires RegisterSpec(d, table, more, res, sn, fn, true, s, m, 0, buf, name, up, count)
    requires |table| >= 21 && forall i :: 0 <= i < |table| ==> table[i] == D.Blank()
    ensures D.WellFormed(table) && res != Refused
  {
    hide FatOf, Volume.View, TableOf, IsChain, Geometry.DataFits, Entries, Numbered, Number, D.Placed;
    var q := D.Query(Numbered(sn, Number(1, name)), false, true, buf, up);
    D.BlankNowhere(table, q);
    assert !D.Taken(table, q);
    D.BlankRun(table, more, 21);
  }
}
