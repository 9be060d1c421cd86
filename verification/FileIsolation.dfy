/** What an operation on one open file means for everything else on the volume: the ownership of clusters,
    the other open files and the copies of the FAT. */
module FileIsolation {
  import opened Bytes
  import opened FatChains
  import opened FatOwnership
  import opened Volumes
  import opened ClusterAlloc
  import opened FileLayout
  import opened OpenFile

  // ---------------------------------------------------------------- ownership

  lemma GrownEntries(fat: seq<nat>, cs: seq<nat>, fat': seq<nat>, cs': seq<nat>)
    requires Grown(fat, cs, fat', cs')
    ensures forall c :: c in cs' ==> c in cs || (Cluster(fat, c) && fat[c] == 0)
    ensures forall c: nat :: Cluster(fat, c) && fat'[c] != 0 ==> c in cs' || (fat[c] != 0 && c !in cs)
  {
    forall c | c in cs' ensures c in cs || (Cluster(fat, c) && fat[c] == 0) {
      var i :| 0 <= i < |cs'| && cs'[i] == c;
      assert i < |cs| ==> c == cs[i];
    }
    assert forall i :: 0 <= i < |cs| ==> cs'[i] == cs[i];
    assert forall i :: 0 <= i < |cs'[|cs|..]| ==> cs'[|cs|..][i] == cs'[|cs| + i];
    forall c: nat | Cluster(fat, c) && fat'[c] != 0 && c !in cs' ensures fat[c] != 0 && c !in cs {
      assert c !in cs'[|cs|..];
      assert |cs| > 0 ==> cs[|cs| - 1] == cs'[|cs| - 1];
    }
  }

  /** A file whose chain grows keeps the split of the used clusters among their owners. */
  lemma GrownKeepsPartition(fat: seq<nat>, own: Owners, o: nat, fat': seq<nat>, cs': seq<nat>)
    requires Partition(fat, own)
    requires Grown(fat, if o in own then own[o] else [], fat', cs')
    ensures Partition(fat', if cs' == [] then own - {o} else own[o := cs'])
  {
    var cs := if o in own then own[o] else [];
    GrownKeepsOthers(fat, cs, fat', cs');
    GrownEntries(fat, cs, fat', cs');
    assert |fat'| == |fat| && ChainOrNone(fat', cs');
    hide IsChain, Grown;
    forall c | c in cs' ensures (o in own && c in own[o]) || !Owned(own, c) {
      if c !in cs {
        FreeIsNotOwned(fat, own, c);
      }
    }
    hide Partition, Owned;
    ReplaceOwner(fat, own, o, fat', cs');
  }

  /** So does a file that is cut. */
  lemma CutKeepsPartition(fat: seq<nat>, own: Owners, o: nat, fat': seq<nat>, cs': seq<nat>)
    requires 3 <= |fat| <= EOC && Partition(fat, own) && o in own
    requires CutTo(fat, own[o], fat', cs')
    ensures Partition(fat', if cs' == [] then own - {o} else own[o := cs'])
  {
    hide *;
    OwnedChain(fat, own, o);
    CutShape(fat, own[o], fat', cs');
    if |cs'| < |own[o]| {
      CutAllowed(fat, own, o, fat', cs');
      CutKeeps(State(fat, own), o, |cs'|);
      ValidSplit(State(fat', if cs' == [] then own - {o} else own[o := cs']));
    } else {
      assert own[o := cs'] == own;
    }
  }

  lemma CutAllowed(fat: seq<nat>, own: Owners, o: nat, fat': seq<nat>, cs': seq<nat>)
    requires 3 <= |fat| <= EOC && Partition(fat, own) && o in own && |cs'| < |own[o]| && cs' == own[o][..|cs'|]
    requires (|cs'| > 0 ==> own[o][|cs'| - 1] < |fat|) && fat' == CutFat(fat, own[o], |cs'|)
    ensures State(fat, own).Valid() && State(fat, own).Allows(Cut(o, |cs'|))
    ensures State(fat, own).Step(Cut(o, |cs'|)) == State(fat', if cs' == [] then own - {o} else own[o := cs'])
  {
    hide Partition, CutFat;
  }

  lemma ValidSplit(s: State)
    requires s.Valid()
    ensures Partition(s.fat, s.own)
  {
    hide Partition;
  }

  lemma OwnedChain(fat: seq<nat>, own: Owners, o: nat)
    requires Partition(fat, own) && o in own
    ensures IsChain(fat, own[o]) && own[o] != []
  {
  }

  lemma CutShape(fat: seq<nat>, cs: seq<nat>, fat': seq<nat>, cs': seq<nat>)
    requires CutTo(fat, cs, fat', cs')
    ensures |cs'| <= |cs| && cs' == cs[..|cs'|]
    ensures if |cs'| == |cs| then cs' == cs && fat' == fat
            else (|cs'| > 0 ==> cs[|cs'| - 1] < |fat|) && fat' == CutFat(fat, cs, |cs'|)
  {
  }

  /** What a file or a directory shares with others: the FAT, the sector in the window, the logical disk, and its own
      chain. */
  datatype Place = Place(fat: seq<nat>, window: nat, view: seq<Sector>, chain: seq<nat>)

  /** The chain grows by free clusters or is cut, entries of others stay, and so does every sector outside the FATs and
      the clusters that the file has or had. */
  ghost predicate Confined(g: Geometry, p: Place, q: Place) {
    var top := if |p.chain| <= |q.chain| then q.chain else p.chain;
    && (Grown(p.fat, p.chain, q.fat, q.chain) || CutTo(p.fat, p.chain, q.fat, q.chain))
    && OthersKept(p.fat, p.chain, q.fat) && WindowIn(g, top, p.window, q.window) && OnlyOwn(g, top, p.view, q.view)
  }

  // ---------------------------------------------------------------- other open files

  /** Nothing of the chain `other` is touched by an operation on a file whose chain goes from `cs` to `cs'`:
      it is still a chain, still apart from that file, and its sectors are the same. */
  lemma OtherChainKept(g: Geometry, fat: seq<nat>, cs: seq<nat>, fat': seq<nat>, cs': seq<nat>,
                       v: seq<Sector>, v': seq<Sector>, other: seq<nat>)
    requires g.Wf() && g.DataFits() && |fat| == g.nFatent && |v| == g.nsect
    requires IsChain(fat, other) && Disjoint(other, cs)
    requires OthersKept(fat, cs, fat') && OnlyOwn(g, cs', v, v')
    requires forall c :: c in cs' ==> c in cs || (Cluster(fat, c) && fat[c] == 0)
    ensures IsChain(fat', other) && Disjoint(other, cs')
    ensures forall s: nat :: Own(g, other, s) ==> v'[s] == v[s]
  {
    forall c | c in other ensures 0 <= c < |fat| && fat[c] != 0 && fat'[c] == fat[c] && c !in cs' {
      var i :| 0 <= i < |other| && other[i] == c;
      ChainInUse(fat, other, i);
      assert Cluster(fat, c);
    }
    ChainFrame(fat, fat', other);
    forall s: nat | Own(g, other, s) ensures s < g.nsect && v'[s] == v[s] {
      OwnBounds(g, fat, other, s);
      var c :| c in other && InCluster(g, c, s);
      if Own(g, cs', s) {
        var d :| d in cs' && InCluster(g, d, s);
        ClustersApart(g, c, d, s);
      }
    }
  }

  lemma ApartSector(g: Geometry, a: seq<nat>, b: seq<nat>, s: nat)
    requires g.Wf() && Disjoint(a, b)
    ensures !(Own(g, a, s) && Own(g, b, s))
  {
    if Own(g, a, s) && Own(g, b, s) {
      var c :| c in a && InCluster(g, c, s);
      var d :| d in b && InCluster(g, d, s);
      ClustersApart(g, c, d, s);
      assert false;
    }
  }

  /** Another open file stays sound and keeps its bytes and cursor, provided its buffer holds one of its own
      sectors or none. */
  lemma OtherFileKept(g: Geometry, fat: seq<nat>, w: nat, cs: seq<nat>, fat': seq<nat>, w': nat, cs': seq<nat>,
    other: Fil, a: Cache, b: Cache)
    requires Sound(g, fat, w, other, a) && CursorOk(g, other) && Disjoint(other.chain, cs)
    requires other.sect == 0 || Own(g, other.chain, other.sect)
    requires OthersKept(fat, cs, fat') && OnlyOwn(g, cs', a.view, b.view) && WindowIn(g, cs', w, w')
    requires forall c :: c in cs' ==> c in cs || (Cluster(fat, c) && fat[c] == 0)
    requires b.sect == a.sect && b.buf == a.buf
    ensures Sound(g, fat', w', other, b) && CursorOk(g, other) && Disjoint(other.chain, cs')
    ensures Content(g, other.chain, b, other.objsize) == Content(g, other.chain, a, other.objsize)
  {
    hide Geometry.DataFits, Geometry.Index, Geometry.Within, Geometry.PowerOfTwo, Content;
    if other.chain != [] {
      OtherChainKept(g, fat, cs, fat', cs', a.view, b.view, other.chain);
    }
    forall s: nat | Own(g, other.chain, s) ensures g.database <= s < g.nsect {
      OwnBounds(g, fat, other.chain, s);
    }
    assert other.chain == [] ==> Disjoint(other.chain, cs');
    ApartSector(g, other.chain, cs', w');
    ApartSector(g, other.chain, cs', other.sect);
    hide Own, IsChain, OnlyOwn, OthersKept, Disjoint;
    assert SameOn(g, other.chain, a, b);
    assert Sound(g, fat', w', other, b);
    SoundContent(g, fat', w', other, a, b);
  }

  /** The sector lies in a cluster of the volume. */
  ghost predicate InData(g: Geometry, s: nat) { exists c: nat :: g.HasEntry(c) && InCluster(g, c, s) }

  ghost function ChainOf(own: Owners, p: nat): (cs: seq<nat>) { if p in own then own[p] else [] }

  /** What a write or a seek on the file of owner `p`, whose chain becomes `cs'`, may do while the file of owner `o` is
      open: the buffer of that one stays. */
  ghost predicate Writes(g: Geometry, fat: seq<nat>, w: nat, own: Owners, o: nat, p: nat, fat': seq<nat>, w': nat,
                         cs': seq<nat>, a: Cache, b: Cache) {
    && p != o && Grown(fat, ChainOf(own, p), fat', cs') && OnlyOwn(g, cs', a.view, b.view) && WindowMoved(g, w, w')
    && b.sect == a.sect && b.buf == a.buf
  }

  /** Whatever is written to other files, an open file stays sound, just if its buffer is dirty, invalid, or holds a
      sector of its own, or one of no cluster at all. */
  lemma BufferExact(g: Geometry, fat: seq<nat>, w: nat, own: Owners, o: nat, other: Fil, a: Cache)
    requires Sound(g, fat, w, other, a) && CursorOk(g, other) && Partition(fat, own) && other.chain == ChainOf(own, o)
    ensures (forall p, fat', w', cs', b :: Writes(g, fat, w, own, o, p, fat', w', cs', a, b) ==>
                                             Sound(g, fat', w', other, b)) <==>
            other.dirty || other.sect == 0 || Own(g, other.chain, other.sect) || !InData(g, other.sect)
  {
    hide Sound, CursorOk, Partition, Writes, InData, Own;
    if other.dirty || other.sect == 0 || Own(g, other.chain, other.sect) || !InData(g, other.sect) {
      forall p, fat', w', cs', b | Writes(g, fat, w, own, o, p, fat', w', cs', a, b)
        ensures Sound(g, fat', w', other, b) {
        WriteKeeps(g, fat, w, own, o, p, fat', w', cs', other, a, b);
      }
    } else {
      var p, fat', cs', b := StaleWrite(g, fat, w, own, o, other, a);
      assert Writes(g, fat, w, own, o, p, fat', w, cs', a, b);
    }
  }

  lemma WriteKeeps(g: Geometry, fat: seq<nat>, w: nat, own: Owners, o: nat, p: nat, fat': seq<nat>, w': nat,
                   cs': seq<nat>, other: Fil, a: Cache, b: Cache)
    requires Sound(g, fat, w, other, a) && CursorOk(g, other) && Partition(fat, own) && other.chain == ChainOf(own, o)
    requires other.dirty || other.sect == 0 || Own(g, other.chain, other.sect) || !InData(g, other.sect)
    requires Writes(g, fat, w, own, o, p, fat', w', cs', a, b)
    ensures Sound(g, fat', w', other, b)
  {
    hide CursorOk, OthersKept, OnlyOwn, Geometry.DataFits, Geometry.PowerOfTwo, Geometry.Index, Geometry.Within;
    var cs := ChainOf(own, p);
    GrownKeepsOthers(fat, cs, fat', cs');
    GrownEntries(fat, cs, fat', cs');
    ChainsDisjoint(fat, own, o, p);
    forall c | c in cs' ensures Cluster(fat, c) {
      var i :| 0 <= i < |cs'| && cs'[i] == c;
      assert Cluster(fat', cs'[i]);
    }
    if other.sect != 0 && !Own(g, other.chain, other.sect) {
      NoCluster(g, cs', other.sect);
      hide Partition, Own, IsChain, Grown;
      DropBuffer(g, fat, w, other, a);
      OtherFileKept(g, fat, w, cs, fat', w', cs', other.(sect := 0), a.(sect := 0), b.(sect := 0));
      TakeBuffer(g, fat, w, cs', fat', w', other, a, b);
    } else {
      hide Partition, Own, IsChain, Grown;
      OtherFileKept(g, fat, w, cs, fat', w', cs', other, a, b);
    }
  }

  lemma ChainsDisjoint(fat: seq<nat>, own: Owners, o: nat, p: nat)
    requires Partition(fat, own) && p != o
    ensures Disjoint(ChainOf(own, o), ChainOf(own, p))
  {
  }

  lemma NoCluster(g: Geometry, cs: seq<nat>, s: nat)
    requires !InData(g, s) && forall c :: c in cs ==> g.HasEntry(c)
    ensures !Own(g, cs, s)
  {
  }

  /** A file pointer inside a sector has a sector of the file in the buffer. */
  lemma CursorOwn(g: Geometry, fat: seq<nat>, w: nat, f: Fil, a: Cache)
    requires Sound(g, fat, w, f, a) && CursorOk(g, f) && f.fptr % 512 != 0
    ensures Own(g, f.chain, f.sect)
  {
    hide Geometry.DataFits, Geometry.PowerOfTwo, Lba, Own;
    ChainClusters(g, fat, f.chain);
    assert (f.fptr - 1) / 512 == f.fptr / 512;
    LbaInside(g, f.chain, f.fptr / 512);
  }

  lemma DropBuffer(g: Geometry, fat: seq<nat>, w: nat, f: Fil, a: Cache)
    requires Sound(g, fat, w, f, a) && CursorOk(g, f) && !Own(g, f.chain, f.sect)
    ensures Sound(g, fat, w, f.(sect := 0), a.(sect := 0)) && CursorOk(g, f.(sect := 0))
  {
    if f.fptr % 512 != 0 {
      CursorOwn(g, fat, w, f, a);
    }
    hide Own, Geometry.DataFits;
  }

  lemma TakeBuffer(g: Geometry, fat: seq<nat>, w: nat, cs': seq<nat>, fat': seq<nat>, w': nat, f: Fil, a: Cache,
    b: Cache)
    requires Sound(g, fat, w, f, a) && Sound(g, fat', w', f.(sect := 0), b.(sect := 0)) && !f.dirty
    requires OnlyOwn(g, cs', a.view, b.view) && WindowMoved(g, w, w') && !Own(g, cs', f.sect) && b.sect == a.sect
      && b.buf == a.buf
    ensures Sound(g, fat', w', f, b)
  {
    hide Own, Geometry.DataFits, ChainOrNone, Room;
  }

  lemma {:induction false} Above(s: set<nat>) returns (b: nat)
    ensures forall x :: x in s ==> x < b
  {
    if s == {} {
      b := 0;
    } else {
      var x :| x in s;
      b := Above(s - {x});
      b := if x < b then b else x + 1;
      assert forall y :: y in s ==> y == x || y in s - {x};
    }
  }

  function Changed(t: Sector): (u: Sector)
    ensures u != t
  {
    var u := t[0 := if t[0] == 0 then 1 else 0];
    assert u[0] != t[0];
    u
  }

  /** Somebody else may write to a cluster that is not the owner's: who has it, or a new owner. */
  lemma Taker(fat: seq<nat>, own: Owners, o: nat, d: nat) returns (p: nat, fat': seq<nat>, cs': seq<nat>)
    requires Partition(fat, own) && |fat| <= EOC && Cluster(fat, d) && d !in ChainOf(own, o)
    ensures p != o && Grown(fat, ChainOf(own, p), fat', cs') && d in cs'
  {
    if fat[d] == 0 {
      p := Above(own.Keys + {o});
      fat', cs' := Created(fat, 0, d), [d];
      CreatedGrows(fat, [], d);
    } else {
      p :| p in own && d in own[p];
      fat', cs' := fat, own[p];
      GrownRefl(fat, cs');
    }
  }

  /** A write to another file that makes a clean buffer over a cluster of no part of its own file stale: the cluster is
      free and taken for the other file, or it is the other file's already. */
  lemma StaleWrite(g: Geometry, fat: seq<nat>, w: nat, own: Owners, o: nat, other: Fil, a: Cache)
      returns (p: nat, fat': seq<nat>, cs': seq<nat>, b: Cache)
    requires Sound(g, fat, w, other, a) && Partition(fat, own) && other.chain == ChainOf(own, o)
    requires !other.dirty && other.sect != 0 && !Own(g, other.chain, other.sect) && InData(g, other.sect)
    ensures Writes(g, fat, w, own, o, p, fat', w, cs', a, b) && !Sound(g, fat', w, other, b)
  {
    var s := other.sect;
    var d: nat :| g.HasEntry(d) && InCluster(g, d, s);
    assert d !in other.chain && s < |a.view|;
    b := a.(view := a.view[s := Changed(a.view[s])]);
    hide Geometry.DataFits, Geometry.PowerOfTwo, Grown, Partition, IsChain, ChainOrNone;
    p, fat', cs' := Taker(fat, own, o, d);
    assert Own(g, cs', s);
    hide InCluster;
    OneSector(g, cs', a.view, s, Changed(a.view[s]));
  }

  lemma OneSector(g: Geometry, cs: seq<nat>, v: seq<Sector>, s: nat, t: Sector)
    requires g.Wf() && s < |v| && g.database <= s && Own(g, cs, s)
    ensures OnlyOwn(g, cs, v, v[s := t])
  {
    hide Own;
  }

  // ---------------------------------------------------------------- the copies of the FAT

  /** If the copies of the FAT agree on the logical disk, they agree on the device, but for a sector that is in the
      window and not yet written back. Every operation keeps the premise. */
  lemma MirrorOnDisk(fs: Volume, s: nat)
    requires fs.Valid() && Mirrored(fs.g, fs.View()) && fs.g.nFats == 2 && !fs.g.SecondFat(fs.winsect)
    requires fs.g.FirstFat(s) && !(fs.wflag && s == fs.winsect)
    ensures fs.disk[s] == fs.disk[s + fs.g.fsize]
  {
    assert fs.View()[s] == fs.View()[s + fs.g.fsize];
  }
}
