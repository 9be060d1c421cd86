/** Who owns which cluster, over whole runs of the allocator: the used entries of the FAT are
    split among the chains of the objects on the volume, and stay so. */
module FatOwnership {
  import opened FatChains

  /** The chain of every object that owns clusters. */
  type Owners = map<nat, seq<nat>>

  ghost predicate Owned(own: Owners, c: nat) { exists o :: o in own && c in own[o] }

  ghost predicate Disjoint(a: seq<nat>, b: seq<nat>) { forall c :: c in a ==> c !in b }

  /** Every chain is well formed, no cluster is in two of them, and every used entry is in one. */
  ghost predicate Partition(fat: seq<nat>, own: Owners) {
    && (forall o :: o in own ==> IsChain(fat, own[o]))
    && (forall o, p :: o in own && p in own && o != p ==> Disjoint(own[o], own[p]))
    && (forall c: nat :: Cluster(fat, c) && fat[c] != 0 ==> Owned(own, c))
  }

  /** What the allocator is asked to do: start a chain for `o`, stretch the chain of `o`
      (both take the free cluster `r`), free the chain of `o` from its `k`th cluster on. */
  datatype FatOp = Create(o: nat, r: nat) | Stretch(o: nat, r: nat) | Cut(o: nat, k: nat)

  datatype State = State(fat: seq<nat>, own: Owners) {
    ghost predicate Valid() { 3 <= |fat| <= EOC && Partition(fat, own) }

    ghost predicate Allows(op: FatOp) {
      match op
      case Create(o, r) => o !in own && Cluster(fat, r) && fat[r] == 0
      case Stretch(o, r) => o in own && LastOr0(own[o]) < |fat| && Cluster(fat, r) && fat[r] == 0
      case Cut(o, k) => o in own && k < |own[o]| && (k > 0 ==> own[o][k - 1] < |fat|)
    }

    ghost function Step(op: FatOp): (s: State)
      requires Allows(op)
    {
      match op
      case Create(o, r) => State(Created(fat, 0, r), own[o := [r]])
      case Stretch(o, r) => State(Created(fat, LastOr0(own[o]), r), own[o := own[o] + [r]])
      case Cut(o, k) => State(CutFat(fat, own[o], k), if k == 0 then own - {o} else own[o := own[o][..k]])
    }
  }

  /** The loop of `remove_chain` does what `CutFat` says, when it is given a chain. */
  lemma RemoveIsCut(fat: seq<nat>, cs: seq<nat>, k: nat)
    requires |fat| <= EOC && IsChain(fat, cs) && k < |cs|
    ensures var marked := if k == 0 then fat else fat[cs[k - 1] := EOC];
            Cluster(marked, cs[k]) && FreeFrom(marked, cs[k]) == (CutFat(fat, cs, k), true)
  {
    assert Cluster(fat, cs[k]);
    if k == 0 {
      FreeFromChain(fat, cs);
    } else {
      CutLeavesChain(fat, cs, k);
      FreeFromChain(fat[cs[k - 1] := EOC], cs[k..]);
    }
  }

  /** A chain not touched by an update of the table is still the chain of its owner. */
  lemma OthersKeepChains(fat: seq<nat>, own: Owners, o: nat, fat': seq<nat>)
    requires Partition(fat, own) && |fat'| == |fat|
    requires forall c :: 0 <= c < |fat| && fat[c] != 0 && (o in own ==> c !in own[o]) ==> fat'[c] == fat[c]
    ensures forall p :: p in own && p != o ==> IsChain(fat', own[p])
  {
    forall p | p in own && p != o ensures IsChain(fat', own[p]) {
      forall c | c in own[p] ensures 0 <= c < |fat| && fat'[c] == fat[c] {
        var i :| 0 <= i < |own[p]| && own[p][i] == c;
        ChainInUse(fat, own[p], i);
        assert Cluster(fat, c);
      }
      ChainFrame(fat, fat', own[p]);
    }
  }

  lemma FreeIsNotOwned(fat: seq<nat>, own: Owners, r: nat)
    requires Partition(fat, own) && Cluster(fat, r) && fat[r] == 0
    ensures !Owned(own, r)
  {
    forall o | o in own ensures r !in own[o] {
      if r in own[o] {
        var i :| 0 <= i < |own[o]| && own[o][i] == r;
        ChainInUse(fat, own[o], i);
      }
    }
  }

  /** The partition follows when the chain of one owner is replaced by `cs` (none if empty), the other
      chains stay, and the used entries are those used before, less the old chain, plus `cs`. */
  lemma ReplaceOwner(fat: seq<nat>, own: Owners, o: nat, fat': seq<nat>, cs: seq<nat>)
    requires Partition(fat, own) && |fat'| == |fat| && ChainOrNone(fat', cs)
    requires forall c :: 0 <= c < |fat| && fat[c] != 0 && (o in own ==> c !in own[o]) ==> fat'[c] == fat[c]
    requires forall c :: c in cs ==> (o in own && c in own[o]) || !Owned(own, c)
    requires forall c: nat :: Cluster(fat, c) && fat'[c] != 0 ==>
      c in cs || (fat[c] != 0 && (o in own ==> c !in own[o]))
    ensures Partition(fat', if cs == [] then own - {o} else own[o := cs])
  {
    hide IsChain;
    var own' := if cs == [] then own - {o} else own[o := cs];
    OthersKeepChains(fat, own, o, fat');
    forall p | p in own && p != o ensures Disjoint(own[p], cs) && Disjoint(cs, own[p]) {
      assert o in own ==> Disjoint(own[p], own[o]);
      assert forall c :: c in own[p] ==> Owned(own, c);
    }
    forall c: nat | Cluster(fat', c) && fat'[c] != 0 ensures Owned(own', c) {
      if c in cs {
        assert o in own' && c in own'[o];
      } else {
        assert Cluster(fat, c);
        var p :| p in own && c in own[p];
        assert p in own' && c in own'[p];
      }
    }
  }

  lemma CreateKeeps(s: State, o: nat, r: nat)
    requires s.Valid() && s.Allows(Create(o, r))
    ensures s.Step(Create(o, r)).Valid()
  {
    FreeIsNotOwned(s.fat, s.own, r);
    ReplaceOwner(s.fat, s.own, o, Created(s.fat, 0, r), [r]);
  }

  lemma StretchKeeps(s: State, o: nat, r: nat)
    requires s.Valid() && s.Allows(Stretch(o, r))
    ensures s.Step(Stretch(o, r)).Valid()
  {
    var cs := s.own[o];
    FreeIsNotOwned(s.fat, s.own, r);
    StretchEntries(s.fat, cs, r);
    hide IsChain, Partition, Created, Owned, ChainOrNone;
    ReplaceOwner(s.fat, s.own, o, Created(s.fat, LastOr0(cs), r), cs + [r]);
  }

  /** The entries after a chain took one cluster more. */
  lemma StretchEntries(fat: seq<nat>, cs: seq<nat>, r: nat)
    requires |fat| <= EOC && IsChain(fat, cs) && Cluster(fat, r) && fat[r] == 0 && LastOr0(cs) < |fat|
    ensures var fat' := Created(fat, LastOr0(cs), r);
            && |fat'| == |fat| && ChainOrNone(fat', cs + [r])
            && (forall c :: 0 <= c < |fat| && fat[c] != 0 && c !in cs ==> fat'[c] == fat[c])
            && (forall c: nat :: Cluster(fat, c) && fat'[c] != 0 ==> c in cs + [r] || (fat[c] != 0 && c !in cs))
  {
    CreatedGrows(fat, cs, r);
    ChainInUse(fat, cs, |cs| - 1);
    assert LastOr0(cs) in cs && (cs + [r])[|cs|] == r;
    hide IsChain;
  }

  lemma CutEntries(fat: seq<nat>, cs: seq<nat>, k: nat)
    requires k < |cs| && (k > 0 ==> cs[k - 1] < |fat|)
    ensures forall c :: 0 <= c < |fat| && c !in cs ==> CutFat(fat, cs, k)[c] == fat[c]
    ensures forall c: nat :: Cluster(fat, c) && CutFat(fat, cs, k)[c] != 0 ==> c in cs[..k] || (fat[c] != 0 && c !in cs)
    ensures forall c :: c in cs[..k] ==> c in cs
  {
    assert k == 0 ==> cs[k..] == cs;
    assert k > 0 ==> cs[k - 1] in cs;
    forall c | c in cs ensures c in cs[..k] || c in cs[k..] {
      var i :| 0 <= i < |cs| && cs[i] == c;
      assert i < k ==> cs[..k][i] == c;
      assert i >= k ==> cs[k..][i - k] == c;
    }
  }

  lemma CutKeeps(s: State, o: nat, k: nat)
    requires s.Valid() && s.Allows(Cut(o, k))
    ensures s.Step(Cut(o, k)).Valid()
  {
    var cs := s.own[o];
    assert IsChain(s.fat, cs);
    var fat' := CutFat(s.fat, cs, k);
    if k > 0 {
      CutLeavesChain(s.fat, cs, k);
    }
    assert |fat'| == |s.fat| && ChainOrNone(fat', cs[..k]);
    hide IsChain, Partition, CutFat, Zeroed, ChainOrNone, Owned;
    CutEntries(s.fat, cs, k);
    ReplaceOwner(s.fat, s.own, o, fat', cs[..k]);
  }

  /** No allowed operation breaks the partition, and none changes the chain of another owner. */
  lemma StepKeepsPartition(s: State, op: FatOp)
    requires s.Valid() && s.Allows(op)
    ensures s.Step(op).Valid() && |s.Step(op).fat| == |s.fat|
    ensures forall p :: p != op.o ==> (p in s.Step(op).own <==> p in s.own)
    ensures forall p :: p != op.o && p in s.own ==> s.Step(op).own[p] == s.own[p]
  {
    hide Partition;
    match op
    case Create(o, r) => CreateKeeps(s, o, r);
    case Stretch(o, r) => StretchKeeps(s, o, r);
    case Cut(o, k) => CutKeeps(s, o, k);
  }

  ghost predicate Names(ops: seq<FatOp>, p: nat) { exists i :: 0 <= i < |ops| && ops[i].o == p }

  /** A sequence of operations, each allowed when its turn comes. */
  ghost predicate Runs(s: State, ops: seq<FatOp>, t: State)
    decreases |ops|
  {
    if ops == [] then t == s else s.Allows(ops[0]) && Runs(s.Step(ops[0]), ops[1..], t)
  }

  /** In every state any run reaches, the used clusters are split among the owners' chains,
      and an owner no operation names still has the chain it had. */
  lemma {:induction false} RunKeepsPartition(s: State, ops: seq<FatOp>, t: State)
    requires s.Valid() && Runs(s, ops, t)
    ensures t.Valid() && |t.fat| == |s.fat|
    ensures forall p :: p in s.own && !Names(ops, p) ==> p in t.own && t.own[p] == s.own[p]
    decreases |ops|
  {
    if ops != [] {
      StepKeepsPartition(s, ops[0]);
      hide State.Valid, State.Step, State.Allows;
      RunKeepsPartition(s.Step(ops[0]), ops[1..], t);
      forall p | !Names(ops, p) ensures ops[0].o != p && !Names(ops[1..], p) {
        assert forall i :: 0 <= i < |ops[1..]| ==> ops[1..][i] == ops[i + 1];
      }
    }
  }

  // ---------------------------------------------------------------- conservation

  ghost function Pick(own: Owners): (o: nat)
    requires own != map[]
    ensures o in own
  {
    assert own.Keys != {};
    var o :| o in own.Keys; o
  }

  /** The number of clusters in all chains. */
  ghost function Total(own: Owners): nat
    decreases |own|
  {
    if own == map[] then 0 else var o := Pick(own); |own[o]| + Total(own - {o})
  }

  lemma {:induction false} ZeroedCount(fat: seq<nat>, cs: seq<nat>)
    requires forall i :: 0 <= i < |cs| ==> Cluster(fat, cs[i]) && fat[cs[i]] != 0
    requires forall i, j :: 0 <= i < j < |cs| ==> cs[i] != cs[j]
    ensures FreeCount(Zeroed(fat, cs)) == FreeCount(fat) + |cs|
    decreases |cs|
  {
    if cs == [] {
      assert Zeroed(fat, cs) == fat;
    } else {
      var l := cs[|cs| - 1];
      var hd := cs[..|cs| - 1];
      ZeroedCount(fat, hd);
      assert cs == hd + [l];
      assert Cluster(fat, l) && l !in hd;
      assert Zeroed(fat, cs) == Zeroed(fat, hd)[l := 0];
      FreeCountSet(Zeroed(fat, hd), l, 0);
    }
  }

  lemma {:induction false} AllFree(fat: seq<nat>, k: nat)
    requires 2 <= k <= |fat| && forall c: nat :: Cluster(fat, c) ==> fat[c] == 0
    ensures FreeUpTo(fat, k) == k - 2
  {
    if k > 2 {
      assert Cluster(fat, k - 1);
      AllFree(fat, k - 1);
    }
  }

  /** Free clusters and owned clusters add up to the volume: no cluster is lost or counted twice. */
  lemma {:induction false} ClustersConserved(fat: seq<nat>, own: Owners)
    requires 3 <= |fat| <= EOC && Partition(fat, own)
    ensures FreeCount(fat) + Total(own) == |fat| - 2
    decreases |own|
  {
    if own == map[] {
      assert forall c: nat :: !Owned(own, c);
      AllFree(fat, |fat|);
    } else {
      var o := Pick(own);
      var cs := own[o];
      var s := State(fat, own);
      CutKeeps(s, o, 0);
      forall i | 0 <= i < |cs| ensures Cluster(fat, cs[i]) && fat[cs[i]] != 0 {
        ChainInUse(fat, cs, i);
      }
      forall i, j | 0 <= i < j < |cs| ensures cs[i] != cs[j] {
        ChainDistinct(fat, cs, i, j);
      }
      ZeroedCount(fat, cs);
      ClustersConserved(Zeroed(fat, cs), own - {o});
    }
  }
}
