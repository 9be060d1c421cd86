/** The circular, address-ordered list of free blocks of slob.c, as the words of memory hold it. An address
    counts units of 16 bytes, the size of a block header: `unitN[a]` and `next[a]` are the two words at `a`. */
module FreeRing {

  datatype Words = Words(unitN: seq<int>, next: seq<int>)

  ghost predicate WordsOk(w: Words) { |w.unitN| == |w.next| }

  /** The place after `i` in the ring. */
  function Succ(ring: seq<nat>, i: nat): (j: nat)
    requires i < |ring|
    ensures j < |ring|
  {
    if i + 1 < |ring| then i + 1 else 0
  }

  ghost predicate Block(w: Words, a: nat)
    requires WordsOk(w)
  {
    a < |w.unitN| && 1 <= w.unitN[a] && a + w.unitN[a] <= |w.unitN|
  }

  ghost predicate Before(w: Words, a: nat, b: nat)
    requires WordsOk(w) && a < |w.unitN|
  {
    a + w.unitN[a] <= b
  }

  /** One cycle through `ring`, whose blocks follow each other by address with one wrap, from last to first. */
  ghost predicate Ring(w: Words, ring: seq<nat>) {
    && WordsOk(w) && |ring| > 0
    && (forall i :: 0 <= i < |ring| ==> Block(w, ring[i]))
    && (forall i :: 0 <= i < |ring| ==> w.next[ring[i]] == ring[Succ(ring, i)])
    && (forall i :: 0 <= i < |ring| - 1 ==> Before(w, ring[i], ring[i + 1]))
  }

  ghost predicate Touch(w: Words, ring: seq<nat>, i: nat)
    requires Ring(w, ring) && i < |ring| - 1
  {
    Block(w, ring[i]) && ring[i] + w.unitN[ring[i]] == ring[i + 1]
  }

  /** All neighbours that touch have been merged, but perhaps the `k`th or the `m`th with its next. */
  ghost predicate Merged(w: Words, ring: seq<nat>, k: int, m: int)
    requires Ring(w, ring)
  {
    forall i :: 0 <= i < |ring| - 1 && i != k && i != m ==> !Touch(w, ring, i)
  }

  lemma {:induction false} RingOrder(w: Words, ring: seq<nat>, i: nat, j: nat)
    requires Ring(w, ring) && i < j < |ring|
    ensures Block(w, ring[i]) && ring[i] + w.unitN[ring[i]] <= ring[j] && ring[i] < ring[j]
    decreases j - i
  {
    assert Before(w, ring[i], ring[i + 1]) && Block(w, ring[i]);
    if i + 1 < j {
      RingOrder(w, ring, i + 1, j);
    }
  }

  lemma RingDistinct(w: Words, ring: seq<nat>)
    requires Ring(w, ring)
    ensures forall i, j :: 0 <= i < j < |ring| ==> ring[i] < ring[j]
  {
    forall i, j | 0 <= i < j < |ring| ensures ring[i] < ring[j] {
      RingOrder(w, ring, i, j);
    }
  }

  // ---------------------------------------------------------------- linking a block in

  /** `q` linked in after `p`. */
  function Linked(w: Words, p: nat, q: nat): (r: Words)
    requires WordsOk(w) && p < |w.next| && q < |w.next|
  {
    w.(next := w.next[q := w.next[p]][p := q])
  }

  function Insert(ring: seq<nat>, j: nat, q: nat): (r: seq<nat>)
    requires j < |ring|
    ensures |r| == |ring| + 1
  {
    ring[..j + 1] + [q] + ring[j + 1..]
  }

  /** `q` lies between the `j`th block of the ring and the next one. */
  ghost predicate Fits(w: Words, ring: seq<nat>, j: nat, q: nat)
    requires Ring(w, ring)
  {
    && j < |ring| && Block(w, q) && Block(w, ring[j])
    && ring[j] + w.unitN[ring[j]] <= q
    && (j + 1 < |ring| ==> q + w.unitN[q] <= ring[j + 1])
  }

  lemma InsertAt(ring: seq<nat>, j: nat, q: nat, i: nat)
    requires j < |ring| && i <= |ring|
    ensures Insert(ring, j, q)[i] == if i <= j then ring[i] else if i == j + 1 then q else ring[i - 1]
  {
  }

  /** A block that fits is none of the ring's, and neither is the place after it. */
  lemma FitsApart(w: Words, ring: seq<nat>, j: nat, q: nat, i: nat)
    requires Ring(w, ring) && Fits(w, ring, j, q) && i < |ring|
    ensures if i <= j then Block(w, ring[i]) && ring[i] + w.unitN[ring[i]] <= q && ring[i] < q
      else q + w.unitN[q] <= ring[i] && q < ring[i]
  {
    if i < j {
      RingOrder(w, ring, i, j);
    }
    if j + 1 < i {
      RingOrder(w, ring, j + 1, i);
    }
  }

  /** The `i`th block of the ring after `q` was linked in. */
  lemma LinkedAt(w: Words, ring: seq<nat>, j: nat, q: nat, i: nat)
    requires Ring(w, ring) && Fits(w, ring, j, q) && Merged(w, ring, -1, -1) && i <= |ring|
    ensures var v, r := Linked(w, ring[j], q), Insert(ring, j, q);
            && Block(v, r[i]) && v.next[r[i]] == r[Succ(r, i)]
            && (i < |ring| ==> Before(v, r[i], r[i + 1]) && (i != j && i != j + 1 ==> r[i] + v.unitN[r[i]] != r[i + 1]))
  {
    InsertAt(ring, j, q, i);
    InsertAt(ring, j, q, Succ(Insert(ring, j, q), i));
    hide Insert;
    var k := if i <= j then i else i - 1;
    FitsApart(w, ring, j, q, k);
    if k < j { RingOrder(w, ring, k, j); }
    if j < k { RingOrder(w, ring, j, k); }
    assert Block(w, ring[k]);
    if k + 1 < |ring| {
      assert Before(w, ring[k], ring[k + 1]) && !Touch(w, ring, k);
    }
  }

  lemma LinkedRing(w: Words, ring: seq<nat>, j: nat, q: nat)
    requires Ring(w, ring) && Fits(w, ring, j, q) && Merged(w, ring, -1, -1)
    ensures Ring(Linked(w, ring[j], q), Insert(ring, j, q))
    ensures Merged(Linked(w, ring[j], q), Insert(ring, j, q), j, j + 1)
  {
    var v, r := Linked(w, ring[j], q), Insert(ring, j, q);
    forall i | 0 <= i < |r|
      ensures Block(v, r[i]) && v.next[r[i]] == r[Succ(r, i)]
      ensures i < |ring| ==> Before(v, r[i], r[i + 1]) && (i != j && i != j + 1 ==> r[i] + v.unitN[r[i]] != r[i + 1])
    {
      LinkedAt(w, ring, j, q, i);
    }
    hide Linked, Insert, Block, Before;
  }

  // ---------------------------------------------------------------- merging, taking and splitting

  /** `a` swallows its next block `b`. */
  function Absorbed(w: Words, a: nat, b: nat): (r: Words)
    requires WordsOk(w) && a < |w.next| && b < |w.next|
  {
    Words(w.unitN[a := w.unitN[a] + w.unitN[b]], w.next[a := w.next[b]])
  }

  function Drop(ring: seq<nat>, i: nat): (r: seq<nat>)
    requires i < |ring|
    ensures |r| == |ring| - 1
  {
    ring[..i] + ring[i + 1..]
  }

  lemma DropAt(ring: seq<nat>, k: nat, i: nat)
    requires k < |ring| && i < |ring| - 1
    ensures Drop(ring, k)[i] == ring[if i < k then i else i + 1]
  {
  }

  lemma AbsorbedAt(w: Words, ring: seq<nat>, k: nat, i: nat)
    requires Ring(w, ring) && k + 1 < |ring| && Touch(w, ring, k) && i < |ring| - 1
    ensures var v, r := Absorbed(w, ring[k], ring[k + 1]), Drop(ring, k + 1);
            && Block(v, r[i]) && v.next[r[i]] == r[Succ(r, i)]
            && (i + 1 < |r| ==> Before(v, r[i], r[i + 1]))
            && (i + 1 < |r| ==> (r[i] + v.unitN[r[i]] == r[i + 1] <==> Touch(w, ring, if i < k then i else i + 1)))
  {
    var r := Drop(ring, k + 1);
    DropAt(ring, k + 1, i);
    DropAt(ring, k + 1, Succ(r, i));
    if i + 1 < |r| { DropAt(ring, k + 1, i + 1); }
    hide Drop;
    var m := if i <= k then i else i + 1;
    if m < k { RingOrder(w, ring, m, k); }
    if k + 1 < m { RingOrder(w, ring, k, m); }
    assert Block(w, ring[m]) && Block(w, ring[k]) && Block(w, ring[k + 1]);
    assert m + 1 < |ring| ==> Before(w, ring[m], ring[m + 1]);
    assert k + 2 < |ring| ==> Before(w, ring[k + 1], ring[k + 2]);
  }

  lemma AbsorbedRing(w: Words, ring: seq<nat>, k: nat, m: int)
    requires Ring(w, ring) && k + 1 < |ring| && Touch(w, ring, k) && Merged(w, ring, m, k) && m < k
    ensures Ring(Absorbed(w, ring[k], ring[k + 1]), Drop(ring, k + 1))
    ensures Merged(Absorbed(w, ring[k], ring[k + 1]), Drop(ring, k + 1), m, -1)
  {
    var v, r := Absorbed(w, ring[k], ring[k + 1]), Drop(ring, k + 1);
    forall i | 0 <= i < |r|
      ensures Block(v, r[i]) && v.next[r[i]] == r[Succ(r, i)]
      ensures i + 1 < |r| ==> Before(v, r[i], r[i + 1])
      ensures i + 1 < |r| ==> (r[i] + v.unitN[r[i]] == r[i + 1] <==> Touch(w, ring, if i < k then i else i + 1))
    {
      AbsorbedAt(w, ring, k, i);
    }
    hide Absorbed, Drop, Block, Before;
  }

  /** The block `p` taken off the ring; `pre` is the one before it. */
  function Unlinked(w: Words, pre: nat, p: nat): (r: Words)
    requires WordsOk(w) && pre < |w.next| && p < |w.next|
  {
    w.(next := w.next[pre := w.next[p]])
  }

  /** A block of the ring other than the one before the one taken off. */
  lemma UnlinkedOther(w: Words, ring: seq<nat>, k: nat, m: nat)
    requires Ring(w, ring) && 0 < k < |ring| && Merged(w, ring, -1, -1) && m < |ring| && m != k - 1
    ensures var v := Unlinked(w, ring[k - 1], ring[k]);
            && Block(v, ring[m]) && v.next[ring[m]] == ring[Succ(ring, m)]
            && (m + 1 < |ring| ==> Before(v, ring[m], ring[m + 1]) && ring[m] + v.unitN[ring[m]] != ring[m + 1])
  {
    if m < k - 1 { RingOrder(w, ring, m, k - 1); }
    if k - 1 < m { RingOrder(w, ring, k - 1, m); }
    assert Block(w, ring[m]) && Block(w, ring[k - 1]) && Block(w, ring[k]);
    assert m + 1 < |ring| ==> Before(w, ring[m], ring[m + 1]) && !Touch(w, ring, m);
  }

  /** The block before the one taken off has the next one behind it. */
  lemma UnlinkedBefore(w: Words, ring: seq<nat>, k: nat)
    requires Ring(w, ring) && 0 < k < |ring| && Merged(w, ring, -1, -1)
    ensures var v, p := Unlinked(w, ring[k - 1], ring[k]), ring[k - 1];
            && Block(v, p) && v.next[p] == ring[Succ(ring, k)]
            && (k + 1 < |ring| ==> Before(v, p, ring[k + 1]) && p + v.unitN[p] != ring[k + 1])
  {
    assert Block(w, ring[k - 1]) && Block(w, ring[k]) && Before(w, ring[k - 1], ring[k]);
    assert k + 1 < |ring| ==> Before(w, ring[k], ring[k + 1]);
  }

  lemma UnlinkedAt(w: Words, ring: seq<nat>, k: nat, i: nat)
    requires Ring(w, ring) && 0 < k < |ring| && Merged(w, ring, -1, -1) && i < |ring| - 1
    ensures var v, r := Unlinked(w, ring[k - 1], ring[k]), Drop(ring, k);
            && Block(v, r[i]) && v.next[r[i]] == r[Succ(r, i)]
            && (i + 1 < |r| ==> Before(v, r[i], r[i + 1]) && r[i] + v.unitN[r[i]] != r[i + 1])
  {
    hide Drop, Block, Before, Ring;
    var r := Drop(ring, k);
    DropAt(ring, k, i);
    DropAt(ring, k, Succ(r, i));
    RingBounds(w, ring, k);
    if i == k - 1 {
      UnlinkedBefore(w, ring, k);
    } else {
      var m := if i < k then i else i + 1;
      UnlinkedOther(w, ring, k, m);
    }
  }

  lemma RingBounds(w: Words, ring: seq<nat>, k: nat)
    requires Ring(w, ring) && k < |ring|
    ensures WordsOk(w) && forall i :: 0 <= i < |ring| ==> ring[i] < |w.next|
  {
    assert forall i :: 0 <= i < |ring| ==> Block(w, ring[i]);
  }

  lemma UnlinkedRing(w: Words, ring: seq<nat>, k: nat)
    requires Ring(w, ring) && 0 < k < |ring| && Merged(w, ring, -1, -1)
    ensures Ring(Unlinked(w, ring[k - 1], ring[k]), Drop(ring, k))
    ensures Merged(Unlinked(w, ring[k - 1], ring[k]), Drop(ring, k), -1, -1)
  {
    var v, r := Unlinked(w, ring[k - 1], ring[k]), Drop(ring, k);
    forall i | 0 <= i < |r|
      ensures Block(v, r[i]) && v.next[r[i]] == r[Succ(r, i)]
      ensures i + 1 < |r| ==> Before(v, r[i], r[i + 1]) && r[i] + v.unitN[r[i]] != r[i + 1]
    {
      UnlinkedAt(w, ring, k, i);
    }
    hide Unlinked, Drop, Block, Before;
  }

  /** The first `n` units of the block `p` taken off the ring, the rest staying in its place. */
  function Carved(w: Words, pre: nat, p: nat, n: nat): (r: Words)
    requires WordsOk(w) && pre < |w.next| && p < |w.next| && p + n < |w.next|
  {
    Words(w.unitN[p + n := w.unitN[p] - n][p := n], w.next[pre := p + n][p + n := w.next[p]])
  }

  lemma CarvedAt(w: Words, ring: seq<nat>, k: nat, n: nat, i: nat)
    requires Ring(w, ring) && 0 < k < |ring| && Merged(w, ring, -1, -1) && i < |ring|
    requires Block(w, ring[k]) && 1 <= n < w.unitN[ring[k]]
    ensures Block(w, ring[k - 1])
    ensures var v, r := Carved(w, ring[k - 1], ring[k], n), ring[k := ring[k] + n];
            && Block(v, r[i]) && v.next[r[i]] == r[Succ(r, i)]
            && (i + 1 < |r| ==> Before(v, r[i], r[i + 1]) && r[i] + v.unitN[r[i]] != r[i + 1])
  {
    if i < k - 1 { RingOrder(w, ring, i, k - 1); }
    if k - 1 < i { RingOrder(w, ring, k - 1, i); }
    if i < k { RingOrder(w, ring, i, k); }
    if k < i { RingOrder(w, ring, k, i); }
    assert Block(w, ring[i]) && Block(w, ring[k - 1]);
    assert i + 1 < |ring| ==> Before(w, ring[i], ring[i + 1]) && !Touch(w, ring, i);
  }

  lemma CarvedRing(w: Words, ring: seq<nat>, k: nat, n: nat)
    requires Ring(w, ring) && 0 < k < |ring| && Merged(w, ring, -1, -1)
    requires Block(w, ring[k]) && 1 <= n < w.unitN[ring[k]]
    ensures Block(w, ring[k - 1])
    ensures Ring(Carved(w, ring[k - 1], ring[k], n), ring[k := ring[k] + n])
    ensures Merged(Carved(w, ring[k - 1], ring[k], n), ring[k := ring[k] + n], -1, -1)
  {
    assert Block(w, ring[k - 1]);
    var v, r := Carved(w, ring[k - 1], ring[k], n), ring[k := ring[k] + n];
    forall i | 0 <= i < |r|
      ensures Block(v, r[i]) && v.next[r[i]] == r[Succ(r, i)]
      ensures i + 1 < |r| ==> Before(v, r[i], r[i + 1]) && r[i] + v.unitN[r[i]] != r[i + 1]
    {
      CarvedAt(w, ring, k, n, i);
    }
    hide Carved, Block, Before;
  }
}
