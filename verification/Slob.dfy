/** The allocator of slob.c for blocks of less than a page. Addresses count units of 16 bytes, 256 to a page. */
module Slob {
  import opened FreeRing
  import opened Tiles
  import PagePool

  /** `get_unit_n`. */
  function UnitN(size: nat): (n: nat)
    ensures 16 * n - 16 < size <= 16 * n
  {
    (size + 15) / 16
  }

  /** Unit `u` belongs to a block that is handed out or lies outside the pages of this allocator. */
  ghost predicate Theirs(live: Tiling, own: set<nat>, sentinel: nat, u: nat) {
    Covers(live, u) || (u != sentinel && u / 256 !in own)
  }

  /** The words of all live blocks, and of everything outside the pages of this allocator, are as they were. */
  ghost predicate KeepsWords(w: Words, w': Words, live: Tiling, own: set<nat>, sentinel: nat) {
    && WordsOk(w) && WordsOk(w') && |w'.unitN| == |w.unitN|
    && forall u: nat :: u < |w.unitN| && Theirs(live, own, sentinel, u) ==>
                          w'.unitN[u] == w.unitN[u] && w'.next[u] == w.next[u]
  }

  /** The free blocks are blocks of the tiling. */
  ghost predicate FreeTiles(w: Words, ring: seq<nat>, tiles: Tiling)
    requires WordsOk(w)
  {
    forall a :: a in ring ==> a in tiles && a < |w.unitN| && tiles[a] == w.unitN[a]
  }

  /** The tiling covers the sentinel and the pages `own` and nothing else. */
  ghost predicate Tight(tiles: Tiling, own: set<nat>, sentinel: nat) {
    Tiled(tiles) && forall u: int :: Covers(tiles, u) <==> u == sentinel || (0 <= u && u / 256 in own)
  }

  ghost predicate PagesAbove(own: set<nat>, sentinel: nat, size: nat) {
    forall p :: p in own ==> p * 256 > sentinel + 1 && p * 256 + 256 <= size
  }

  /** The list of free blocks is one cycle that begins with the sentinel, merged but for two places, and fits the
      tiling. */
  ghost predicate Nearly(w: Words, ring: seq<nat>, tiles: Tiling, own: set<nat>, sentinel: nat, k: int, m: int) {
    && Ring(w, ring) && Merged(w, ring, k, m)
    && ring[0] == sentinel < |w.unitN| && w.unitN[sentinel] == 1
    && FreeTiles(w, ring, tiles) && Tight(tiles, own, sentinel) && PagesAbove(own, sentinel, |w.unitN|)
  }

  ghost predicate Sound(w: Words, head: nat, ring: seq<nat>, tiles: Tiling, own: set<nat>, sentinel: nat) {
    Nearly(w, ring, tiles, own, sentinel, -1, -1) && head in ring
  }

  /** The blocks that are not free. */
  ghost function Live(tiles: Tiling, ring: seq<nat>): (live: Tiling) { map a | a in tiles && a !in ring :: tiles[a] }

  /** Some free block has `n` units. */
  ghost predicate HasFit(w: Words, ring: seq<nat>, n: int) { exists a :: a in ring && a < |w.unitN| && w.unitN[a] >= n }

  // ---------------------------------------------------------------- conservation

  ghost function Free(tiles: Tiling, ring: seq<nat>): (free: Tiling) { map a | a in tiles && a in ring :: tiles[a] }

  ghost predicate OfPage(own: set<nat>, u: int) { 0 <= u && u / 256 in own }

  ghost function PageUnits(own: set<nat>, size: nat): (s: set<int>) { set u: int | 0 <= u < size && OfPage(own, u) }

  lemma {:induction false} PageUnitsSize(own: set<nat>, size: nat)
    requires forall p :: p in own ==> 256 * p + 256 <= size
    ensures |PageUnits(own, size)| == 256 * |own|
  {
    if own == {} {
      assert PageUnits(own, size) == {};
    } else {
      var p :| p in own;
      PageUnitsSize(own - {p}, size);
      var span := Span(256 * p, 256 * p + 256);
      hide Span;
      forall u: int ensures OfPage(own, u) <==>
        OfPage(own - {p}, u) || u in span ensures !(OfPage(own - {p}, u) && u in span) {
        assert u in span <==> 0 <= u && u / 256 == p;
      }
      hide OfPage;
      assert PageUnits(own, size) == PageUnits(own - {p}, size) + span && PageUnits(own - {p}, size) !! span;
    }
  }

  /** Free units and units handed out are one, the sentinel's, and those of all pages obtained. */
  lemma UnitsConserved(w: Words, head: nat, ring: seq<nat>, tiles: Tiling, own: set<nat>, sentinel: nat)
    requires Sound(w, head, ring, tiles, own, sentinel)
    ensures var n := |w.unitN|; var free, live := Free(tiles, ring), Live(tiles, ring);
            Tiled(free) && Tiled(live) && Inside(free, n) && Inside(live, n)
              && Units(free, n) + Units(live, n) == 1 + 256 * |own|
  {
    var n, free, live := |w.unitN|, Free(tiles, ring), Live(tiles, ring);
    TilesInside(w, head, ring, tiles, own, sentinel);
    forall u: int
      ensures Covers(free, u) || Covers(live, u) <==> u == sentinel || OfPage(own, u)
      ensures !(Covers(free, u) && Covers(live, u))
    {
      FreeOrLive(tiles, ring, u);
    }
    PageUnitsSize(own, n);
    RegionsSum(free, live, n, own, sentinel);
    hide Free, Live, Tiled, Inside, Covers, Sound, OfPage, Region;
    assert Units(free, n) == |Region(free, n)| && Units(live, n) == |Region(live, n)|;
  }

  lemma RegionsSum(free: Tiling, live: Tiling, n: nat, own: set<nat>, sentinel: nat)
    requires forall u: int :: Covers(free, u) || Covers(live, u) <==> u == sentinel || OfPage(own, u)
    requires forall u: int :: !(Covers(free, u) && Covers(live, u))
    requires sentinel < n && !OfPage(own, sentinel)
    ensures |Region(free, n)| + |Region(live, n)| == 1 + |PageUnits(own, n)|
  {
    hide Covers, OfPage;
    var all := {sentinel as int} + PageUnits(own, n);
    assert Region(free, n) + Region(live, n) == all && Region(free, n) !! Region(live, n);
  }

  lemma TilesInside(w: Words, head: nat, ring: seq<nat>, tiles: Tiling, own: set<nat>, sentinel: nat)
    requires Sound(w, head, ring, tiles, own, sentinel)
    ensures sentinel < |w.unitN| && !OfPage(own, sentinel) && Tiled(tiles) && forall p :: p in own ==>
      256 * p + 256 <= |w.unitN|
    ensures Tiled(Free(tiles, ring)) && Inside(Free(tiles, ring), |w.unitN|) && Tiled(Live(tiles, ring))
      && Inside(Live(tiles, ring), |w.unitN|)
    ensures forall u: int :: Covers(tiles, u) <==> u == sentinel || OfPage(own, u)
  {
    forall a | a in tiles ensures a + tiles[a] <= |w.unitN| {
      assert InTile(tiles, a, a + tiles[a] - 1);
      assert Covers(tiles, a + tiles[a] - 1);
    }
    hide Covers, Ring, Merged;
  }

  lemma FreeOrLive(tiles: Tiling, ring: seq<nat>, u: int)
    requires Tiled(tiles)
    ensures Covers(tiles, u) <==> Covers(Free(tiles, ring), u) || Covers(Live(tiles, ring), u)
    ensures !(Covers(Free(tiles, ring), u) && Covers(Live(tiles, ring), u))
  {
    if Covers(tiles, u) {
      var a :| InTile(tiles, a, u);
      assert if a in ring then InTile(Free(tiles, ring), a, u) else InTile(Live(tiles, ring), a, u);
    }
    forall a, b ensures !(InTile(Free(tiles, ring), a, u) && InTile(Live(tiles, ring), b, u)) {
    }
    if Covers(Free(tiles, ring), u) {
      var a :| InTile(Free(tiles, ring), a, u);
      assert InTile(tiles, a, u);
    }
    if Covers(Live(tiles, ring), u) {
      var a :| InTile(Live(tiles, ring), a, u);
      assert InTile(tiles, a, u);
    }
  }

  // ---------------------------------------------------------------- freeing

  /** The place in the ring where a block is put back. */
  ghost predicate Spot(ring: seq<nat>, j: nat, q: nat)
    requires j < |ring|
  {
    ring[j] < q && (j + 1 < |ring| ==> q < ring[j + 1])
  }

  lemma {:induction false} SpotExists(ring: seq<nat>, q: nat, k: nat) returns (j: nat)
    requires 0 < k <= |ring| && ring[0] < q && q !in ring
    requires forall i :: k <= i < |ring| ==> q < ring[i]
    ensures j < |ring| && Spot(ring, j, q)
    decreases k
  {
    if ring[k - 1] < q {
      j := k - 1;
    } else {
      j := SpotExists(ring, q, k - 1);
    }
  }

  /** Every block but the sentinel lies in the pages. */
  lemma InPages(w: Words, ring: seq<nat>, tiles: Tiling, own: set<nat>, sentinel: nat, k: int, m: int, q: nat)
    requires Nearly(w, ring, tiles, own, sentinel, k, m) && q in tiles && q != sentinel
    ensures q > sentinel + 1 && 1 <= tiles[q] && q + tiles[q] <= |w.unitN|
  {
    assert ring[0] in ring;
    hide Ring, Merged;
    var l := q + tiles[q] - 1;
    assert InTile(tiles, q, q) && InTile(tiles, q, l);
    assert Covers(tiles, q) && Covers(tiles, l);
  }

  lemma SpotFits(w: Words, ring: seq<nat>, tiles: Tiling, own: set<nat>, sentinel: nat, q: nat, j: nat)
    requires Nearly(w, ring, tiles, own, sentinel, -1, -1) && q in tiles && j < |ring| && Spot(ring, j, q)
      && q != sentinel
    requires q < |w.unitN| && tiles[q] == w.unitN[q]
    ensures Fits(w, ring, j, q)
  {
    InPages(w, ring, tiles, own, sentinel, -1, -1, q);
    hide Covers;
    assert Block(w, ring[j]);
    assert ring[j] in ring && (j + 1 < |ring| ==> ring[j + 1] in ring);
  }

  lemma InsertIn(ring: seq<nat>, j: nat, q: nat, a: nat)
    requires j < |ring|
    ensures a in Insert(ring, j, q) <==> a in ring || a == q
  {
    assert ring == ring[..j + 1] + ring[j + 1..];
  }

  lemma DropIn(ring: seq<nat>, k: nat, a: nat)
    requires k < |ring| && forall i, j :: 0 <= i < j < |ring| ==> ring[i] < ring[j]
    ensures a in Drop(ring, k) <==> a in ring && a != ring[k]
  {
    assert ring == ring[..k] + [ring[k]] + ring[k + 1..];
  }

  lemma InsertKeeps(w: Words, ring: seq<nat>, tiles: Tiling, own: set<nat>, sentinel: nat, j: nat, q: nat)
    requires Nearly(w, ring, tiles, own, sentinel, -1, -1) && q in tiles && q != sentinel && Fits(w, ring, j, q)
    requires tiles[q] == w.unitN[q] && q !in ring
    ensures Nearly(Linked(w, ring[j], q), Insert(ring, j, q), tiles, own, sentinel, j, j + 1)
    ensures Live(tiles, Insert(ring, j, q)) == Live(tiles, ring) - {q}
  {
    LinkedRing(w, ring, j, q);
    InsertAt(ring, j, q, 0);
    forall a: nat ensures a in Insert(ring, j, q) <==> a in ring || a == q {
      InsertIn(ring, j, q, a);
    }
    assert ring[0] in ring && ring[j] < |w.next|;
    InsertTiles(w, ring, tiles, ring[j], q, Insert(ring, j, q));
    hide Insert, Ring, Merged, Tight, Fits, FreeTiles, Live, PagesAbove;
  }

  lemma InsertTiles(w: Words, ring: seq<nat>, tiles: Tiling, p: nat, q: nat, r: seq<nat>)
    requires WordsOk(w) && FreeTiles(w, ring, tiles) && p < |w.next| && q < |w.next|
    requires q in tiles && tiles[q] == w.unitN[q] && forall a: nat :: a in r <==> a in ring || a == q
    ensures FreeTiles(Linked(w, p, q), r, tiles) && Live(tiles, r) == Live(tiles, ring) - {q}
  {
  }

  /** Joining two free blocks, in the words and in the tiling. */
  lemma AbsorbTiles(w: Words, ring: seq<nat>, tiles: Tiling, a: nat, b: nat, r: seq<nat>)
    requires WordsOk(w) && FreeTiles(w, ring, tiles) && a in ring && b in ring && a != b
    requires forall c: nat :: c in r <==> c in ring && c != b
    ensures FreeTiles(Absorbed(w, a, b), r, JoinTile(tiles, a, b))
    ensures Live(JoinTile(tiles, a, b), r) == Live(tiles, ring)
  {
  }

  lemma AbsorbKeeps(w: Words, ring: seq<nat>, tiles: Tiling, own: set<nat>, sentinel: nat, k: nat, m: int)
    requires 0 < k && k + 1 < |ring| && m < k && Nearly(w, ring, tiles, own, sentinel, m, k) && Touch(w, ring, k)
    ensures ring[k] in tiles && ring[k + 1] in tiles
    ensures Nearly(Absorbed(w, ring[k], ring[k + 1]), Drop(ring, k + 1), JoinTile(tiles, ring[k], ring[k + 1]), own,
      sentinel, m, -1)
    ensures Live(JoinTile(tiles, ring[k], ring[k + 1]), Drop(ring, k + 1)) == Live(tiles, ring)
  {
    AbsorbedRing(w, ring, k, m);
    RingDistinct(w, ring);
    var a, b, r := ring[k], ring[k + 1], Drop(ring, k + 1);
    assert ring[0] in ring && a in ring && b in ring;
    assert a != ring[0] && b != ring[0];
    DropAt(ring, k + 1, 0);
    forall c: nat ensures c in r <==> c in ring && c != b {
      DropIn(ring, k + 1, c);
    }
    AbsorbTiles(w, ring, tiles, a, b, r);
    AbsorbTight(w, ring, tiles, own, sentinel, k);
    assert Absorbed(w, a, b).unitN[sentinel] == 1;
    hide Drop, Ring, Merged, Tight, Touch, FreeTiles, Live, JoinTile, Absorbed;
  }

  lemma AbsorbTight(w: Words, ring: seq<nat>, tiles: Tiling, own: set<nat>, sentinel: nat, k: nat)
    requires Ring(w, ring) && k + 1 < |ring| && FreeTiles(w, ring, tiles) && Tight(tiles, own, sentinel)
      && Touch(w, ring, k)
    ensures ring[k] in tiles && ring[k + 1] in tiles && Tight(JoinTile(tiles, ring[k], ring[k + 1]), own, sentinel)
  {
    assert ring[k] in ring && ring[k + 1] in ring;
    JoinTiles(tiles, ring[k], ring[k + 1]);
    hide Ring, Covers, Tiled, FreeTiles, JoinTile;
  }

  /** `x` lies in a block that is not live. */
  ghost predicate Spare(tiles: Tiling, live: Tiling, x: int) { exists a :: a !in live && InTile(tiles, a, x) }

  /** Writing only into blocks that are not live keeps the words of those that are. */
  lemma KeepsLive(w: Words, w': Words, tiles: Tiling, live: Tiling, own: set<nat>, sentinel: nat)
    requires WordsOk(w) && WordsOk(w') && |w'.unitN| == |w.unitN| && Tight(tiles, own, sentinel)
    requires forall a :: a in live ==> a in tiles && live[a] == tiles[a]
    requires forall u: nat :: u < |w.unitN| && !Spare(tiles, live, u) ==>
      w'.unitN[u] == w.unitN[u] && w'.next[u] == w.next[u]
    ensures KeepsWords(w, w', live, own, sentinel)
  {
    forall u: nat | Spare(tiles, live, u) ensures !Covers(live, u) && Covers(tiles, u) {
      var a :| a !in live && InTile(tiles, a, u);
      forall b: nat ensures !InTile(live, b, u) {
      }
    }
    hide Covers, Spare;
  }

  /** The words after `q` was put back between `p` and the block after it. */
  function Freed(w: Words, p: nat, q: nat): (r: Words)
    requires WordsOk(w) && p < |w.next| && q < |w.next| && 0 <= w.next[p] < |w.next|
  {
    var n := w.next[p];
    var v := Linked(w, p, q);
    var u := if q + v.unitN[q] == n then Absorbed(v, q, n) else v;
    if p + u.unitN[p] == q then Absorbed(u, p, q) else u
  }

  /** Merging forwards, if the block put back touches the one after it. */
  lemma FreedForward(w: Words, ring: seq<nat>, tiles: Tiling, own: set<nat>, sentinel: nat, j: nat)
      returns (v: Words, ring': seq<nat>, tiles': Tiling)
    requires 0 < j < |ring| && Nearly(w, ring, tiles, own, sentinel, j - 1, j)
    requires Block(w, ring[j]) && w.next[ring[j]] >= 0
    ensures w.next[ring[j]] < |w.next|
    ensures v == if ring[j] + w.unitN[ring[j]] == w.next[ring[j]] then Absorbed(w, ring[j], w.next[ring[j]]) else w
    ensures Nearly(v, ring', tiles', own, sentinel, j - 1, -1) && Live(tiles', ring') == Live(tiles, ring)
    ensures |ring'| > j && ring'[j - 1] == ring[j - 1] && ring'[j] == ring[j] && v.unitN[ring[j]] >= w.unitN[ring[j]]
  {
    RingOrder(w, ring, 0, j);
    v, ring', tiles' := w, ring, tiles;
    if ring[j] + w.unitN[ring[j]] == w.next[ring[j]] {
      assert Touch(w, ring, j) && Block(w, ring[j + 1]);
      AbsorbKeeps(w, ring, tiles, own, sentinel, j, j - 1);
      v := Absorbed(w, ring[j], ring[j + 1]);
      ring' := Drop(ring, j + 1);
      tiles' := JoinTile(tiles, ring[j], ring[j + 1]);
    } else {
      assert j + 1 < |ring| ==> !Touch(w, ring, j);
    }
    hide Nearly, Live, JoinTile, Absorbed;
  }

  /** Merging backwards, if the block before it touches the block put back. The sentinel never does. */
  lemma FreedBackward(w: Words, ring: seq<nat>, tiles: Tiling, own: set<nat>, sentinel: nat, j: nat)
      returns (v: Words, ring': seq<nat>, tiles': Tiling)
    requires j + 1 < |ring| && Nearly(w, ring, tiles, own, sentinel, j, -1)
    requires Block(w, ring[j]) && ring[j + 1] < |w.unitN|
    ensures v == if ring[j] + w.unitN[ring[j]] == ring[j + 1] then Absorbed(w, ring[j], ring[j + 1]) else w
    ensures Sound(v, ring[j], ring', tiles', own, sentinel) && Live(tiles', ring') == Live(tiles, ring)
    ensures HasFit(v, ring', w.unitN[ring[j + 1]])
  {
    v, ring', tiles' := w, ring, tiles;
    assert ring[j] in ring && ring[j + 1] in ring;
    if ring[j] + w.unitN[ring[j]] == ring[j + 1] {
      RingOrder(w, ring, 0, j + 1);
      InPages(w, ring, tiles, own, sentinel, j, -1, ring[j + 1]);
      assert Touch(w, ring, j);
      AbsorbKeeps(w, ring, tiles, own, sentinel, j, -1);
      v := Absorbed(w, ring[j], ring[j + 1]);
      ring' := Drop(ring, j + 1);
      tiles' := JoinTile(tiles, ring[j], ring[j + 1]);
      assert ring'[j] == ring[j];
    } else {
      assert !Touch(w, ring, j);
    }
    hide Live, JoinTile, Absorbed, Ring, FreeTiles, Tight;
  }

  lemma FreedKeeps(w: Words, ring: seq<nat>, tiles: Tiling, own: set<nat>, sentinel: nat, j: nat, q: nat)
      returns (ring': seq<nat>, tiles': Tiling)
    requires Nearly(w, ring, tiles, own, sentinel, -1, -1) && q in tiles && q != sentinel && q !in ring && j < |ring|
      && Spot(ring, j, q)
    requires q < |w.unitN| && tiles[q] == w.unitN[q]
    ensures ring[j] < |w.next| && 0 <= w.next[ring[j]] < |w.next|
    ensures Sound(Freed(w, ring[j], q), ring[j], ring', tiles', own, sentinel)
    ensures Live(tiles', ring') == Live(tiles, ring) - {q} && HasFit(Freed(w, ring[j], q), ring', w.unitN[q])
  {
    hide Nearly, Live, JoinTile, Absorbed, Insert, Fits, HasFit, Sound;
    NearlyBlock(w, ring, tiles, own, sentinel, -1, -1, j);
    NearlyBlock(w, ring, tiles, own, sentinel, -1, -1, Succ(ring, j));
    SpotFits(w, ring, tiles, own, sentinel, q, j);
    InsertKeeps(w, ring, tiles, own, sentinel, j, q);
    var v0, r0 := Linked(w, ring[j], q), Insert(ring, j, q);
    InsertAt(ring, j, q, j);
    InsertAt(ring, j, q, j + 1);
    NearlyBlock(v0, r0, tiles, own, sentinel, j, j + 1, j + 1);
    NearlyBlock(v0, r0, tiles, own, sentinel, j, j + 1, Succ(r0, j + 1));
    var v1, r1, t1 := FreedForward(v0, r0, tiles, own, sentinel, j + 1);
    assert Nearly(v1, r1, t1, own, sentinel, j, -1);
    NearlyBlock(v1, r1, t1, own, sentinel, j, -1, j);
    NearlyBlock(v1, r1, t1, own, sentinel, j, -1, j + 1);
    var v2, r2, t2 := FreedBackward(v1, r1, t1, own, sentinel, j);
    ring', tiles' := r2, t2;
    HasFitLess(v2, r2, v1.unitN[q], w.unitN[q]);
  }

  lemma HasFitLess(w: Words, ring: seq<nat>, n: int, m: int)
    requires HasFit(w, ring, n) && m <= n
    ensures HasFit(w, ring, m)
  {
  }

  lemma NearlyBlock(w: Words, ring: seq<nat>, tiles: Tiling, own: set<nat>, sentinel: nat, k: int, m: int, i: nat)
    requires Nearly(w, ring, tiles, own, sentinel, k, m) && i < |ring|
    ensures WordsOk(w) && Block(w, ring[i]) && w.next[ring[i]] == ring[Succ(ring, i)]
  {
  }

  /** The walk of `small_free` stops just at the place of `q`. */
  ghost predicate StopsAt(w: Words, p: nat, q: nat)
    requires WordsOk(w) && p < |w.next|
  {
    (p < q < w.next[p]) || (p >= w.next[p] && (q > p || q < w.next[p]))
  }

  lemma StopsAtSpot(w: Words, ring: seq<nat>, tiles: Tiling, own: set<nat>, sentinel: nat, i: nat, j: nat, q: nat)
    requires Nearly(w, ring, tiles, own, sentinel, -1, -1) && i < |ring| && j < |ring| && Spot(ring, j, q)
    ensures ring[i] < |w.next| && (StopsAt(w, ring[i], q) <==> i == j)
  {
    RingDistinct(w, ring);
    assert Block(w, ring[i]);
    hide Merged, FreeTiles, Tight, PagesAbove;
  }

  /** Blocks from the one after the `h`th round to the `x`th. */
  function Dist(len: nat, h: nat, x: nat): (d: nat)
    requires h < len && x < len
  {
    if x > h then x - h else x + len - h
  }

  // ---------------------------------------------------------------- allocating

  /** The words after `n` units were taken from the block `p`, the one after `pre`. */
  function Took(w: Words, pre: nat, p: nat, n: nat): (r: Words)
    requires WordsOk(w) && pre < |w.next| && p < |w.next| && w.unitN[p] >= n && p + w.unitN[p] <= |w.next|
  {
    if w.unitN[p] == n then Unlinked(w, pre, p) else Carved(w, pre, p, n)
  }

  lemma TakeAll(w: Words, ring: seq<nat>, tiles: Tiling, own: set<nat>, sentinel: nat, k: nat)
    requires 0 < k < |ring| && Nearly(w, ring, tiles, own, sentinel, -1, -1) && Block(w, ring[k])
      && Block(w, ring[k - 1])
    ensures Sound(Unlinked(w, ring[k - 1], ring[k]), ring[k - 1], Drop(ring, k), tiles, own, sentinel)
    ensures ring[k] in tiles && Live(tiles, Drop(ring, k)) == Live(tiles, ring)[ring[k] := tiles[ring[k]]]
  {
    UnlinkedRing(w, ring, k);
    RingDistinct(w, ring);
    assert ring[k] in ring && ring[k - 1] in ring;
    DropAt(ring, k, 0);
    forall c: nat ensures c in Drop(ring, k) <==> c in ring && c != ring[k] {
      DropIn(ring, k, c);
    }
    hide Drop, Ring, Merged, Tight;
  }

  lemma UpdateIn(ring: seq<nat>, k: nat, q: nat, a: nat)
    requires k < |ring| && forall i, j :: 0 <= i < j < |ring| ==> ring[i] < ring[j]
    ensures a in ring[k := q] <==> (a in ring && a != ring[k]) || a == q
  {
    var r := ring[k := q];
    if a in ring && a != ring[k] {
      var i :| 0 <= i < |ring| && ring[i] == a;
      assert r[i] == a;
    }
    assert r[k] == q;
  }

  lemma TakePart(w: Words, ring: seq<nat>, tiles: Tiling, own: set<nat>, sentinel: nat, k: nat, n: nat)
    requires 0 < k < |ring| && Nearly(w, ring, tiles, own, sentinel, -1, -1) && Block(w, ring[k])
      && Block(w, ring[k - 1])
    requires 1 <= n < w.unitN[ring[k]]
    ensures ring[k] in tiles && tiles[ring[k]] == w.unitN[ring[k]]
    ensures Sound(Carved(w, ring[k - 1], ring[k], n), ring[k - 1], ring[k := ring[k] + n],
      SplitTile(tiles, ring[k], n), own, sentinel)
    ensures Live(SplitTile(tiles, ring[k], n), ring[k := ring[k] + n]) == Live(tiles, ring)[ring[k] := n]
  {
    CarvedRing(w, ring, k, n);
    RingDistinct(w, ring);
    var p, r := ring[k], ring[k := ring[k] + n];
    assert p in ring && ring[k - 1] in ring && ring[0] in ring;
    assert p != sentinel && ring[0] == r[0] && ring[k - 1] == r[k - 1];
    TakePartTight(tiles, own, sentinel, p, n);
    forall c: nat ensures c in r <==> (c in ring && c != p) || c == p + n {
      UpdateIn(ring, k, p + n, c);
    }
    assert p + n !in ring;
    assert p + n != sentinel;
    TakePartTiles(w, ring, tiles, p, n, r, ring[k - 1]);
    assert Carved(w, ring[k - 1], p, n).unitN[sentinel] == 1;
    hide Ring, Merged, Tight, FreeTiles, SplitTile, Live, Carved;
  }

  lemma TakePartTight(tiles: Tiling, own: set<nat>, sentinel: nat, p: nat, n: nat)
    requires Tight(tiles, own, sentinel) && p in tiles && 1 <= n < tiles[p]
    ensures Tight(SplitTile(tiles, p, n), own, sentinel) && p + n !in tiles
  {
    SplitTiles(tiles, p, n);
    hide Covers, Tiled, SplitTile;
  }

  lemma TakePartTiles(w: Words, ring: seq<nat>, tiles: Tiling, p: nat, n: nat, r: seq<nat>, pre: nat)
    requires WordsOk(w) && FreeTiles(w, ring, tiles) && p in ring && 1 <= n < w.unitN[p]
      && p + w.unitN[p] <= |w.unitN| && pre < |w.next|
    requires p + n !in tiles && forall c: nat :: c in r <==> (c in ring && c != p) || c == p + n
    ensures FreeTiles(Carved(w, pre, p, n), r, SplitTile(tiles, p, n))
    ensures Live(SplitTile(tiles, p, n), r) == Live(tiles, ring)[p := n]
  {
  }

  lemma TookKeeps(w: Words, ring: seq<nat>, tiles: Tiling, own: set<nat>, sentinel: nat, k: nat, n: nat)
      returns (ring': seq<nat>, tiles': Tiling)
    requires 0 < k < |ring| && Nearly(w, ring, tiles, own, sentinel, -1, -1) && Block(w, ring[k])
      && Block(w, ring[k - 1])
    requires 1 <= n <= w.unitN[ring[k]]
    ensures Sound(Took(w, ring[k - 1], ring[k], n), ring[k - 1], ring', tiles', own, sentinel)
    ensures Live(tiles', ring') == Live(tiles, ring)[ring[k] := n] && ring[k] !in Live(tiles, ring)
    ensures Took(w, ring[k - 1], ring[k], n).unitN[ring[k]] == n
  {
    assert ring[k] in ring && ring[k] in tiles;
    if w.unitN[ring[k]] == n {
      TakeAll(w, ring, tiles, own, sentinel, k);
      ring', tiles' := Drop(ring, k), tiles;
    } else {
      TakePart(w, ring, tiles, own, sentinel, k, n);
      ring', tiles' := ring[k := ring[k] + n], SplitTile(tiles, ring[k], n);
    }
    hide Drop, Nearly, Live, SplitTile;
  }

  lemma FreedFrame(w: Words, ring: seq<nat>, tiles: Tiling, own: set<nat>, sentinel: nat, p: nat, q: nat)
    requires WordsOk(w) && Tight(tiles, own, sentinel) && p in ring && p in tiles && q in tiles
    requires p < |w.next| && q < |w.next| && 0 <= w.next[p] < |w.next|
    ensures KeepsWords(w, Freed(w, p, q), Live(tiles, ring) - {q}, own, sentinel)
  {
    var live := Live(tiles, ring) - {q};
    assert InTile(tiles, p, p) && InTile(tiles, q, q);
    assert Spare(tiles, live, p) && Spare(tiles, live, q);
    hide Spare;
    KeepsLive(w, Freed(w, p, q), tiles, live, own, sentinel);
  }

  lemma TookFrame(w: Words, ring: seq<nat>, tiles: Tiling, own: set<nat>, sentinel: nat, pre: nat, p: nat, n: nat)
    requires WordsOk(w) && Tight(tiles, own, sentinel) && FreeTiles(w, ring, tiles) && p in ring && pre in ring
    requires p + tiles[p] <= |w.next| && 1 <= n <= w.unitN[p]
    ensures KeepsWords(w, Took(w, pre, p, n), Live(tiles, ring), own, sentinel)
  {
    var live := Live(tiles, ring);
    assert InTile(tiles, p, p) && InTile(tiles, pre, pre);
    assert Spare(tiles, live, p) && Spare(tiles, live, pre);
    assert w.unitN[p] > n ==> InTile(tiles, p, p + n);
    assert w.unitN[p] > n ==> Spare(tiles, live, p + n);
    hide Spare;
    KeepsLive(w, Took(w, pre, p, n), tiles, live, own, sentinel);
  }

  /** A page that is not one of the allocator's, as one more block. */
  lemma AddPage(w: Words, ring: seq<nat>, tiles: Tiling, own: set<nat>, sentinel: nat, page: nat, head: nat)
    requires Sound(w, head, ring, tiles, own, sentinel) && page !in own && sentinel + 1 < 256 * page
      && 256 * page + 256 <= |w.unitN|
    ensures Sound(w, head, ring, tiles[256 * page := 256], own + {page}, sentinel)
    ensures 256 * page !in ring && 256 * page !in Live(tiles, ring)
    ensures Live(tiles[256 * page := 256], ring) == Live(tiles, ring)[256 * page := 256]
  {
    AddTile(tiles, 256 * page, 256);
    AddPageTight(tiles, own, sentinel, page);
    hide Ring, Merged, Tight, Tiled, Covers;
  }

  lemma AddPageTight(tiles: Tiling, own: set<nat>, sentinel: nat, page: nat)
    requires Tight(tiles, own, sentinel) && page !in own && sentinel + 1 < 256 * page
    ensures 256 * page !in tiles && Tight(tiles[256 * page := 256], own + {page}, sentinel)
  {
    AddTile(tiles, 256 * page, 256);
    hide Tiled, Covers;
  }

  lemma {:induction false} StopsAtIs(w: Words, p: nat, q: nat)
    requires WordsOk(w) && p < |w.next|
    ensures StopsAt(w, p, q) <==> (p < q < w.next[p]) || (p >= w.next[p] && (q > p || q < w.next[p]))
  {
  }

  /** Words that agree at the free blocks make the same ring. */
  lemma OutsideRing(w: Words, v: Words, ring: seq<nat>)
    requires Ring(w, ring) && Merged(w, ring, -1, -1) && WordsOk(v) && |v.unitN| == |w.unitN|
    requires forall a :: a in ring && a < |w.unitN| ==> v.unitN[a] == w.unitN[a] && v.next[a] == w.next[a]
    ensures Ring(v, ring) && Merged(v, ring, -1, -1)
  {
    forall i | 0 <= i < |ring| ensures Block(v, ring[i]) && v.unitN[ring[i]] == w.unitN[ring[i]]
      && v.next[ring[i]] == ring[Succ(ring, i)] {
      assert ring[i] in ring && Block(w, ring[i]);
    }
    forall i | 0 <= i < |ring| - 1 ensures Before(v, ring[i], ring[i + 1])
      && ring[i] + v.unitN[ring[i]] != ring[i + 1] {
      assert Block(w, ring[i]) && Before(w, ring[i], ring[i + 1]) && !Touch(w, ring, i);
    }
    hide Before, Block;
  }

  /** What is written into units that begin no free block does not concern the list. */
  lemma OutsideWrite(w: Words, v: Words, head: nat, ring: seq<nat>, tiles: Tiling, own: set<nat>, sentinel: nat)
    requires Sound(w, head, ring, tiles, own, sentinel) && WordsOk(v) && |v.unitN| == |w.unitN|
    requires forall a :: a in ring && a < |w.unitN| ==> v.unitN[a] == w.unitN[a] && v.next[a] == w.next[a]
    ensures Sound(v, head, ring, tiles, own, sentinel)
  {
    hide Tight, Tiled, Merged, Ring, WordsOk;
    OutsideRing(w, v, ring);
    assert sentinel in ring by { RingHead(w, ring); }
  }

  lemma RingHead(w: Words, ring: seq<nat>)
    requires Ring(w, ring)
    ensures |ring| > 0 && ring[0] in ring
  {
  }

  lemma HeaderFrame(w: Words, head: nat, ring: seq<nat>, tiles: Tiling, own: set<nat>, sentinel: nat, q: nat, n: nat)
    requires Sound(w, head, ring, tiles, own, sentinel) && q in tiles && q < |w.unitN|
    ensures KeepsWords(w, w.(unitN := w.unitN[q := n]), Live(tiles, ring) - {q}, own, sentinel)
  {
    var live := Live(tiles, ring) - {q};
    assert InTile(tiles, q, q);
    assert Spare(tiles, live, q);
    hide Spare;
    KeepsLive(w, w.(unitN := w.unitN[q := n]), tiles, live, own, sentinel);
  }

  lemma KeepsSelf(w: Words, live: Tiling, own: set<nat>, sentinel: nat)
    requires WordsOk(w)
    ensures KeepsWords(w, w, live, own, sentinel)
  {
  }

  lemma KeepsTrans(w: Words, v: Words, u: Words, live: Tiling, own: set<nat>, sentinel: nat)
    requires KeepsWords(w, v, live, own, sentinel) && KeepsWords(v, u, live, own, sentinel)
    ensures KeepsWords(w, u, live, own, sentinel)
  {
  }

  lemma FreeAbove(w: Words, head: nat, ring: seq<nat>, tiles: Tiling, own: set<nat>, sentinel: nat, q: nat)
    requires Sound(w, head, ring, tiles, own, sentinel) && q in tiles && q !in ring
    ensures q > sentinel + 1 && 1 <= tiles[q] && q + tiles[q] <= |w.unitN|
  {
    assert sentinel in ring by { assert ring[0] == sentinel; }
    InPages(w, ring, tiles, own, sentinel, -1, -1, q);
  }

  lemma FreeStep(w: Words, head: nat, ring: seq<nat>, tiles: Tiling, own: set<nat>, sentinel: nat, j: nat, q: nat)
      returns (ring': seq<nat>, tiles': Tiling)
    requires Sound(w, head, ring, tiles, own, sentinel) && q in tiles && q !in ring && j < |ring| && Spot(ring, j, q)
    requires q < |w.unitN| && tiles[q] == w.unitN[q]
    ensures WordsOk(w) && ring[j] < q && 0 <= w.next[ring[j]] < |w.next|
      && (w.next[ring[j]] <= ring[j] || q < w.next[ring[j]])
    ensures 1 <= w.unitN[q]
    ensures Sound(Freed(w, ring[j], q), ring[j], ring', tiles', own, sentinel)
    ensures Live(tiles', ring') == Live(tiles, ring) - {q} && HasFit(Freed(w, ring[j], q), ring', w.unitN[q])
    ensures KeepsWords(w, Freed(w, ring[j], q), Live(tiles, ring) - {q}, own, sentinel)
  {
    FreeAbove(w, head, ring, tiles, own, sentinel, q);
    NearlyBlock(w, ring, tiles, own, sentinel, -1, -1, j);
    assert ring[j] in ring;
    FreedFrame(w, ring, tiles, own, sentinel, ring[j], q);
    ring', tiles' := FreedKeeps(w, ring, tiles, own, sentinel, j, q);
    hide Nearly, Live, Freed, KeepsWords, HasFit;
  }

  lemma WalkFrom(w: Words, head: nat, ring: seq<nat>, tiles: Tiling, own: set<nat>, sentinel: nat, q: nat)
    returns (i: nat, j: nat)
    requires Sound(w, head, ring, tiles, own, sentinel) && q !in ring && q > sentinel
    ensures WordsOk(w) && i < |ring| && ring[i] == head && j < |ring| && Spot(ring, j, q)
  {
    i :| 0 <= i < |ring| && ring[i] == head;
    hide FreeTiles, Tight, PagesAbove, Merged;
    RingDistinct(w, ring);
    j := SpotExists(ring, q, |ring|);
  }

  lemma LiveBlock(tiles: Tiling, ring: seq<nat>, q: nat)
    ensures q in Live(tiles, ring) <==> q in tiles && q !in ring
    ensures q in Live(tiles, ring) ==> Live(tiles, ring)[q] == tiles[q]
  {
  }

  /** Blocks from the `h`th round to the `i`th. */
  function Steps(len: nat, h: nat, i: nat): (t: nat)
    requires h < len && i < len
  {
    if i >= h then i - h else i + len - h
  }

  lemma StepsBound(len: nat, h: nat, i: nat)
    requires h < len && i < len
    ensures Steps(len, h, i) < len
  {
  }

  /** The blocks after `head` are too small up to the `k`th. */
  ghost predicate NextFit(w: Words, ring: seq<nat>, head: nat, k: nat, n: nat)
    requires k < |ring|
  {
    exists h :: 0 <= h < |ring| && ring[h] == head
      && forall x :: 0 <= x < |ring| && Dist(|ring|, h, x) < Dist(|ring|, h, k) ==> TooSmall(w, ring[x], n)
  }

  /** The blocks that a search from `ring[h]` has seen when it stands at `ring[i]` are too small. */
  ghost predicate Seen(w: Words, ring: seq<nat>, h: nat, i: nat, n: nat)
    requires h < |ring| && i < |ring|
  {
    forall x :: 0 <= x < |ring| && Dist(|ring|, h, x) <= Steps(|ring|, h, i) ==> TooSmall(w, ring[x], n)
  }

  lemma SeenNone(w: Words, ring: seq<nat>, h: nat, n: nat)
    requires h < |ring|
    ensures Seen(w, ring, h, h, n)
  {
  }

  /** One block more, or all of them. */
  lemma SeenMore(w: Words, ring: seq<nat>, h: nat, i: nat, n: nat)
    requires h < |ring| && i < |ring| && Seen(w, ring, h, i, n) && TooSmall(w, ring[Succ(ring, i)], n)
    ensures Succ(ring, i) != h ==>
      Seen(w, ring, h, Succ(ring, i), n) && Steps(|ring|, h, Succ(ring, i)) == Steps(|ring|, h, i) + 1
    ensures Succ(ring, i) == h ==> !HasFit(w, ring, n)
  {
    if Succ(ring, i) == h {
      forall x | 0 <= x < |ring| ensures TooSmall(w, ring[x], n) {
        assert x != h ==> Dist(|ring|, h, x) <= Steps(|ring|, h, i);
      }
    }
  }

  lemma SeenAll(w: Words, ring: seq<nat>, head: nat, h: nat, i: nat, n: nat)
    requires h < |ring| && i < |ring| && Seen(w, ring, h, i, n) && ring[h] == head
    ensures NextFit(w, ring, head, Succ(ring, i), n)
  {
    NextFitAt(w, ring, head, h, Succ(ring, i), n);
  }

  lemma NextFitAt(w: Words, ring: seq<nat>, head: nat, h: nat, k: nat, n: nat)
    requires k < |ring| && h < |ring| && ring[h] == head
    requires forall x :: 0 <= x < |ring| && Dist(|ring|, h, x) < Dist(|ring|, h, k) ==> TooSmall(w, ring[x], n)
    ensures NextFit(w, ring, head, k, n)
  {
  }

  lemma FitAt(w: Words, ring: seq<nat>, k: nat, n: nat)
    requires k < |ring| && ring[k] < |w.unitN| && w.unitN[ring[k]] >= n
    ensures HasFit(w, ring, n)
  {
  }

  lemma ObtainedNone(pages: seq<PagePool.Page>, own: set<nat>)
    ensures Obtained(pages, pages, own, own)
  {
  }

  ghost predicate TooSmall(w: Words, a: nat, n: nat) { a < |w.unitN| && w.unitN[a] < n }

  lemma TakeStep(w: Words, head: nat, ring: seq<nat>, tiles: Tiling, own: set<nat>, sentinel: nat, k: nat, n: nat)
      returns (ring': seq<nat>, tiles': Tiling)
    requires Sound(w, head, ring, tiles, own, sentinel) && 0 < k < |ring| && ring[k] < |w.unitN|
      && 1 <= n <= w.unitN[ring[k]]
    ensures WordsOk(w) && ring[k - 1] < ring[k] && ring[k] + w.unitN[ring[k]] <= |w.next|
    ensures Sound(Took(w, ring[k - 1], ring[k], n), ring[k - 1], ring', tiles', own, sentinel)
    ensures Live(tiles', ring') == Live(tiles, ring)[ring[k] := n] && ring[k] !in Live(tiles, ring)
    ensures Took(w, ring[k - 1], ring[k], n).unitN[ring[k]] == n
    ensures KeepsWords(w, Took(w, ring[k - 1], ring[k], n), Live(tiles, ring), own, sentinel)
  {
    NearlyBlock(w, ring, tiles, own, sentinel, -1, -1, k);
    NearlyBlock(w, ring, tiles, own, sentinel, -1, -1, k - 1);
    RingOrder(w, ring, k - 1, k);
    assert ring[k] in ring && ring[k - 1] in ring;
    TookFrame(w, ring, tiles, own, sentinel, ring[k - 1], ring[k], n);
    ring', tiles' := TookKeeps(w, ring, tiles, own, sentinel, k, n);
    hide Nearly, Live, Took, KeepsWords;
  }

  /** At most one page, which was free, was added to `own`, and the other pages are as they were. */
  ghost predicate Obtained(pages: seq<PagePool.Page>, pages': seq<PagePool.Page>, own: set<nat>, own': set<nat>) {
    && |pages'| == |pages| && (own' == own || exists page: nat :: page !in own && own' == own + {page})
    && (forall q: nat :: q in own' && q !in own ==> q < |pages| && pages[q].flag == PagePool.Free)
    && (forall q: nat :: q < |pages| ==>
      pages'[q].flag == if q in own' && q !in own then PagePool.Used else pages[q].flag)
  }

  /** The units of live blocks, and of pages that are not the allocator's, begin no free block. */
  lemma NotFree(w: Words, head: nat, ring: seq<nat>, tiles: Tiling, own: set<nat>, sentinel: nat, u: nat)
    requires Sound(w, head, ring, tiles, own, sentinel)
    requires Theirs(Live(tiles, ring), own, sentinel, u)
    ensures u !in ring
  {
    if u in ring {
      assert InTile(tiles, u, u);
      assert Covers(tiles, u);
      forall b: nat ensures !InTile(Live(tiles, ring), b, u) {
      }
      assert false;
    }
  }

  /** Memory after `memset(start, 0, 8 * count)`. */
  ghost function Wiped(w: Words, start: nat, count: nat): (r: Words)
    requires WordsOk(w)
    ensures WordsOk(r) && |r.unitN| == |w.unitN|
  {
    Words(seq(|w.unitN|, u requires 0 <= u < |w.unitN| => if start <= u && 2 * (u - start) < count then 0
      else w.unitN[u]),
          seq(|w.next|, u requires 0 <= u < |w.next| => if start <= u && 2 * (u - start) + 1 < count then 0
            else w.next[u]))
  }

  lemma LiveInPages(w: Words, head: nat, ring: seq<nat>, tiles: Tiling, own: set<nat>, sentinel: nat)
    requires Sound(w, head, ring, tiles, own, sentinel)
    ensures Tiled(Live(tiles, ring)) && Inside(Live(tiles, ring), |w.unitN|)
    ensures forall u: int :: Covers(Live(tiles, ring), u) ==> u != sentinel && 0 <= u && u / 256 in own
  {
    TilesInside(w, head, ring, tiles, own, sentinel);
    assert sentinel in ring by { assert ring[0] == sentinel; }
    forall u: int | Covers(Live(tiles, ring), u) ensures u != sentinel && 0 <= u && u / 256 in own {
      FreeOrLive(tiles, ring, u);
      if u == sentinel {
        NotFree(w, head, ring, tiles, own, sentinel, sentinel);
        assert false;
      }
    }
  }

  /** The pool's blocks after a request that only asks for a page if nothing fits. */
  ghost function PagesLeft(bs: seq<PagePool.Block>, fits: bool): (r: seq<PagePool.Block>) {
    if fits then bs else PagePool.LessPage(bs)
  }

  class Slob {
    const pool: PagePool.Pool
    const sentinel: nat
    var unitN: seq<int>
    var next: seq<int>
    var head: nat
    ghost var ring: seq<nat>
    ghost var tiles: Tiling
    ghost var own: set<nat>

    ghost predicate Valid()
      reads this, pool, pool.pages
    {
      && pool.Valid() && |unitN| == 256 * pool.pages.Length && sentinel + 1 < 256 * pool.first
      && Sound(Words(unitN, next), head, ring, tiles, own, sentinel)
      && forall p :: p in own ==> p < pool.pages.Length && pool.pages[p].flag == PagePool.Used
    }

    /** The blocks that are handed out, with their lengths. */
    ghost function LiveBlocks(): (live: Tiling)
      reads this
    {
      Live(tiles, ring)
    }

    ghost function Memory(): (w: Words)
      reads this
    {
      Words(unitN, next)
    }

    /** `slob_init`: the list holds the sentinel alone, a block of one unit that is no page's. */
    constructor (pool: PagePool.Pool, sentinel: nat, memory: Words)
      requires pool.Valid() && WordsOk(memory) && |memory.unitN| == 256 * pool.pages.Length
        && sentinel + 1 < 256 * pool.first
      requires pool.first <= pool.pages.Length
      ensures Valid() && this.pool == pool && this.sentinel == sentinel && own == {} && LiveBlocks() == map[]
      ensures head == sentinel && ring == [sentinel]
    {
      this.pool := pool;
      this.sentinel := sentinel;
      unitN := memory.unitN[sentinel := 1];
      next := memory.next[sentinel := sentinel];
      head := sentinel;
      ring := [sentinel];
      tiles := map[sentinel := 1];
      own := {};
      new;
      assert InTile(tiles, sentinel, sentinel);
    }

    /** The walk of `small_free` to the block after which `q` belongs. */
    method FindSpot(q: nat) returns (p: nat, ghost j: nat)
      requires Valid() && q !in ring && q > sentinel
      ensures j < |ring| && p == ring[j] && Spot(ring, j, q)
    {
      hide PagePool.Pool.Valid, PagePool.Pool.Blocks, Sound, Spot, StopsAt;
      ghost var w := Words(unitN, next);
      ghost var i: nat;
      i, j := WalkFrom(w, head, ring, tiles, own, sentinel, q);
      p := head;
      WalkStep(i, j, q);
      while !(p < q < next[p]) && !(p >= next[p] && (q > p || q < next[p]))
        invariant 0 <= i < |ring| && p == ring[i] < |next| && (StopsAt(w, p, q) <==> i == j)
          && 0 <= next[p] == ring[Succ(ring, i)]
        decreases if i == j then 0 else Dist(|ring|, i, j)
      {
        assert !StopsAt(w, p, q) by { StopsAtIs(w, p, q); }
        p := next[p];
        i := Succ(ring, i);
        WalkStep(i, j, q);
      }
      assert StopsAt(w, p, q) by { StopsAtIs(w, p, q); }
    }

    lemma WalkStep(i: nat, j: nat, q: nat)
      requires Valid() && i < |ring| && j < |ring| && Spot(ring, j, q)
      ensures ring[i] < |next| && next[ring[i]] == ring[Succ(ring, i)]
      ensures StopsAt(Words(unitN, next), ring[i], q) <==> i == j
    {
      StopsAtSpot(Words(unitN, next), ring, tiles, own, sentinel, i, j, q);
      NearlyBlock(Words(unitN, next), ring, tiles, own, sentinel, -1, -1, i);
    }

    /** The links of `small_free`: `q` comes after `p`, merged with the blocks on either side that it touches. */
    method Splice(p: nat, q: nat)
      requires |unitN| == |next| && p < q < |next| && 0 <= next[p] < |next| && (next[p] <= p || q < next[p])
      requires 1 <= unitN[q]
      modifies `unitN, `next, `head
      ensures Memory() == Freed(old(Memory()), p, q) && head == p
    {
      var n := next[p];
      if q + unitN[q] == n {
        unitN := unitN[q := unitN[q] + unitN[n]];
        next := next[q := next[n]];
      } else {
        next := next[q := n];
      }
      if p + unitN[p] == q {
        unitN := unitN[p := unitN[p] + unitN[q]];
        next := next[p := next[q]];
      } else {
        next := next[p := q];
      }
      head := p;
    }

    /** `small_free`: the block of `size` bytes at `q`, or the one whose header is there if `size` is 0, is free
        again. */
    method SmallFree(q: nat, size: nat)
      requires Valid() && q in LiveBlocks() && q < |unitN| && LiveBlocks()[q] == if size == 0 then unitN[q]
        else UnitN(size)
      modifies `unitN, `next, `head, `ring, `tiles
      ensures Valid() && LiveBlocks() == old(LiveBlocks()) - {q}
      ensures KeepsWords(old(Memory()), Memory(), LiveBlocks(), own, sentinel)
      ensures HasFit(Memory(), ring, old(LiveBlocks())[q])
    {
      hide HasFit, PagePool.Pool.Valid, PagePool.Pool.Blocks, Sound, Live, Freed, KeepsWords, Spot, StopsAt;
      LiveBlock(tiles, ring, q);
      Sizes();
      ghost var w := Words(unitN, next);
      HeaderFrame(w, head, ring, tiles, own, sentinel, q, tiles[q]);
      FreeAbove(w, head, ring, tiles, own, sentinel, q);
      OutsideWrite(w, w.(unitN := w.unitN[q := tiles[q]]), head, ring, tiles, own, sentinel);
      if size != 0 {
        unitN := unitN[q := UnitN(size)];
      }
      ghost var v := Words(unitN, next);
      assert Sound(v, head, ring, tiles, own, sentinel);
      var p, j := FindSpot(q);
      ghost var ring', tiles' := FreeStep(v, head, ring, tiles, own, sentinel, j, q);
      Splice(p, q);
      KeepsTrans(w, v, Words(unitN, next), Live(tiles, ring) - {q}, own, sentinel);
      ring, tiles := ring', tiles';
    }

    lemma HeadAt() returns (h: nat)
      requires Valid()
      ensures h < |ring| && ring[h] == head
    {
      h :| 0 <= h < |ring| && ring[h] == head;
    }

    lemma ScanStep(h: nat, i: nat)
      requires Valid() && h < |ring| && ring[h] == head && i < |ring|
      ensures ring[i] < |next| == |unitN| && next[ring[i]] == ring[Succ(ring, i)] && ring[Succ(ring, i)] < |unitN|
      ensures ring[Succ(ring, i)] == head ==> Succ(ring, i) == h
      ensures unitN[ring[Succ(ring, i)]] >= 1
    {
      var w := Words(unitN, next);
      NearlyBlock(w, ring, tiles, own, sentinel, -1, -1, i);
      NearlyBlock(w, ring, tiles, own, sentinel, -1, -1, Succ(ring, i));
      RingDistinct(w, ring);
    }

    /** The pool has no page left just if it lists no block. */
    lemma NoneLeft()
      requires pool.Valid()
      ensures (forall i :: 0 <= i < |pool.Blocks()| ==> pool.Blocks()[i].size < 1) <==> pool.Blocks() == []
      ensures forall i :: 0 <= i < |pool.Blocks()| ==> pool.Blocks()[i].size >= 1
    {
      PagePool.BlocksInside(pool.Blocks(), pool.pages[..], pool.first, pool.pageNum);
    }

    /** Blocks that are handed out lie apart, in pages of this allocator. */
    lemma LiveApart()
      requires Valid()
      ensures Tiled(LiveBlocks()) && Inside(LiveBlocks(), |unitN|)
      ensures forall u: int :: Covers(LiveBlocks(), u) ==> u != sentinel && 0 <= u && u / 256 in own
    {
      LiveInPages(Words(unitN, next), head, ring, tiles, own, sentinel);
    }

    lemma AboveSentinel(r: nat)
      requires Valid() && r in LiveBlocks()
      ensures r > 0 && r + LiveBlocks()[r] <= |unitN| == |next|
    {
      FreeAbove(Words(unitN, next), head, ring, tiles, own, sentinel, r);
    }

    lemma Extent()
      requires Valid()
      ensures |unitN| == |next| == 256 * pool.pages.Length && sentinel + 1 < 256 * pool.first
    {
    }

    lemma Sizes()
      requires Valid()
      ensures WordsOk(Memory())
    {
    }

    lemma SentinelSmall()
      requires Valid()
      ensures |ring| > 0 && ring[0] < |unitN| == |next| && unitN[ring[0]] == 1 && ring[0] == sentinel
    {
    }

    /** The search of `small_alloc`: once round the list for the first block of `n` units. */
    method Scan(n: nat) returns (found: bool, pre: nat, p: nat, ghost k: nat)
      requires Valid() && n >= 1
      ensures found <==> HasFit(Memory(), ring, n)
      ensures found ==> k < |ring| && p == ring[k] && p < |unitN| && unitN[p] >= n && (n >= 2 ==> k > 0)
      ensures found && k > 0 ==> pre == ring[k - 1]
      ensures found ==> NextFit(Memory(), ring, head, k, n)
      ensures n == 1 ==> found && pre == head < |next| && p == next[head]
    {
      hide PagePool.Pool.Valid, PagePool.Pool.Blocks, Sound, NextFit, HasFit, Valid, Seen, Steps;
      ghost var h := HeadAt();
      ghost var i := h;
      k, found := 0, false;
      ScanStep(h, i);
      SeenNone(Memory(), ring, h, n);
      pre := head;
      p := next[pre];
      while unitN[p] < n
        invariant 0 <= i < |ring| && pre == ring[i] && p == ring[Succ(ring, i)] && p < |unitN| == |next|
        invariant Seen(Memory(), ring, h, i, n)
        invariant p == head ==> Succ(ring, i) == h
        invariant n == 1 ==> unitN[p] >= 1 && pre == head && p == next[head]
        decreases |ring| - Steps(|ring|, h, i)
      {
        StepsBound(|ring|, h, i);
        SeenMore(Memory(), ring, h, i, n);
        if p == head {
          return;
        }
        i := Succ(ring, i);
        ScanStep(h, i);
        pre, p := p, next[p];
      }
      found := true;
      k := Succ(ring, i);
      SentinelSmall();
      SeenAll(Memory(), ring, head, h, i, n);
      FitAt(Memory(), ring, k, n);
    }

    /** What `small_alloc` does with the block `p` it found, the one after `pre`. */
    method Cut(pre: nat, p: nat, n: nat)
      requires |unitN| == |next| && pre < |next| && p < |next| && n >= 1 && p + unitN[p] <= |next|
      requires unitN[p] == n || (pre < p && unitN[p] > n)
      modifies `unitN, `next, `head
      ensures Memory() == Took(old(Memory()), pre, p, n) && head == pre
    {
      if unitN[p] == n {
        next := next[pre := next[p]];
      } else {
        next := next[pre := p + n];
        unitN := unitN[p + n := unitN[p] - n];
        next := next[p + n := next[p]];
        unitN := unitN[p := n];
      }
      head := pre;
    }

    /** The page that was just taken from the pool becomes a free block. */
    method AddFree(page: nat)
      requires Valid() && pool.first <= page < pool.pages.Length && page !in own
        && pool.pages[page].flag == PagePool.Used
      modifies this
      ensures Valid() && LiveBlocks() == old(LiveBlocks()) && HasFit(Memory(), ring, 256) && own == old(own) + {page}
      ensures KeepsWords(old(Memory()), Memory(), LiveBlocks(), own, sentinel)
    {
      hide Sound, Live, KeepsWords, HasFit, PagePool.Pool.Valid;
      ghost var live := LiveBlocks();
      AddPage(Memory(), ring, tiles, own, sentinel, page, head);
      tiles, own := tiles[256 * page := 256], own + {page};
      assert LiveBlocks() - {256 * page} == live;
      SmallFree(256 * page, 4096);
    }

    lemma FirstTaken(bs: seq<PagePool.Block>, bs': seq<PagePool.Block>)
      requires forall i :: 0 <= i < |bs| ==> bs[i].size >= 1
      requires exists k: nat :: PagePool.FirstFit(bs, 1, k) && bs' == PagePool.Taken(bs, k, 1)
      ensures bs' == PagePool.LessPage(bs)
    {
      hide PagePool.Taken;
    }

    /** A page of the pool that was free, or -1. */
    method FetchPage() returns (p: int)
      requires pool.Valid()
      modifies pool, pool.pages
      ensures pool.Valid() && (p == -1 <==> old(pool.Blocks()) == [])
      ensures pool.Blocks() == PagePool.LessPage(old(pool.Blocks()))
      ensures p == -1 ==> pool.pages[..] == old(pool.pages[..])
      ensures p != -1 ==> pool.first <= p < pool.pages.Length && old(pool.pages[..])[p].flag == PagePool.Free
      ensures p != -1 ==> forall q: nat :: q < pool.pages.Length ==>
                            pool.pages[..][q].flag == if q == p then PagePool.Used else old(pool.pages[..])[q].flag
    {
      hide *;
      NoneLeft();
      ghost var bs := pool.Blocks();
      p := pool.AllocPages(1);
      if p == -1 {
        NothingLess(bs);
      } else {
        FirstTaken(bs, pool.Blocks());
      }
    }

    lemma NothingLess(bs: seq<PagePool.Block>)
      requires bs == []
      ensures PagePool.LessPage(bs) == bs
    {
    }

    /** A page of the pool, if there is one, becomes a free block. */
    method Fetch() returns (ok: bool, ghost page: nat)
      requires Valid()
      modifies this, pool, pool.pages
      ensures Valid() && LiveBlocks() == old(LiveBlocks()) && (ok <==> old(pool.Blocks()) != [])
      ensures !ok ==>
        Memory() == old(Memory()) && own == old(own) && ring == old(ring) && pool.pages[..] == old(pool.pages[..])
      ensures ok ==> HasFit(Memory(), ring, 256) && page !in old(own) && own == old(own) + {page}
      ensures ok ==> page < pool.pages.Length && old(pool.pages[..])[page].flag == PagePool.Free
      ensures ok ==> forall q: int :: 0 <= q < pool.pages.Length ==>
                       pool.pages[q].flag == if q == page then PagePool.Used else old(pool.pages[..])[q].flag
      ensures pool.Blocks() == PagePool.LessPage(old(pool.Blocks()))
      ensures KeepsWords(old(Memory()), Memory(), LiveBlocks(), own, sentinel)
    {
      NoneLeft();
      KeepsSelf(Memory(), LiveBlocks(), own, sentinel);
      hide Sound, Live, KeepsWords, HasFit, PagePool.Pool.Valid, PagePool.LessPage;
      ok, page := false, 0;
      var start := FetchPage();
      if start == -1 {
        return;
      }
      ok, page := true, start;
      AddFree(start);
    }

    /** When nothing fits, `small_alloc` gets a page and goes on from the block before it, which cannot fail again. */
    method Refill(n: nat) returns (ok: bool, pre: nat, q: nat, ghost k: nat)
      requires Valid() && 2 <= n <= 256
      modifies this, pool, pool.pages
      ensures Valid() && LiveBlocks() == old(LiveBlocks())
        && KeepsWords(old(Memory()), Memory(), LiveBlocks(), own, sentinel)
      ensures Obtained(old(pool.pages[..]), pool.pages[..], old(own), own)
      ensures ok <==> old(pool.Blocks()) != []
      ensures !ok ==> Memory() == old(Memory()) && own == old(own)
      ensures ok ==> 0 < k < |ring| && q == ring[k] && pre == ring[k - 1] && q < |unitN| && unitN[q] >= n
      ensures pool.Blocks() == PagePool.LessPage(old(pool.Blocks()))
    {
      hide Sound, Live, KeepsWords, PagePool.Pool.Valid, PagePool.Pool.Blocks, NextFit, PagePool.LessPage;
      ghost var page;
      pre, q, k := 0, 0, 0;
      ok, page := Fetch();
      if ok {
        ok, pre, q, k := Scan(n);
      }
    }

    lemma Unchanged()
      requires Valid()
      ensures KeepsWords(Memory(), Memory(), LiveBlocks(), own, sentinel)
        && Obtained(pool.pages[..], pool.pages[..], own, own)
    {
      ObtainedNone(pool.pages[..], own);
    }

    /** The loop of `small_alloc`, which asks the pool for at most one page. */
    method Room(n: nat) returns (found: bool, pre: nat, q: nat, ghost k: nat)
      requires Valid() && 1 <= n <= 256
      modifies this, pool, pool.pages
      ensures Valid() && LiveBlocks() == old(LiveBlocks())
        && KeepsWords(old(Memory()), Memory(), LiveBlocks(), own, sentinel)
      ensures Obtained(old(pool.pages[..]), pool.pages[..], old(own), own)
      ensures own != old(own) ==> !HasFit(old(Memory()), old(ring), n)
      ensures pool.Blocks() == PagesLeft(old(pool.Blocks()), HasFit(old(Memory()), old(ring), n))
      ensures !found <==> !HasFit(old(Memory()), old(ring), n) && old(pool.Blocks()) == []
      ensures !found ==> Memory() == old(Memory()) && own == old(own)
      ensures found ==> k < |ring| && q == ring[k] && q < |unitN| && unitN[q] >= n && (n >= 2 ==> k > 0)
      ensures found && k > 0 ==> pre == ring[k - 1]
      ensures n == 1 ==> found && head == old(head) && Memory() == old(Memory()) && own == old(own)
      ensures n == 1 ==> ring == old(ring) && tiles == old(tiles) && pool.pages[..] == old(pool.pages[..])
      ensures n == 1 ==> pre == head < |next| && q == next[head]
      ensures HasFit(old(Memory()), old(ring), n) ==>
        found && ring == old(ring) && k < |ring| && NextFit(old(Memory()), ring, old(head), k, n)
    {
      hide Valid, Sound, Live, KeepsWords, HasFit, PagePool.Pool.Valid, PagePool.Pool.Blocks, NextFit, Obtained;
      hide PagePool.LessPage;
      Unchanged();
      found, pre, q, k := Scan(n);
      if !found {
        found, pre, q, k := Refill(n);
      }
    }

    /** The block after the head of the list is the sentinel. */
    ghost predicate AtEnd()
      reads `head, `next
    {
      head < |next| && next[head] == sentinel
    }

    /** There is always a free unit, that of the sentinel. */
    lemma SomeUnit()
      requires Valid()
      ensures HasFit(Memory(), ring, 1)
    {
      SentinelSmall();
      FitAt(Memory(), ring, 0, 1);
    }

    /** On a list of the sentinel alone, the sentinel comes after the head. */
    lemma Alone()
      requires Valid() && ring == [sentinel]
      ensures head == sentinel && AtEnd()
    {
      NearlyBlock(Memory(), ring, tiles, own, sentinel, -1, -1, 0);
    }

    lemma SentinelFirst(k: nat)
      requires Valid() && k < |ring|
      ensures ring[k] == sentinel <==> k == 0
    {
      RingDistinct(Memory(), ring);
    }

    /** `small_alloc`: `UnitN(size)` units, header included, or -1 if there are neither those nor a page to be had. A
        request of one unit is given the sentinel itself just if that comes after the head of the list. */
    method SmallAlloc(size: nat) returns (p: int)
      requires Valid() && 1 <= UnitN(size) <= 256
      modifies this, pool, pool.pages
      ensures p == sentinel <==> UnitN(size) == 1 && old(AtEnd())
      ensures p == sentinel ==> unitN == old(unitN) && sentinel < |old(next)| && old(head) < |old(next)|
      ensures p == sentinel ==> next == old(next)[old(head) := old(next)[sentinel]] && head == old(head)
      ensures p == sentinel && old(head) == sentinel ==> Valid() && LiveBlocks() == old(LiveBlocks()) && AtEnd()
      ensures p != sentinel ==> Valid() && Obtained(old(pool.pages[..]), pool.pages[..], old(own), own)
      ensures p == -1 <==> !HasFit(old(Memory()), old(ring), UnitN(size)) && old(pool.Blocks()) == []
      ensures p == -1 ==> Memory() == old(Memory()) && LiveBlocks() == old(LiveBlocks()) && own == old(own)
      ensures p != -1 && p != sentinel ==>
        p >= 0 && p !in old(LiveBlocks()) && LiveBlocks() == old(LiveBlocks())[p := UnitN(size)]
      ensures p != -1 && p != sentinel ==> p < |unitN| && unitN[p] == UnitN(size)
      ensures own != old(own) ==> !HasFit(old(Memory()), old(ring), UnitN(size))
      ensures pool.Blocks() == PagesLeft(old(pool.Blocks()), HasFit(old(Memory()), old(ring), UnitN(size)))
      ensures p != sentinel ==> KeepsWords(old(Memory()), Memory(), old(LiveBlocks()), own, sentinel)
      ensures HasFit(old(Memory()), old(ring), UnitN(size)) ==>
        exists k: nat :: k < |old(ring)| && p == old(ring)[k]
          && NextFit(old(Memory()), old(ring), old(head), k, UnitN(size))
                         && (k > 0 ==> head == old(ring)[k - 1])
    {
      var n := UnitN(size);
      ghost var live, w0 := LiveBlocks(), Memory();
      hide Sound, Live, KeepsWords, HasFit, Obtained, PagePool.Pool.Valid, PagePool.Pool.Blocks, PagePool.LessPage,
        NextFit;
      var found, pre, q, k := Room(n);
      if !found {
        return -1;
      }
      SentinelFirst(k);
      SentinelSmall();
      ghost var w, ring', tiles' := Memory(), ring, tiles;
      if k > 0 {
        ring', tiles' := TakeStep(w, head, ring, tiles, own, sentinel, k, n);
      }
      Cut(pre, q, n);
      if k > 0 {
        KeepsTrans(w0, w, Memory(), live, own, sentinel);
        ring, tiles := ring', tiles';
      }
      p := q;
      assert k == 0 && old(head) == sentinel ==> Memory() == w0;
    }

    /** A caller writes the first unit of its own memory. */
    method Store(u: nat, first: int, second: int)
      requires Valid() && u < |unitN| && Theirs(LiveBlocks(), own, sentinel, u)
      modifies `unitN, `next
      ensures Valid() && Memory() == Words(old(unitN)[u := first], old(next)[u := second])
    {
      hide Sound, Live, Theirs, PagePool.Pool.Valid;
      Sizes();
      ghost var w := Memory();
      NotFree(w, head, ring, tiles, own, sentinel, u);
      OutsideWrite(w, Words(unitN[u := first], next[u := second]), head, ring, tiles, own, sentinel);
      unitN := unitN[u := first];
      next := next[u := second];
    }

    /** `memset(start, 0, 8 * count)` on a caller's own memory. */
    method Wipe(start: nat, count: nat)
      requires Valid() && 2 * (|unitN| - start) >= count
      requires forall u: nat :: start <= u && 2 * (u - start) < count ==> Theirs(LiveBlocks(), own, sentinel, u)
      modifies `unitN, `next
      ensures Valid() && Memory() == Wiped(old(Memory()), start, count)
    {
      hide Sound, Live, Theirs, PagePool.Pool.Valid;
      Sizes();
      ghost var w, live := Memory(), LiveBlocks();
      forall u: nat | start <= u && 2 * (u - start) < count ensures u !in ring {
        NotFree(w, head, ring, tiles, own, sentinel, u);
      }
      OutsideWrite(w, Wiped(w, start, count), head, ring, tiles, own, sentinel);
      WipeWords(start, count);
    }

    method WipeWords(start: nat, count: nat)
      requires WordsOk(Memory()) && 2 * (|unitN| - start) >= count
      modifies `unitN, `next
      ensures Memory() == Wiped(old(Memory()), start, count)
    {
      ghost var w := Memory();
      for k := 0 to count
        invariant |unitN| == |next| == |w.unitN|
        invariant forall u :: 0 <= u < |unitN| ==>
          unitN[u] == if start <= u && 2 * (u - start) < k then 0 else w.unitN[u]
        invariant forall u :: 0 <= u < |next| ==>
          next[u] == if start <= u && 2 * (u - start) + 1 < k then 0 else w.next[u]
      {
        if k % 2 == 0 {
          unitN := unitN[start + k / 2 := 0];
        } else {
          next := next[start + k / 2 := 0];
        }
      }
    }

    /** `slob_get_pages`. */
    method GetPages(n: nat) returns (page: int)
      requires Valid() && n >= 1
      modifies pool, pool.pages
      ensures Valid()
      ensures page == -1 <==> forall i :: 0 <= i < |old(pool.Blocks())| ==> old(pool.Blocks())[i].size < n
      ensures page == -1 ==> pool.pages[..] == old(pool.pages[..]) && pool.Blocks() == old(pool.Blocks())
      ensures page != -1 ==> pool.first <= page && page + n <= pool.pages.Length
      ensures page != -1 ==>
        forall q: nat :: page <= q < page + n ==> old(pool.pages[..])[q].flag == PagePool.Free && q !in own
      ensures page != -1 ==> forall q: nat :: q < pool.pages.Length ==>
                pool.pages[..][q].flag == if page <= q < page + n then PagePool.Used else old(pool.pages[..])[q].flag
    {
      hide Sound, PagePool.Pool.Valid, PagePool.Pool.Blocks, PagePool.Taken, PagePool.FirstFit, PagePool.In;
      page := pool.AllocPages(n);
    }

    /** `slob_free_pages`, of pages that are in use and not this allocator's. */
    method GivePages(page: nat, n: nat)
      requires Valid() && n >= 1 && page + n <= pool.pages.Length
      requires forall q: nat :: page <= q < page + n ==> pool.pages[q].flag == PagePool.Used && q !in own
      modifies pool, pool.pages
      ensures Valid()
      ensures forall q: nat :: q < pool.pages.Length ==>
                pool.pages[..][q].flag == if page <= q < page + n then PagePool.Free else old(pool.pages[..])[q].flag
    {
      hide Sound, PagePool.Pool.Valid, PagePool.Pool.Blocks, PagePool.In;
      pool.FreePages(page, n);
    }
  }

  /** Two requests of one unit on a list that has no page yet: both are given the sentinel, which stays on the list. */
  method OneUnitTwice(pool: PagePool.Pool, sentinel: nat, memory: Words) returns (p: int, q: int)
    requires pool.Valid() && WordsOk(memory) && |memory.unitN| == 256 * pool.pages.Length
    requires sentinel + 1 < 256 * pool.first && pool.first <= pool.pages.Length
    modifies pool, pool.pages
    ensures p == q == sentinel
  {
    hide Sound, PagePool.Pool.Valid, PagePool.Pool.Blocks, HasFit, PagePool.LessPage, Obtained;
    var s := new Slob(pool, sentinel, memory);
    s.Alone();
    p := s.SmallAlloc(16);
    q := s.SmallAlloc(16);
  }

  /** `small_free` of a block that is on the list, such as the sentinel, walks round the list for ever. */
  lemma NeverStops(w: Words, head: nat, ring: seq<nat>, tiles: Tiling, own: set<nat>, sentinel: nat, q: nat)
    requires Sound(w, head, ring, tiles, own, sentinel) && q in ring
    ensures forall i: nat :: i < |ring| ==>
      ring[i] < |w.next| && !StopsAt(w, ring[i], q) && w.next[ring[i]] == ring[Succ(ring, i)]
  {
    var k: nat :| k < |ring| && ring[k] == q;
    RingDistinct(w, ring);
    forall i: nat | i < |ring|
      ensures ring[i] < |w.next| && !StopsAt(w, ring[i], q) && w.next[ring[i]] == ring[Succ(ring, i)]
    {
      NearlyBlock(w, ring, tiles, own, sentinel, -1, -1, i);
    }
  }
}
