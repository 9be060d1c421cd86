/** The memory of an allocator cut into blocks: `tiles` maps the first unit of every block to its length. */
module Tiles {
  type Tiling = map<nat, nat>

  ghost predicate InTile(tiles: Tiling, a: nat, u: int) { a in tiles && a <= u < a + tiles[a] }

  ghost predicate Covers(tiles: Tiling, u: int) { exists a :: InTile(tiles, a, u) }

  /** No block is empty and no two overlap. */
  ghost predicate Tiled(tiles: Tiling) {
    && (forall a :: a in tiles ==> tiles[a] >= 1)
    && (forall a, b :: a in tiles && b in tiles && a < b ==> a + tiles[a] <= b)
  }

  ghost function SplitTile(tiles: Tiling, p: nat, n: nat): (r: Tiling)
    requires p in tiles && n <= tiles[p]
  {
    tiles[p + n := tiles[p] - n][p := n]
  }

  /** Cutting a block in two covers what was covered. */
  lemma SplitTiles(tiles: Tiling, p: nat, n: nat)
    requires Tiled(tiles) && p in tiles && 1 <= n < tiles[p]
    ensures Tiled(SplitTile(tiles, p, n)) && p + n !in tiles
    ensures forall u: int :: Covers(SplitTile(tiles, p, n), u) <==> Covers(tiles, u)
  {
    assert p + n !in tiles;
    forall u: int ensures Covers(SplitTile(tiles, p, n), u) <==> Covers(tiles, u) {
      SplitCovers(tiles, p, n, u);
    }
    hide Covers;
  }

  lemma SplitCovers(tiles: Tiling, p: nat, n: nat, u: int)
    requires p in tiles && p + n !in tiles && 1 <= n < tiles[p]
    ensures Covers(SplitTile(tiles, p, n), u) <==> Covers(tiles, u)
  {
    var r := SplitTile(tiles, p, n);
    if Covers(tiles, u) {
      var a :| InTile(tiles, a, u);
      assert InTile(r, if a == p && u >= p + n then p + n else a, u);
    }
    if Covers(r, u) {
      var a :| InTile(r, a, u);
      assert InTile(tiles, if a == p + n then p else a, u);
    }
  }

  ghost function JoinTile(tiles: Tiling, a: nat, b: nat): (r: Tiling)
    requires a in tiles && b in tiles
  {
    (tiles - {b})[a := tiles[a] + tiles[b]]
  }

  /** So does joining two blocks that touch. */
  lemma JoinTiles(tiles: Tiling, a: nat, b: nat)
    requires Tiled(tiles) && a in tiles && b in tiles && b == a + tiles[a]
    ensures Tiled(JoinTile(tiles, a, b))
    ensures forall u: int :: Covers(JoinTile(tiles, a, b), u) <==> Covers(tiles, u)
  {
    var r := JoinTile(tiles, a, b);
    forall u: int ensures Covers(r, u) <==> Covers(tiles, u) {
      if Covers(tiles, u) {
        var c :| InTile(tiles, c, u);
        assert InTile(r, if c == b then a else c, u);
      }
      if Covers(r, u) {
        var c :| InTile(r, c, u);
        assert InTile(tiles, if c == a && u >= b then b else c, u);
      }
    }
  }

  /** A new block where nothing was covered. */
  lemma AddTile(tiles: Tiling, q: nat, n: nat)
    requires Tiled(tiles) && n >= 1 && forall u: int :: q <= u < q + n ==> !Covers(tiles, u)
    ensures q !in tiles && Tiled(tiles[q := n])
    ensures forall u: int :: Covers(tiles[q := n], u) <==> Covers(tiles, u) || q <= u < q + n
  {
    var r := tiles[q := n];
    forall a | a in tiles ensures a != q && (a < q ==> a + tiles[a] <= q) && (q < a ==> q + n <= a) {
      assert InTile(tiles, a, a) && Covers(tiles, a);
      if InTile(tiles, a, q) {
        assert Covers(tiles, q);
      }
    }
    forall u: int ensures Covers(r, u) <==> Covers(tiles, u) || q <= u < q + n {
      if Covers(tiles, u) {
        var a :| InTile(tiles, a, u);
        assert InTile(r, a, u);
      }
      if q <= u < q + n {
        assert InTile(r, q, u);
      }
      if Covers(r, u) && !(q <= u < q + n) {
        var a :| InTile(r, a, u);
        assert InTile(tiles, a, u);
      }
    }
  }

  // ---------------------------------------------------------------- counting units

  ghost function Span(a: int, b: int): (s: set<int>)
    ensures forall u: int :: u in s <==> a <= u < b
    ensures |s| == if a < b then b - a else 0
    decreases b - a
  {
    if a >= b then {} else Span(a, b - 1) + {b - 1}
  }

  ghost predicate Inside(tiles: Tiling, size: nat) { forall a :: a in tiles ==> a + tiles[a] <= size }

  /** The units that the blocks cover. */
  ghost function Region(tiles: Tiling, size: nat): (s: set<int>) { set u: int | 0 <= u < size && Covers(tiles, u) }

  lemma CoversLess(tiles: Tiling, a: nat, u: int)
    requires Tiled(tiles) && a in tiles
    ensures Covers(tiles, u) <==> Covers(tiles - {a}, u) || InTile(tiles, a, u)
    ensures !(Covers(tiles - {a}, u) && InTile(tiles, a, u))
  {
    if Covers(tiles, u) {
      var b :| InTile(tiles, b, u);
      assert b == a || InTile(tiles - {a}, b, u);
    }
    if Covers(tiles - {a}, u) {
      var b :| InTile(tiles - {a}, b, u);
      assert InTile(tiles, b, u);
    }
  }

  lemma RegionLess(tiles: Tiling, size: nat, a: nat)
    requires Tiled(tiles) && Inside(tiles, size) && a in tiles
    ensures Tiled(tiles - {a}) && Inside(tiles - {a}, size)
      && |Region(tiles, size)| == |Region(tiles - {a}, size)| + tiles[a]
  {
    hide *;
    var rest, span := tiles - {a}, Span(a, a + tiles[a]);
    LessInside(tiles, size, a);
    LessCovers(tiles, a);
    RegionSplit(tiles, rest, span, size);
    SplitSize(Region(tiles, size), Region(rest, size), span);
  }

  lemma LessInside(tiles: Tiling, size: nat, a: nat)
    requires Tiled(tiles) && Inside(tiles, size) && a in tiles
    ensures Tiled(tiles - {a}) && Inside(tiles - {a}, size)
    ensures tiles[a] >= 1 && a + tiles[a] <= size
  {
  }

  lemma RegionSplit(tiles: Tiling, rest: Tiling, span: set<int>, size: nat)
    requires forall u: int :: Covers(tiles, u) <==> Covers(rest, u) || u in span
    requires forall u: int :: !(Covers(rest, u) && u in span)
    requires forall u {:trigger u in span} :: u in span ==> 0 <= u < size
    ensures Region(tiles, size) == Region(rest, size) + span && Region(rest, size) !! span
  {
    hide Covers;
  }

  lemma SplitSize(s: set<int>, a: set<int>, b: set<int>)
    requires s == a + b && a !! b
    ensures |s| == |a| + |b|
  {
  }

  lemma LessCovers(tiles: Tiling, a: nat)
    requires Tiled(tiles) && a in tiles
    ensures forall u: int :: Covers(tiles, u) <==> Covers(tiles - {a}, u) || u in Span(a, a + tiles[a])
    ensures forall u: int :: !(Covers(tiles - {a}, u) && u in Span(a, a + tiles[a]))
  {
    forall u: int
      ensures Covers(tiles, u) <==> Covers(tiles - {a}, u) || u in Span(a, a + tiles[a])
      ensures !(Covers(tiles - {a}, u) && u in Span(a, a + tiles[a]))
    {
      CoversLess(tiles, a, u);
    }
  }

  /** The sum of the lengths of all blocks, which is the number of units they cover. */
  ghost function Units(tiles: Tiling, size: nat): (n: nat)
    requires Tiled(tiles) && Inside(tiles, size)
    ensures n == |Region(tiles, size)|
  {
    if tiles == map[] then
      assert Region(tiles, size) == {};
      0
    else
      var a :| a in tiles;
      RegionLess(tiles, size, a);
      tiles[a] + Units(tiles - {a}, size)
  }
}
