/** The overworld hex grid: axial coordinates, the cube distance, the
    hexagonal range enumeration, and the map of tiles whose visibility and
    fog of war are recomputed around the party. */
module HexGrid {
  import opened CombatTypes

  datatype BiomeType = Plains | Forest | Hills

  /** An axial hex coordinate; the implicit third cube coordinate is -q - r. */
  datatype HexCoord = HexCoord(q: int, r: int)

  /** The six axial neighbour offsets, in HexMath.Directions order. */
  const Directions: seq<HexCoord> :=
    [HexCoord(1, 0), HexCoord(1, -1), HexCoord(0, -1), HexCoord(-1, 0), HexCoord(-1, 1), HexCoord(0, 1)]

  function Plus(a: HexCoord, d: HexCoord): HexCoord
  {
    HexCoord(a.q + d.q, a.r + d.r)
  }

  /** HexCoord.Distance: half the sum of the three cube-coordinate gaps (the
      sum is always even, so the halving is exact). */
  function Distance(a: HexCoord, b: HexCoord): (r: int)
    ensures Abs(a.q - b.q) <= r && Abs(a.r - b.r) <= r
    ensures r <= Abs(a.q - b.q) + Abs(a.r - b.r)
  {
    var x1 := a.q;
    var z1 := a.r;
    var y1 := -x1 - z1;
    var x2 := b.q;
    var z2 := b.r;
    var y2 := -x2 - z2;
    (Abs(x1 - x2) + Abs(y1 - y2) + Abs(z1 - z2)) / 2
  }

  /** The largest of the three cube gaps: an independent definition of the
      hex distance. */
  function CubeMax(a: HexCoord, b: HexCoord): int
  {
    Max(Max(Abs(a.q - b.q), Abs(a.r - b.r)), Abs((a.q - b.q) + (a.r - b.r)))
  }

  /** The distance is the largest cube gap. */
  lemma DistanceIsCubeMax(a: HexCoord, b: HexCoord)
    ensures Distance(a, b) == CubeMax(a, b)
  {
    var dq := a.q - b.q;
    var dr := a.r - b.r;
    assert Abs((-a.q - a.r) - (-b.q - b.r)) == Abs(dq + dr);
    if dq >= 0 && dr >= 0 {
      assert Distance(a, b) == (2 * dq + 2 * dr) / 2;
    } else if dq < 0 && dr < 0 {
      assert Distance(a, b) == (-2 * dq - 2 * dr) / 2;
    } else if dq >= 0 {
      if dq + dr >= 0 {
        assert Distance(a, b) == (2 * dq) / 2;
      } else {
        assert Distance(a, b) == (-2 * dr) / 2;
      }
    } else {
      if dq + dr >= 0 {
        assert Distance(a, b) == (2 * dr) / 2;
      } else {
        assert Distance(a, b) == (-2 * dq) / 2;
      }
    }
  }

  /** The distance is a metric on hexes: non-negative and zero exactly on
      equal coordinates, ... */
  lemma DistanceZero(a: HexCoord, b: HexCoord)
    ensures Distance(a, b) >= 0 && (Distance(a, b) == 0 <==> a == b)
  {
    DistanceIsCubeMax(a, b);
  }

  /** ... symmetric, ... */
  lemma DistanceSymmetric(a: HexCoord, b: HexCoord)
    ensures Distance(a, b) == Distance(b, a)
  {
    DistanceIsCubeMax(a, b);
    DistanceIsCubeMax(b, a);
  }

  /** ... and obeying the triangle inequality. */
  lemma DistanceTriangle(a: HexCoord, b: HexCoord, c: HexCoord)
    ensures Distance(a, c) <= Distance(a, b) + Distance(b, c)
  {
    DistanceIsCubeMax(a, b);
    DistanceIsCubeMax(a, c);
    DistanceIsCubeMax(b, c);
    CubeMaxTriangle(a, b, c);
  }

  lemma CubeMaxTriangle(a: HexCoord, b: HexCoord, c: HexCoord)
    ensures CubeMax(a, c) <= CubeMax(a, b) + CubeMax(b, c)
  {
    var m := CubeMax(a, b) + CubeMax(b, c);
    CubeMaxBounds(a, b);
    CubeMaxBounds(b, c);
    AbsTriangle(a.q - b.q, b.q - c.q);
    AbsTriangle(a.r - b.r, b.r - c.r);
    AbsTriangle((a.q - b.q) + (a.r - b.r), (b.q - c.q) + (b.r - c.r));
    CubeMaxLeast(a, c, m);
  }

  lemma CubeMaxBounds(a: HexCoord, b: HexCoord)
    ensures Abs(a.q - b.q) <= CubeMax(a, b) && Abs(a.r - b.r) <= CubeMax(a, b)
    ensures Abs((a.q - b.q) + (a.r - b.r)) <= CubeMax(a, b)
  {
  }

  lemma CubeMaxLeast(a: HexCoord, b: HexCoord, m: int)
    requires Abs(a.q - b.q) <= m && Abs(a.r - b.r) <= m && Abs((a.q - b.q) + (a.r - b.r)) <= m
    ensures CubeMax(a, b) <= m
  {
  }

  lemma AbsTriangle(x: int, y: int)
    ensures Abs(x + y) <= Abs(x) + Abs(y)
  {
  }

  /** Each of the six directions leads to a hex at distance 1. */
  lemma DirectionsAreNeighbors(a: HexCoord, i: int)
    requires 0 <= i < |Directions|
    ensures Distance(a, Plus(a, Directions[i])) == 1
  {
    DistanceIsCubeMax(a, Plus(a, Directions[i]));
  }

  /** Lexicographic order on (q, r): the order Range yields its hexes in. */
  predicate Before(a: HexCoord, b: HexCoord)
  {
    a.q < b.q || (a.q == b.q && a.r < b.r)
  }

  /** Within a column `q` of the range around `center`, the hexes within
      `radius` are those whose row offset lies between Range's two bounds. */
  lemma ColumnBounds(center: HexCoord, c: HexCoord, radius: int)
    ensures var dq := c.q - center.q;
            var dr := c.r - center.r;
            Distance(center, c) <= radius <==>
              -radius <= dq <= radius && Max(-radius, -dq - radius) <= dr <= Min(radius, -dq + radius)
  {
    DistanceIsCubeMax(center, c);
  }

  /** HexCoord.Range: column by column from -radius to radius, each column's
      rows between the two bounds. Every hex within `radius` of the centre
      is yielded exactly once, and nothing else; a negative radius yields
      nothing. */
  method Range(center: HexCoord, radius: int) returns (cells: seq<HexCoord>)
    ensures forall c :: c in cells <==> Distance(center, c) <= radius
    ensures forall i, j :: 0 <= i < j < |cells| ==> Before(cells[i], cells[j])
  {
    cells := [];
    var dq := -radius;
    while dq <= radius
      invariant radius < 0 || -radius <= dq <= radius + 1
      invariant forall c :: c in cells <==> Distance(center, c) <= radius && c.q - center.q < dq
      invariant forall i :: 0 <= i < |cells| ==> cells[i].q - center.q < dq
      invariant forall i, j :: 0 <= i < j < |cells| ==> Before(cells[i], cells[j])
    {
      var r1 := Max(-radius, -dq - radius);
      var r2 := Min(radius, -dq + radius);
      var dr := r1;
      while dr <= r2
        invariant r1 <= dr <= r2 + 1
        invariant forall c :: c in cells <==>
                    Distance(center, c) <= radius
                    && (c.q - center.q < dq || (c.q - center.q == dq && c.r - center.r < dr))
        invariant forall i :: 0 <= i < |cells| ==> Before(cells[i], HexCoord(center.q + dq, center.r + dr))
        invariant forall i, j :: 0 <= i < j < |cells| ==> Before(cells[i], cells[j])
      {
        ColumnBounds(center, HexCoord(center.q + dq, center.r + dr), radius);
        cells := cells + [HexCoord(center.q + dq, center.r + dr)];
        dr := dr + 1;
      }
      forall c: HexCoord | c.q - center.q == dq
        ensures Distance(center, c) <= radius ==> c.r - center.r < dr
      {
        ColumnBounds(center, c, radius);
      }
      dq := dq + 1;
    }
    forall c: HexCoord | Distance(center, c) <= radius
      ensures c.q - center.q < dq
    {
      ColumnBounds(center, c, radius);
    }
  }

  /** PickBiome: a roll below 60 gives Plains, below 85 Forest, else Hills. */
  function PickBiome(roll: int): (r: BiomeType)
    ensures r == Plains <==> roll < 60
    ensures r == Forest <==> 60 <= roll < 85
    ensures r == Hills <==> 85 <= roll
  {
    if roll < 60 then Plains
    else if roll < 85 then Forest
    else Hills
  }

  function BiomeRank(b: BiomeType): int
  {
    match b
    case Plains => 0
    case Forest => 1
    case Hills => 2
  }

  /** The biomes occupy three consecutive bands of the roll: a higher roll
      never gives an earlier biome, and over the draws of rng.Next(100) the
      bands are [0, 60), [60, 85) and [85, 100). */
  lemma PickBiomeBands(a: int, b: int)
    ensures a <= b ==> BiomeRank(PickBiome(a)) <= BiomeRank(PickBiome(b))
    ensures 0 <= a < 100 ==>
              (PickBiome(a) == Plains <==> a < 60)
              && (PickBiome(a) == Forest <==> 60 <= a < 85)
              && (PickBiome(a) == Hills <==> 85 <= a)
  {
  }

  datatype HexTile = HexTile(biome: BiomeType, revealed: bool, visible: bool)

  /** The tile index of a coordinate on a map `width` tiles wide, row major. */
  function TileIndex(width: int, c: HexCoord): int
  {
    c.r * width + c.q
  }

  /** The coordinate stored at a tile index. */
  function CoordOf(width: int, i: int): HexCoord
    requires width > 0
  {
    HexCoord(i % width, i / width)
  }

  /** Row-major indexing is a bijection between the in-bounds coordinates
      and the tile indices [0, width * height). */
  lemma TileIndexBijection(width: int, height: int, c: HexCoord, i: int)
    requires width > 0 && height >= 0
    ensures 0 <= c.q < width && 0 <= c.r < height ==>
              0 <= TileIndex(width, c) < width * height && CoordOf(width, TileIndex(width, c)) == c
    ensures 0 <= i < width * height ==>
              var d := CoordOf(width, i);
              0 <= d.q < width && 0 <= d.r < height && TileIndex(width, d) == i
  {
    if 0 <= c.q < width && 0 <= c.r < height {
      MulBelow(c.r, height, width);
      DivModUnique(width, c.r, c.q);
    }
    if 0 <= i < width * height {
      var d := CoordOf(width, i);
      assert i == d.r * width + d.q;
      if d.r >= height {
        MulAtLeast(height, d.r, width);
      }
    }
  }

  lemma MulBelow(r: int, height: int, width: int)
    requires 0 <= r < height && width > 0
    ensures r * width + width <= height * width
  {
    assert (r + 1) * width <= height * width;
  }

  lemma MulAtLeast(height: int, r: int, width: int)
    requires height <= r && width > 0
    ensures height * width <= r * width
  {
  }

  lemma DivModUnique(width: int, r: int, q: int)
    requires width > 0 && 0 <= q < width
    ensures (r * width + q) / width == r && (r * width + q) % width == q
  {
    var n := r * width + q;
    var a := n / width;
    var b := n % width;
    var k := a - r;
    assert k * width == a * width - r * width;
    assert k * width == q - b;
    if k >= 1 {
      MulAtLeast(1, k, width);
    } else if k <= -1 {
      MulAtLeast(1, -k, width);
    }
  }

  /** HexMap: a row-major array of tiles. */
  class HexMap {
    const width: int
    const height: int
    const tiles: array<HexTile>

    ghost predicate Valid()
      reads this
    {
      0 <= width && 0 <= height && tiles.Length == width * height
    }

    /** A width x height map of default tiles: Plains, unrevealed, not
        visible. */
    constructor (width: int, height: int)
      requires 0 <= width && 0 <= height
      ensures this.width == width && this.height == height && Valid() && fresh(tiles)
      ensures forall i :: 0 <= i < tiles.Length ==> tiles[i] == HexTile(Plains, false, false)
    {
      this.width := width;
      this.height := height;
      tiles := new HexTile[width * height](_ => HexTile(Plains, false, false));
    }

    /** Generate: every tile, row by row, gets the biome of its own draw; the
        k-th draw of the generator goes to tile k. */
    static method Generate(width: int, height: int, rolls: seq<int>) returns (hexMap: HexMap)
      requires 0 <= width && 0 <= height && |rolls| == width * height
      ensures hexMap.width == width && hexMap.height == height && hexMap.Valid() && fresh(hexMap.tiles)
      ensures forall i :: 0 <= i < hexMap.tiles.Length ==> hexMap.tiles[i] == HexTile(PickBiome(rolls[i]), false, false)
    {
      hexMap := new HexMap(width, height);
      var k := 0;
      var r := 0;
      while r < height
        invariant 0 <= r <= height && k == r * width
        invariant forall i :: 0 <= i < hexMap.tiles.Length ==>
                    hexMap.tiles[i] == HexTile(if i < k then PickBiome(rolls[i]) else Plains, false, false)
      {
        if width > 0 {
          MulBelow(r, height, width);
        }
        var q := 0;
        while q < width
          invariant 0 <= q <= width && k == r * width + q
          invariant forall i :: 0 <= i < hexMap.tiles.Length ==>
                      hexMap.tiles[i] == HexTile(if i < k then PickBiome(rolls[i]) else Plains, false, false)
        {
          hexMap.tiles[k] := hexMap.tiles[k].(biome := PickBiome(rolls[k]));
          q := q + 1;
          k := k + 1;
        }
        r := r + 1;
      }
      if width > 0 {
        assert k == width * height;
      }
    }

    /** An in-bounds coordinate is the one GetTile's row-major index reads. */
    predicate InBounds(c: HexCoord)
      reads this
      ensures InBounds(c) ==>
                0 < width && 0 <= TileIndex(width, c) < width * height && CoordOf(width, TileIndex(width, c)) == c
    {
      if c.q >= 0 && c.q < width && c.r >= 0 && c.r < height then
        TileIndexBijection(width, height, c, 0);
        true
      else false
    }

    /** GetTile: the tile at the coordinate's row-major index; an in-bounds
        coordinate always has one, and distinct in-bounds coordinates have
        distinct tiles. */
    function GetTile(c: HexCoord): (t: HexTile)
      requires 0 <= TileIndex(width, c) < tiles.Length
      reads this, tiles
      ensures t == tiles[TileIndex(width, c)]
    {
      tiles[c.r * width + c.q]
    }

    /** UpdateVisibility: every tile is hidden, then every in-bounds hex
        within `radius` of the centre is made visible and revealed. So a
        tile ends visible exactly when it is within the radius, revealed
        when it was before or is visible now, and its biome never changes. */
    method UpdateVisibility(center: HexCoord, radius: int)
      requires Valid()
      modifies tiles
      ensures forall i :: 0 <= i < tiles.Length ==>
                width > 0
                && tiles[i].visible == (Distance(center, CoordOf(width, i)) <= radius)
                && tiles[i].revealed == (old(tiles[i].revealed) || tiles[i].visible)
                && tiles[i].biome == old(tiles[i].biome)
    {
      var i := 0;
      while i < tiles.Length
        invariant 0 <= i <= tiles.Length
        invariant forall j :: 0 <= j < tiles.Length ==>
                    tiles[j] == if j < i then old(tiles[j]).(visible := false) else old(tiles[j])
      {
        tiles[i] := tiles[i].(visible := false);
        i := i + 1;
      }
      if width == 0 {
        return;
      }
      var cells := Range(center, radius);
      var k := 0;
      while k < |cells|
        invariant 0 <= k <= |cells|
        invariant forall j :: 0 <= j < tiles.Length ==>
                    tiles[j] == old(tiles[j]).(visible := CoordOf(width, j) in cells[..k],
                                               revealed := old(tiles[j].revealed) || CoordOf(width, j) in cells[..k])
      {
        var c := cells[k];
        if InBounds(c) {
          TileIndexBijection(width, height, c, 0);
          var t := c.r * width + c.q;
          tiles[t] := tiles[t].(visible := true, revealed := true);
        }
        forall j | 0 <= j < tiles.Length
          ensures CoordOf(width, j) == c <==> InBounds(c) && j == TileIndex(width, c)
        {
          TileIndexBijection(width, height, c, j);
        }
        assert cells[..k + 1] == cells[..k] + [c];
        k := k + 1;
      }
      assert cells[..k] == cells;
    }
  }
}
