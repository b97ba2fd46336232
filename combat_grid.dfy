/** The bounded combat grid: bounds and walkability checks, and the 4- or
    8-neighbour enumeration the movement search expands through. */
module CombatGrid {
  import opened CombatTypes

  /** Row i, column j of an m x n table is at flat offset i * n + j. */
  lemma FlatIndexInRange(i: int, j: int, m: int, n: int)
    requires 0 <= i < m && 0 <= j < n
    ensures 0 <= i * n + j < m * n
  {
    assert i * n <= (m - 1) * n;
  }

  /** A width x height grid. The source reserves a blocked-cell table that no
      code fills; `blocked` stands for it. */
  datatype Grid = Grid(width: int, height: int, blocked: set<Point>)
  {
    /** An in-bounds point indexes the width x height blocked-cell table:
        its flat offset x * height + y lies inside the table. */
    predicate InBounds(p: Point)
      ensures InBounds(p) ==> 0 <= p.x * height + p.y < width * height
    {
      if 0 <= p.x < width && 0 <= p.y < height then
        FlatIndexInRange(p.x, p.y, width, height);
        true
      else false
    }

    /** Only in-bounds points are walkable, and with no cell blocked (as
        the source leaves the table) every in-bounds point is. */
    predicate IsWalkable(p: Point)
      ensures IsWalkable(p) ==> InBounds(p)
      ensures blocked == {} ==> (IsWalkable(p) <==> InBounds(p))
    {
      InBounds(p) && p !in blocked
    }

    /** Every cell of the grid. */
    function Cells(): (s: set<Point>)
      ensures forall p :: p in s <==> InBounds(p)
    {
      set x, y | 0 <= x < width && 0 <= y < height :: Point(x, y)
    }

    /** GetNeighbors: the orthogonal offsets (then, with diagonal movement,
        the diagonal ones) in the source's order, keeping in-bounds cells. */
    method GetNeighbors(p: Point, allowDiagonal: bool) returns (r: seq<Point>)
      ensures forall q :: q in r <==> InBounds(q) && Touches(p, q, allowDiagonal)
      ensures |r| <= |Deltas(allowDiagonal)|
    {
      var deltas := Deltas(allowDiagonal);
      r := [];
      var i := 0;
      while i < |deltas|
        invariant 0 <= i <= |deltas| && |r| <= i
        invariant forall q :: q in r <==> InBounds(q) && exists k :: 0 <= k < i && q == Offset(p, deltas[k])
      {
        var candidate := Offset(p, deltas[i]);
        if InBounds(candidate) {
          r := r + [candidate];
        }
        i := i + 1;
      }
      forall q | InBounds(q) && Touches(p, q, allowDiagonal)
        ensures exists k :: 0 <= k < |deltas| && q == Offset(p, deltas[k])
      {
        var k := DeltaIndex(p, q, allowDiagonal);
      }
    }
  }

  function Offset(p: Point, d: Point): Point
  {
    Point(p.x + d.x, p.y + d.y)
  }

  /** The neighbour offsets: four orthogonal, then four diagonal ones. */
  function Deltas(allowDiagonal: bool): (ds: seq<Point>)
    ensures forall d :: d in ds ==> Touches(Point(0, 0), d, allowDiagonal)
  {
    if allowDiagonal
    then [Point(1, 0), Point(-1, 0), Point(0, 1), Point(0, -1),
          Point(1, 1), Point(1, -1), Point(-1, 1), Point(-1, -1)]
    else [Point(1, 0), Point(-1, 0), Point(0, 1), Point(0, -1)]
  }

  /** Every touching cell is reached by one of the offsets. */
  lemma DeltaIndex(p: Point, q: Point, allowDiagonal: bool) returns (k: int)
    requires Touches(p, q, allowDiagonal)
    ensures 0 <= k < |Deltas(allowDiagonal)| && q == Offset(p, Deltas(allowDiagonal)[k])
  {
    var dx, dy := q.x - p.x, q.y - p.y;
    if dx == 1 && dy == 0 { k := 0; }
    else if dx == -1 && dy == 0 { k := 1; }
    else if dx == 0 && dy == 1 { k := 2; }
    else if dx == 0 && dy == -1 { k := 3; }
    else if dx == 1 && dy == 1 { k := 4; }
    else if dx == 1 && dy == -1 { k := 5; }
    else if dx == -1 && dy == 1 { k := 6; }
    else { k := 7; }
  }

  /** The step relation: one orthogonal step, or with diagonal movement any
      step to one of the eight surrounding cells. */
  predicate Touches(p: Point, q: Point, allowDiagonal: bool)
  {
    if allowDiagonal then p != q && Abs(p.x - q.x) <= 1 && Abs(p.y - q.y) <= 1
    else Manhattan(p, q) == 1
  }
}
