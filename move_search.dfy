/** The movement range of the selected unit: a breadth-first flood from the
    unit's cell through open cells (walkable and not occupied by a living
    unit), at most MoveRange steps deep, through 4 or 8 neighbours. The
    search is proved to produce exactly the cells of the layered reachability
    set `Reach`, and `Reach` is proved to be exactly the set of end points of
    walks of at most that many steps. */
module MoveSearch {
  import opened CombatTypes
  import opened CombatGrid
  import opened CombatRules

  /** One layer of the flood: the open in-bounds cells touching `s`. */
  ghost function Step(units: seq<Unit>, grid: Grid, diagonal: bool, s: set<Point>): set<Point>
  {
    set q | q in grid.Cells() && Open(units, grid, q) && exists p :: p in s && Touches(p, q, diagonal)
  }

  /** The cells the flood has reached after `k` layers. */
  ghost function Reach(units: seq<Unit>, grid: Grid, diagonal: bool, origin: Point, k: nat): set<Point>
  {
    if k == 0 then {origin}
    else
      var r := Reach(units, grid, diagonal, origin, k - 1);
      r + Step(units, grid, diagonal, r)
  }

  /** The movement range of a unit at `origin`: every reached cell but its own. */
  ghost function MoveTiles(units: seq<Unit>, grid: Grid, diagonal: bool, origin: Point, moveRange: int): set<Point>
  {
    Reach(units, grid, diagonal, origin, if moveRange < 0 then 0 else moveRange) - {origin}
  }

  /** A walk: starts at `origin`, every step goes to a touching cell, and
      every cell after the first is in bounds and open. */
  ghost predicate IsWalk(units: seq<Unit>, grid: Grid, diagonal: bool, origin: Point, path: seq<Point>)
  {
    |path| >= 1 && path[0] == origin
    && (forall i :: 1 <= i < |path| ==> grid.InBounds(path[i]) && Open(units, grid, path[i]))
    && (forall i :: 0 <= i < |path| - 1 ==> Touches(path[i], path[i + 1], diagonal))
  }

  lemma StepMember(units: seq<Unit>, grid: Grid, diagonal: bool, s: set<Point>, p: Point, q: Point)
    requires p in s && Touches(p, q, diagonal) && grid.InBounds(q) && Open(units, grid, q)
    ensures q in Step(units, grid, diagonal, s)
  {
    assert q in grid.Cells();
  }

  lemma StepWitness(units: seq<Unit>, grid: Grid, diagonal: bool, s: set<Point>, q: Point) returns (p: Point)
    requires q in Step(units, grid, diagonal, s)
    ensures p in s && Touches(p, q, diagonal) && grid.InBounds(q) && Open(units, grid, q)
  {
    p :| p in s && Touches(p, q, diagonal);
  }

  lemma WalkExtend(units: seq<Unit>, grid: Grid, diagonal: bool, origin: Point, path: seq<Point>, q: Point)
    requires IsWalk(units, grid, diagonal, origin, path)
    requires grid.InBounds(q) && Open(units, grid, q) && Touches(path[|path| - 1], q, diagonal)
    ensures IsWalk(units, grid, diagonal, origin, path + [q])
  {
    var w := path + [q];
    assert forall i :: 0 <= i < |path| ==> w[i] == path[i];
  }

  lemma {:induction false} ReachMonotone(units: seq<Unit>, grid: Grid, diagonal: bool, origin: Point, j: nat, k: nat)
    requires j <= k
    ensures Reach(units, grid, diagonal, origin, j) <= Reach(units, grid, diagonal, origin, k)
    decreases k - j
  {
    if j < k {
      ReachMonotone(units, grid, diagonal, origin, j, k - 1);
    }
  }

  /** Every reached cell is the end of a walk of at most `k` steps. */
  lemma {:induction false} ReachHasWalk(units: seq<Unit>, grid: Grid, diagonal: bool, origin: Point, k: nat, p: Point)
    returns (path: seq<Point>)
    requires p in Reach(units, grid, diagonal, origin, k)
    ensures IsWalk(units, grid, diagonal, origin, path) && path[|path| - 1] == p && |path| <= k + 1
    decreases k
  {
    if k == 0 {
      path := [origin];
    } else {
      var j: nat := k - 1;
      var r := Reach(units, grid, diagonal, origin, j);
      if p in r {
        path := ReachHasWalk(units, grid, diagonal, origin, j, p);
      } else {
        var prev := StepWitness(units, grid, diagonal, r, p);
        var front := ReachHasWalk(units, grid, diagonal, origin, j, prev);
        WalkExtend(units, grid, diagonal, origin, front, p);
        path := front + [p];
      }
    }
  }

  /** The end of every walk of at most `k` steps is reached. */
  lemma {:induction false} WalkIsReached(units: seq<Unit>, grid: Grid, diagonal: bool, origin: Point, k: nat, path: seq<Point>)
    requires IsWalk(units, grid, diagonal, origin, path) && |path| <= k + 1
    ensures path[|path| - 1] in Reach(units, grid, diagonal, origin, k)
  {
    if |path| == 1 {
      ReachMonotone(units, grid, diagonal, origin, 0, k);
    } else {
      var front := path[..|path| - 1];
      assert IsWalk(units, grid, diagonal, origin, front);
      WalkIsReached(units, grid, diagonal, origin, k - 1, front);
      var r := Reach(units, grid, diagonal, origin, k - 1);
      var p := path[|path| - 1];
      assert front[|front| - 1] in r && Touches(front[|front| - 1], p, diagonal);
      assert p in Step(units, grid, diagonal, r);
    }
  }

  /** The movement range is exactly the set of cells other than the unit's
      own that a walk of at most MoveRange steps through open cells ends on. */
  lemma MoveTilesAreWalkEnds(units: seq<Unit>, grid: Grid, diagonal: bool, origin: Point, moveRange: int, p: Point)
    ensures p in MoveTiles(units, grid, diagonal, origin, moveRange) <==>
            p != origin && exists path :: IsWalk(units, grid, diagonal, origin, path)
                                          && path[|path| - 1] == p && |path| <= Max(0, moveRange) + 1
  {
    var k: nat := if moveRange < 0 then 0 else moveRange;
    if p in MoveTiles(units, grid, diagonal, origin, moveRange) {
      var path := ReachHasWalk(units, grid, diagonal, origin, k, p);
    }
    if p != origin && exists path :: IsWalk(units, grid, diagonal, origin, path)
                                      && path[|path| - 1] == p && |path| <= Max(0, moveRange) + 1 {
      var path :| IsWalk(units, grid, diagonal, origin, path) && path[|path| - 1] == p && |path| <= Max(0, moveRange) + 1;
      WalkIsReached(units, grid, diagonal, origin, k, path);
    }
  }

  /** Every cell of the movement range is in bounds, walkable and free. */
  lemma MoveTilesAreOpen(units: seq<Unit>, grid: Grid, diagonal: bool, origin: Point, moveRange: int, p: Point)
    requires p in MoveTiles(units, grid, diagonal, origin, moveRange)
    ensures grid.IsWalkable(p) && !Occupied(units, p)
  {
    var path := ReachHasWalk(units, grid, diagonal, origin, if moveRange < 0 then 0 else moveRange, p);
    assert |path| > 1;
  }

  /** Without diagonal movement a reached cell is at most `k` orthogonal steps away. */
  lemma {:induction false} ReachWithinManhattan(units: seq<Unit>, grid: Grid, origin: Point, k: nat, p: Point)
    requires p in Reach(units, grid, false, origin, k)
    ensures Manhattan(origin, p) <= k
    decreases k
  {
    if k > 0 {
      var j: nat := k - 1;
      var r := Reach(units, grid, false, origin, j);
      var prev := p;
      if p !in r {
        prev := StepWitness(units, grid, false, r, p);
      }
      ReachWithinManhattan(units, grid, origin, j, prev);
    }
  }

  /** What the search knows once the queue is drained: every enqueued cell
      carries a depth within the limit at which it is reached ... */
  ghost predicate Labelled(units: seq<Unit>, grid: Grid, diagonal: bool, origin: Point, moveRange: int,
                           visited: set<Point>, depthOf: map<Point, int>)
  {
    visited == depthOf.Keys && origin in visited && depthOf[origin] == 0
    && (forall p :: p in visited ==>
          0 <= depthOf[p] <= Max(0, moveRange) && p in Reach(units, grid, diagonal, origin, depthOf[p]))
  }

  /** ... and every cell below the depth limit had its open neighbours
      labelled at most one deeper. */
  ghost predicate ClosedUnderSteps(units: seq<Unit>, grid: Grid, diagonal: bool, moveRange: int,
                                   visited: set<Point>, depthOf: map<Point, int>)
    requires visited == depthOf.Keys
  {
    forall p, q {:trigger Touches(p, q, diagonal)} ::
      p in visited && depthOf[p] < moveRange && Touches(p, q, diagonal)
                   && grid.InBounds(q) && Open(units, grid, q) ==>
                     q in visited && depthOf[q] <= depthOf[p] + 1
  }

  lemma {:induction false} ClosedCoversReach(units: seq<Unit>, grid: Grid, diagonal: bool, origin: Point, moveRange: int,
                                             visited: set<Point>, depthOf: map<Point, int>, k: nat, q: Point)
    requires visited == depthOf.Keys && origin in visited && depthOf[origin] == 0
    requires ClosedUnderSteps(units, grid, diagonal, moveRange, visited, depthOf)
    requires k <= Max(0, moveRange)
    requires q in Reach(units, grid, diagonal, origin, k)
    ensures q in visited && depthOf[q] <= k
    decreases k
  {
    if k > 0 {
      var j: nat := k - 1;
      var r := Reach(units, grid, diagonal, origin, j);
      var p := q;
      if q !in r {
        p := StepWitness(units, grid, diagonal, r, q);
      }
      ClosedCoversReach(units, grid, diagonal, origin, moveRange, visited, depthOf, j, p);
    }
  }

  lemma ClosedIsExact(units: seq<Unit>, grid: Grid, diagonal: bool, origin: Point, moveRange: int,
                      visited: set<Point>, depthOf: map<Point, int>)
    requires Labelled(units, grid, diagonal, origin, moveRange, visited, depthOf)
    requires ClosedUnderSteps(units, grid, diagonal, moveRange, visited, depthOf)
    ensures visited - {origin} == MoveTiles(units, grid, diagonal, origin, moveRange)
  {
    var k: nat := if moveRange < 0 then 0 else moveRange;
    forall q | q in Reach(units, grid, diagonal, origin, k)
      ensures q in visited
    {
      ClosedCoversReach(units, grid, diagonal, origin, moveRange, visited, depthOf, k, q);
    }
    forall p | p in visited
      ensures p in Reach(units, grid, diagonal, origin, k)
    {
      ReachMonotone(units, grid, diagonal, origin, depthOf[p], k);
    }
  }

  /** The search queue's invariant. `posOf` (proof-only) records where each
      visited cell sits in the queue and `parent` the entry each later entry
      was discovered from; depths never exceed the limit and never decrease. */
  ghost predicate QueueOk(units: seq<Unit>, grid: Grid, diagonal: bool, origin: Point, moveRange: int,
                          queue: seq<(Point, int)>, posOf: map<Point, int>, parent: seq<int>)
  {
    |queue| >= 1 && queue[0] == (origin, 0) && |parent| == |queue|
    && (forall p :: p in posOf ==> 0 <= posOf[p] < |queue| && queue[posOf[p]].0 == p)
    && (forall j :: 0 <= j < |queue| ==> queue[j].0 in posOf && posOf[queue[j].0] == j)
    && (forall j :: 0 <= j < |queue| ==> 0 <= queue[j].1 <= Max(0, moveRange))
    && (forall j :: 1 <= j < |queue| ==> Discovered(units, grid, diagonal, queue, parent, j))
    && (forall j :: 1 <= j < |queue| ==> queue[j - 1].1 <= queue[j].1)
  }

  /** Entry `j` was found as an open in-bounds neighbour of an earlier entry
      one step shallower. */
  ghost predicate Discovered(units: seq<Unit>, grid: Grid, diagonal: bool,
                             queue: seq<(Point, int)>, parent: seq<int>, j: int)
    requires 1 <= j < |queue| == |parent|
  {
    0 <= parent[j] < j && queue[parent[j]].1 + 1 == queue[j].1
    && Touches(queue[parent[j]].0, queue[j].0, diagonal)
    && grid.InBounds(queue[j].0) && Open(units, grid, queue[j].0)
  }

  lemma {:induction false} EntryReached(units: seq<Unit>, grid: Grid, diagonal: bool, origin: Point, moveRange: int,
                                        queue: seq<(Point, int)>, posOf: map<Point, int>, parent: seq<int>, j: int)
    requires QueueOk(units, grid, diagonal, origin, moveRange, queue, posOf, parent)
    requires 0 <= j < |queue|
    ensures queue[j].0 in Reach(units, grid, diagonal, origin, queue[j].1)
    decreases j
  {
    if j > 0 {
      assert Discovered(units, grid, diagonal, queue, parent, j);
      var i := parent[j];
      EntryReached(units, grid, diagonal, origin, moveRange, queue, posOf, parent, i);
      StepMember(units, grid, diagonal, Reach(units, grid, diagonal, origin, queue[i].1), queue[i].0, queue[j].0);
    }
  }

  /** Every queue entry before `n` that was below the depth limit has had
      each open neighbour visited at most one step deeper. */
  ghost predicate ProcessedClosed(units: seq<Unit>, grid: Grid, diagonal: bool, moveRange: int,
                                  queue: seq<(Point, int)>, posOf: map<Point, int>, n: int)
  {
    forall j, q {:trigger Touches(queue[j].0, q, diagonal)} ::
      0 <= j < n && j < |queue| && queue[j].1 < moveRange && Touches(queue[j].0, q, diagonal)
                   && grid.InBounds(q) && Open(units, grid, q) ==>
                     q in posOf && 0 <= posOf[q] < |queue| && queue[posOf[q]].1 <= queue[j].1 + 1
  }

  /** Enqueueing an open, unvisited neighbour of the entry being processed
      keeps the queue invariant, the closure of earlier entries and every
      visited cell's depth. */
  lemma Enqueue(units: seq<Unit>, grid: Grid, diagonal: bool, origin: Point, moveRange: int,
                queue: seq<(Point, int)>, posOf: map<Point, int>, parent: seq<int>, qi: int, d: int, q: Point)
    requires QueueOk(units, grid, diagonal, origin, moveRange, queue, posOf, parent)
    requires 0 <= qi < |queue| && queue[qi].1 == d < moveRange && queue[|queue| - 1].1 <= d + 1
    requires q !in posOf && grid.InBounds(q) && Open(units, grid, q) && Touches(queue[qi].0, q, diagonal)
    ensures QueueOk(units, grid, diagonal, origin, moveRange, queue + [(q, d + 1)], posOf[q := |queue|], parent + [qi])
  {
    var queue' := queue + [(q, d + 1)];
    var parent' := parent + [qi];
    assert forall j :: 0 <= j < |queue| ==> queue'[j] == queue[j] && parent'[j] == parent[j];
    assert queue'[|queue|] == (q, d + 1);
    forall j | 1 <= j < |queue'|
      ensures Discovered(units, grid, diagonal, queue', parent', j)
    {
      if j < |queue| {
        assert Discovered(units, grid, diagonal, queue, parent, j);
      }
    }
  }

  /** Appending entries and visiting new cells keeps the closure of the
      entries already processed. */
  lemma ClosedExtends(units: seq<Unit>, grid: Grid, diagonal: bool, moveRange: int,
                      queue0: seq<(Point, int)>, posOf0: map<Point, int>,
                      queue: seq<(Point, int)>, posOf: map<Point, int>, qi: int)
    requires ProcessedClosed(units, grid, diagonal, moveRange, queue0, posOf0, qi)
    requires qi <= |queue0| <= |queue| && queue[..|queue0|] == queue0
    requires forall p :: p in posOf0 ==> p in posOf && posOf[p] == posOf0[p]
    ensures ProcessedClosed(units, grid, diagonal, moveRange, queue, posOf, qi)
  {
    forall j, q | 0 <= j < qi && j < |queue| && queue[j].1 < moveRange && Touches(queue[j].0, q, diagonal)
                  && grid.InBounds(q) && Open(units, grid, q)
      ensures q in posOf && 0 <= posOf[q] < |queue| && queue[posOf[q]].1 <= queue[j].1 + 1
    {
      assert queue[j] == queue0[j];
      assert Touches(queue0[j].0, q, diagonal);
      assert queue[posOf0[q]] == queue0[posOf0[q]];
    }
  }

  /** Once every open neighbour of entry `qi` has been visited (when it was
      below the limit), the closure extends past `qi`. */
  lemma CloseEntry(units: seq<Unit>, grid: Grid, diagonal: bool, moveRange: int,
                   queue: seq<(Point, int)>, posOf: map<Point, int>, qi: int, neighbors: seq<Point>)
    requires ProcessedClosed(units, grid, diagonal, moveRange, queue, posOf, qi)
    requires 0 <= qi < |queue|
    requires queue[qi].1 < moveRange ==>
      forall q :: q in neighbors <==> grid.InBounds(q) && Touches(queue[qi].0, q, diagonal)
    requires queue[qi].1 < moveRange ==>
      forall i :: 0 <= i < |neighbors| && Open(units, grid, neighbors[i]) ==> neighbors[i] in posOf
    requires forall p :: p in posOf ==> 0 <= posOf[p] < |queue|
    requires forall j :: 0 <= j < |queue| ==> queue[j].1 <= queue[qi].1 + 1
    ensures ProcessedClosed(units, grid, diagonal, moveRange, queue, posOf, qi + 1)
  {
    forall j, q | 0 <= j < qi + 1 && j < |queue| && queue[j].1 < moveRange && Touches(queue[j].0, q, diagonal)
                  && grid.InBounds(q) && Open(units, grid, q)
      ensures q in posOf && 0 <= posOf[q] < |queue| && queue[posOf[q]].1 <= queue[j].1 + 1
    {
      if j == qi {
        assert q in neighbors;
      }
    }
  }

  /** A drained queue holds exactly the reached cells. */
  lemma DrainedIsExact(units: seq<Unit>, grid: Grid, diagonal: bool, origin: Point, moveRange: int,
                       queue: seq<(Point, int)>, posOf: map<Point, int>, parent: seq<int>)
    requires QueueOk(units, grid, diagonal, origin, moveRange, queue, posOf, parent)
    requires ProcessedClosed(units, grid, diagonal, moveRange, queue, posOf, |queue|)
    ensures posOf.Keys - {origin} == MoveTiles(units, grid, diagonal, origin, moveRange)
  {
    forall j | 0 <= j < |queue|
      ensures queue[j].0 in Reach(units, grid, diagonal, origin, queue[j].1)
    {
      EntryReached(units, grid, diagonal, origin, moveRange, queue, posOf, parent, j);
    }
    var visited := posOf.Keys;
    var depthOf := map p | p in visited :: queue[posOf[p]].1;
    assert origin in visited by {
      assert queue[0].0 == origin;
    }
    assert depthOf[origin] == 0 by {
      assert posOf[queue[0].0] == 0;
    }
    assert Labelled(units, grid, diagonal, origin, moveRange, visited, depthOf);
    assert ClosedUnderSteps(units, grid, diagonal, moveRange, visited, depthOf) by {
      forall p, q | p in visited && depthOf[p] < moveRange && Touches(p, q, diagonal)
                    && grid.InBounds(q) && Open(units, grid, q)
        ensures q in visited && depthOf[q] <= depthOf[p] + 1
      {
        var j := posOf[p];
        assert queue[j].0 == p;
      }
    }
    ClosedIsExact(units, grid, diagonal, origin, moveRange, visited, depthOf);
  }

  /** A queue of distinct cells drawn from `universe` is no longer than it. */
  lemma {:induction false} QueueBounded(queue: seq<(Point, int)>, universe: set<Point>)
    requires forall j :: 0 <= j < |queue| ==> queue[j].0 in universe
    requires forall j, j' :: 0 <= j < j' < |queue| ==> queue[j].0 != queue[j'].0
    ensures |queue| <= |universe|
  {
    if queue != [] {
      var last := queue[|queue| - 1].0;
      QueueBounded(queue[..|queue| - 1], universe - {last});
    }
  }

  /** A finite set holding every cell the search may visit. */
  lemma Universe(grid: Grid, origin: Point) returns (u: set<Point>)
    ensures origin in u && forall p :: grid.InBounds(p) ==> p in u
  {
    u := grid.Cells() + {origin};
  }

  /** The inner loop of RecalculateMoveRange: every in-bounds neighbour of
      the entry at the front of the queue that is not yet visited, walkable
      and unoccupied is visited, added to the range and enqueued one step
      deeper. */
  method VisitNeighbors(units: seq<Unit>, grid: Grid, diagonal: bool, origin: Point, moveRange: int,
                        neighbors: seq<Point>, qi: int, depth: int,
                        queue0: seq<(Point, int)>, visited0: set<Point>, tiles0: set<Point>,
                        ghost posOf0: map<Point, int>, ghost parent0: seq<int>, ghost universe: set<Point>)
    returns (queue: seq<(Point, int)>, visited: set<Point>, tiles: set<Point>,
             ghost posOf: map<Point, int>, ghost parent: seq<int>)
    requires QueueOk(units, grid, diagonal, origin, moveRange, queue0, posOf0, parent0)
    requires 0 <= qi < |queue0| && queue0[qi].1 == depth < moveRange
    requires forall j :: 0 <= j < |queue0| ==> queue0[j].1 <= depth + 1
    requires forall q :: q in neighbors ==> grid.InBounds(q) && Touches(queue0[qi].0, q, diagonal)
    requires visited0 == posOf0.Keys && visited0 <= universe && tiles0 == visited0 - {origin}
    requires forall p :: grid.InBounds(p) ==> p in universe
    ensures QueueOk(units, grid, diagonal, origin, moveRange, queue, posOf, parent)
    ensures |queue0| <= |queue| && queue[..|queue0|] == queue0
    ensures forall p :: p in posOf0 ==> p in posOf && posOf[p] == posOf0[p]
    ensures forall j :: 0 <= j < |queue| ==> queue[j].1 <= depth + 1
    ensures visited == posOf.Keys && visited <= universe && tiles == visited - {origin}
    ensures forall i :: 0 <= i < |neighbors| && Open(units, grid, neighbors[i]) ==> neighbors[i] in visited
  {
    queue, visited, tiles, posOf, parent := queue0, visited0, tiles0, posOf0, parent0;
    var t := 0;
    while t < |neighbors|
      invariant 0 <= t <= |neighbors|
      invariant QueueOk(units, grid, diagonal, origin, moveRange, queue, posOf, parent)
      invariant Grows(queue0, posOf0, queue, posOf, depth)
      invariant visited == posOf.Keys && visited <= universe && tiles == visited - {origin}
      invariant Covered(units, grid, neighbors, t, visited)
    {
      var neighbor := neighbors[t];
      if neighbor !in visited {
        var occupied := IsOccupied(units, neighbor);
        if grid.IsWalkable(neighbor) && !occupied {
          assert queue[qi] == queue0[qi];
          Enqueue(units, grid, diagonal, origin, moveRange, queue, posOf, parent, qi, depth, neighbor);
          GrowsStep(queue0, posOf0, queue, posOf, depth, neighbor);
          visited := visited + {neighbor};
          tiles := tiles + {neighbor};
          posOf := posOf[neighbor := |queue|];
          parent := parent + [qi];
          queue := queue + [(neighbor, depth + 1)];
        }
      }
      CoveredStep(units, grid, neighbors, t, visited);
      t := t + 1;
    }
  }

  /** What VisitNeighbors keeps of the queue it started from: the queue only
      grows at the back, known positions stay put, and no depth exceeds
      `depth + 1`. */
  predicate Grows(queue0: seq<(Point, int)>, posOf0: map<Point, int>,
                  queue: seq<(Point, int)>, posOf: map<Point, int>, depth: int)
  {
    |queue0| <= |queue| && queue[..|queue0|] == queue0
    && (forall p :: p in posOf0 ==> p in posOf && posOf[p] == posOf0[p])
    && (forall j :: 0 <= j < |queue| ==> queue[j].1 <= depth + 1)
  }

  lemma GrowsStep(queue0: seq<(Point, int)>, posOf0: map<Point, int>,
                  queue: seq<(Point, int)>, posOf: map<Point, int>, depth: int, n: Point)
    requires Grows(queue0, posOf0, queue, posOf, depth) && n !in posOf
    ensures Grows(queue0, posOf0, queue + [(n, depth + 1)], posOf[n := |queue|], depth)
  {
    assert (queue + [(n, depth + 1)])[..|queue0|] == queue[..|queue0|];
  }

  /** Every open cell among the first `t` neighbours has been visited. */
  predicate Covered(units: seq<Unit>, grid: Grid, neighbors: seq<Point>, t: int, visited: set<Point>)
    requires 0 <= t <= |neighbors|
  {
    forall i :: 0 <= i < t && Open(units, grid, neighbors[i]) ==> neighbors[i] in visited
  }

  lemma CoveredStep(units: seq<Unit>, grid: Grid, neighbors: seq<Point>, t: int, visited: set<Point>)
    requires 0 <= t < |neighbors|
    requires Covered(units, grid, neighbors, t, visited)
    requires Open(units, grid, neighbors[t]) ==> neighbors[t] in visited
    ensures Covered(units, grid, neighbors, t + 1, visited)
  {
  }

  /** RecalculateMoveRange's breadth-first search: a queue of (cell, depth)
      pairs read from the front, a visited set seeded with the unit's cell,
      and the range set that receives every newly visited cell. */
  method FloodMoveRange(units: seq<Unit>, grid: Grid, diagonal: bool, origin: Point, moveRange: int)
    returns (tiles: set<Point>)
    ensures tiles == MoveTiles(units, grid, diagonal, origin, moveRange)
  {
    var queue := [(origin, 0)];
    var visited := {origin};
    ghost var posOf := map[origin := 0];
    ghost var parent := [0];
    ghost var universe := Universe(grid, origin);
    tiles := {};
    var qi := 0;
    while qi < |queue|
      invariant QueueOk(units, grid, diagonal, origin, moveRange, queue, posOf, parent)
      invariant ProcessedClosed(units, grid, diagonal, moveRange, queue, posOf, qi)
      invariant 0 <= qi <= |queue|
      invariant qi < |queue| ==> forall j :: 0 <= j < |queue| ==> queue[j].1 <= queue[qi].1 + 1
      invariant visited == posOf.Keys && visited <= universe && tiles == visited - {origin}
      invariant |queue| <= |universe|
      decreases |universe| - qi
    {
      var (current, depth) := queue[qi];
      ghost var queue0 := queue;
      ghost var posOf0 := posOf;
      var neighbors: seq<Point> := [];
      if depth < moveRange {
        neighbors := grid.GetNeighbors(current, diagonal);
        queue, visited, tiles, posOf, parent :=
          VisitNeighbors(units, grid, diagonal, origin, moveRange, neighbors, qi, depth,
                         queue, visited, tiles, posOf, parent, universe);
        ClosedExtends(units, grid, diagonal, moveRange, queue0, posOf0, queue, posOf, qi);
      }
      CloseEntry(units, grid, diagonal, moveRange, queue, posOf, qi, neighbors);
      qi := qi + 1;
      QueueBounded(queue, universe);
    }
    DrainedIsExact(units, grid, diagonal, origin, moveRange, queue, posOf, parent);
  }
}
