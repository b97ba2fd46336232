/** Read-only queries of the combat state over its roster: which living unit
    stands on a cell, how many units of a team are alive, the nearest living
    hero, the greedy step of the enemy AI, the Manhattan-diamond threat range
    and the turn-order search that skips the dead. Each is a loop in the
    source and a method here, proved against a function that states what the
    loop must find. */
module CombatRules {
  import opened CombatTypes
  import opened CombatGrid
  import W = Wrappers

  // ---------------------------------------------------------------- lookup

  predicate LiveAt(u: Unit, p: Point) { u.IsAlive() && u.position == p }

  /** A living unit stands on `p` (IsOccupied). */
  predicate Occupied(units: seq<Unit>, p: Point)
  {
    exists k :: 0 <= k < |units| && LiveAt(units[k], p)
  }

  /** The first living unit, in roster order, standing on `p`, or -1 (GetUnitAt). */
  function UnitAt(units: seq<Unit>, p: Point): (r: int)
    ensures -1 <= r < |units|
    ensures r == -1 <==> !Occupied(units, p)
    ensures r >= 0 ==> LiveAt(units[r], p) && forall k :: 0 <= k < r ==> !LiveAt(units[k], p)
  {
    UnitAtFrom(units, p, 0)
  }

  function UnitAtFrom(units: seq<Unit>, p: Point, start: nat): (r: int)
    requires start <= |units|
    decreases |units| - start
    ensures r == -1 || start <= r < |units|
    ensures r == -1 <==> forall k :: start <= k < |units| ==> !LiveAt(units[k], p)
    ensures r >= 0 ==> LiveAt(units[r], p) && forall k :: start <= k < r ==> !LiveAt(units[k], p)
  {
    if start == |units| then -1
    else if LiveAt(units[start], p) then start
    else UnitAtFrom(units, p, start + 1)
  }

  method GetUnitAt(units: seq<Unit>, p: Point) returns (r: int)
    ensures r == UnitAt(units, p)
  {
    r := -1;
    var k := 0;
    while k < |units|
      invariant 0 <= k <= |units|
      invariant forall j :: 0 <= j < k ==> !LiveAt(units[j], p)
    {
      if units[k].IsAlive() && units[k].position == p {
        return k;
      }
      k := k + 1;
    }
  }

  method IsOccupied(units: seq<Unit>, p: Point) returns (b: bool)
    ensures b == Occupied(units, p)
  {
    var k := 0;
    while k < |units|
      invariant 0 <= k <= |units|
      invariant forall j :: 0 <= j < k ==> !LiveAt(units[j], p)
    {
      if units[k].IsAlive() && units[k].position == p {
        return true;
      }
      k := k + 1;
    }
    return false;
  }

  // ---------------------------------------------------------------- counting

  /** The number of living units of `team`; zero exactly when the team has
      been wiped out, which is how the screen decides victory and defeat. */
  function AliveCount(units: seq<Unit>, team: Team): (n: nat)
    ensures n <= |units|
    ensures n == 0 <==> forall i :: 0 <= i < |units| && units[i].team == team ==> !units[i].IsAlive()
  {
    if units == [] then 0
    else
      var last := units[|units| - 1];
      var rest := AliveCount(units[..|units| - 1], team);
      assert forall i :: 0 <= i < |units| - 1 ==> units[..|units| - 1][i] == units[i];
      if last.team == team && last.IsAlive() then rest + 1 else rest
  }

  /** CountAlive's scan. */
  method CountAlive(units: seq<Unit>, team: Team) returns (count: int)
    ensures count == AliveCount(units, team)
  {
    count := 0;
    var k := 0;
    while k < |units|
      invariant 0 <= k <= |units|
      invariant count == AliveCount(units[..k], team)
    {
      assert units[..k + 1][..k] == units[..k];
      if units[k].team == team && units[k].IsAlive() {
        count := count + 1;
      }
      k := k + 1;
    }
    assert units[..k] == units;
  }

  // ---------------------------------------------------------------- nearest hero

  predicate IsLivingHero(u: Unit) { u.team == Hero && u.IsAlive() }

  /** FindHeroInRange (and, with no range limit, FindNearestHero): the living
      hero closest to `from` among those within `range`, the earliest in
      roster order on a tie, or -1 when there is none. */
  function NearestHero(units: seq<Unit>, from: Point, range: W.Option<int>): (r: int)
    ensures -1 <= r < |units|
    ensures r == -1 <==> forall k :: 0 <= k < |units| ==> !Candidate(units[k], from, range)
    ensures r >= 0 ==> Candidate(units[r], from, range)
    ensures r >= 0 ==> forall k :: 0 <= k < |units| && Candidate(units[k], from, range) ==>
                          Manhattan(units[r].position, from) <= Manhattan(units[k].position, from)
                          && (k < r ==> Manhattan(units[r].position, from) < Manhattan(units[k].position, from))
  {
    NearestHeroInSpec(units, from, range, |units|);
    NearestHeroIn(units, from, range, |units|)
  }

  predicate Candidate(u: Unit, from: Point, range: W.Option<int>)
  {
    IsLivingHero(u) && (range.Some? ==> Manhattan(u.position, from) <= range.value)
  }

  /** The best candidate among the first `n` units. */
  function NearestHeroIn(units: seq<Unit>, from: Point, range: W.Option<int>, n: nat): (r: int)
    requires n <= |units|
    ensures -1 <= r < n
  {
    if n == 0 then -1
    else
      var best := NearestHeroIn(units, from, range, n - 1);
      var u := units[n - 1];
      if Candidate(u, from, range)
         && (best == -1 || Manhattan(u.position, from) < Manhattan(units[best].position, from))
      then n - 1
      else best
  }

  /** The scan over the first `n` units keeps the first of the closest
      candidates, and finds none exactly when there is none. */
  lemma {:induction false} NearestHeroInSpec(units: seq<Unit>, from: Point, range: W.Option<int>, n: nat)
    requires n <= |units|
    ensures var r := NearestHeroIn(units, from, range, n);
            && (r == -1 <==> forall k :: 0 <= k < n ==> !Candidate(units[k], from, range))
            && (r >= 0 ==> Candidate(units[r], from, range))
            && (r >= 0 ==> forall k :: 0 <= k < n && Candidate(units[k], from, range) ==>
                             Manhattan(units[r].position, from) <= Manhattan(units[k].position, from)
                             && (k < r ==> Manhattan(units[r].position, from) < Manhattan(units[k].position, from)))
  {
    if n > 0 {
      NearestHeroInSpec(units, from, range, n - 1);
    }
  }

  /** The scan of FindNearestHero / FindHeroInRange: keep the strictly closer
      candidate. */
  method FindHero(units: seq<Unit>, from: Point, range: W.Option<int>) returns (best: int)
    ensures best == NearestHero(units, from, range)
  {
    best := -1;
    var bestDistance := 0;
    var k := 0;
    while k < |units|
      invariant 0 <= k <= |units|
      invariant best == NearestHeroIn(units, from, range, k)
      invariant best >= 0 ==> bestDistance == Manhattan(units[best].position, from)
    {
      var u := units[k];
      ghost var next := NearestHeroIn(units, from, range, k + 1);
      if u.team == Hero && u.IsAlive() {
        var dist := Abs(u.position.x - from.x) + Abs(u.position.y - from.y);
        assert dist == Manhattan(u.position, from);
        if (range.None? || dist <= range.value) && (best == -1 || dist < bestDistance) {
          assert next == k;
          bestDistance := dist;
          best := k;
        } else {
          assert next == best;
        }
      } else {
        assert next == best;
      }
      k := k + 1;
    }
  }

  // ---------------------------------------------------------------- greedy step

  /** StepToward's four candidates, in the order the source tries them. */
  function StepCandidates(from: Point): seq<Point>
  {
    [Point(from.x + 1, from.y), Point(from.x - 1, from.y),
     Point(from.x, from.y + 1), Point(from.x, from.y - 1)]
  }

  predicate Open(units: seq<Unit>, grid: Grid, p: Point)
  {
    grid.IsWalkable(p) && !Occupied(units, p)
  }

  /** The greedy step: the open orthogonal neighbour of `from` closest to
      `target`, the earliest candidate on a tie, or None when all four are
      blocked. */
  function BestStep(units: seq<Unit>, grid: Grid, from: Point, target: Point): W.Option<Point>
  {
    BestStepIn(units, grid, StepCandidates(from), target, 4)
  }

  /** The step taken is open, adjacent and no farther from the target than
      any other open candidate, and every open candidate before it in the
      order right, left, down, up is strictly farther; there is none
      exactly when all four are blocked. */
  lemma BestStepSpec(units: seq<Unit>, grid: Grid, from: Point, target: Point)
    ensures var r := BestStep(units, grid, from, target);
            && (r.None? <==> forall c :: c in StepCandidates(from) ==> !Open(units, grid, c))
            && (r.Some? ==> r.value in StepCandidates(from) && Open(units, grid, r.value) && IsAdjacent(from, r.value))
            && (r.Some? ==> forall c :: c in StepCandidates(from) && Open(units, grid, c) ==>
                              Manhattan(r.value, target) <= Manhattan(c, target))
            && (r.Some? ==> exists k :: 0 <= k < 4 && r.value == StepCandidates(from)[k]
                              && forall j :: 0 <= j < k && Open(units, grid, StepCandidates(from)[j]) ==>
                                   Manhattan(StepCandidates(from)[j], target) > Manhattan(r.value, target))
  {
    var cs := StepCandidates(from);
    BestStepInSpec(units, grid, cs, target, 4);
    assert forall c :: c in cs <==> exists k :: 0 <= k < 4 && c == cs[k];
  }

  /** The best candidate among the first `n`. */
  function BestStepIn(units: seq<Unit>, grid: Grid, cs: seq<Point>, target: Point, n: nat): (r: W.Option<Point>)
    requires n <= |cs|
  {
    if n == 0 then W.None
    else
      var best := BestStepIn(units, grid, cs, target, n - 1);
      var c := cs[n - 1];
      if Open(units, grid, c) && (best.None? || Manhattan(c, target) < Manhattan(best.value, target))
      then W.Some(c)
      else best
  }

  /** The scan over the first `n` candidates keeps the first open one
      closest to the target, and finds none exactly when none is open. */
  lemma {:induction false} BestStepInSpec(units: seq<Unit>, grid: Grid, cs: seq<Point>, target: Point, n: nat)
    requires n <= |cs|
    ensures var r := BestStepIn(units, grid, cs, target, n);
            && (r.None? <==> forall k :: 0 <= k < n ==> !Open(units, grid, cs[k]))
            && (r.Some? ==> Open(units, grid, r.value))
            && (r.Some? ==> forall k :: 0 <= k < n && Open(units, grid, cs[k]) ==>
                              Manhattan(r.value, target) <= Manhattan(cs[k], target))
            && (r.Some? ==> exists k :: 0 <= k < n && r.value == cs[k] && FirstClosest(units, grid, cs, target, k))
  {
    if n > 0 {
      BestStepInSpec(units, grid, cs, target, n - 1);
      var best := BestStepIn(units, grid, cs, target, n - 1);
      var c := cs[n - 1];
      if Open(units, grid, c) && (best.None? || Manhattan(c, target) < Manhattan(best.value, target)) {
        assert FirstClosest(units, grid, cs, target, n - 1);
      } else if best.Some? {
        var k :| 0 <= k < n - 1 && best.value == cs[k] && FirstClosest(units, grid, cs, target, k);
        assert BestStepIn(units, grid, cs, target, n) == best;
      }
    }
  }

  /** No open candidate before the k-th is as close to the target. */
  ghost predicate FirstClosest(units: seq<Unit>, grid: Grid, cs: seq<Point>, target: Point, k: nat)
    requires k < |cs|
  {
    forall j :: 0 <= j < k && Open(units, grid, cs[j]) ==> Manhattan(cs[j], target) > Manhattan(cs[k], target)
  }

  method StepToward(units: seq<Unit>, grid: Grid, from: Point, target: Point) returns (best: W.Option<Point>)
    ensures best == BestStep(units, grid, from, target)
  {
    var candidates := StepCandidates(from);
    best := W.None;
    var bestDistance := 0;
    var k := 0;
    while k < 4
      invariant 0 <= k <= 4
      invariant best == BestStepIn(units, grid, candidates, target, k)
      invariant best.Some? ==> bestDistance == Manhattan(best.value, target)
    {
      var candidate := candidates[k];
      var occupied := IsOccupied(units, candidate);
      if grid.IsWalkable(candidate) && !occupied {
        var dist := Abs(candidate.x - target.x) + Abs(candidate.y - target.y);
        if best.None? || dist < bestDistance {
          bestDistance := dist;
          best := W.Some(candidate);
        }
      }
      k := k + 1;
    }
  }

  // ---------------------------------------------------------------- threat range

  /** The threat diamond of GetRangeTiles: in-bounds cells at Manhattan
      distance 1..range from the origin. */
  ghost predicate InDiamond(grid: Grid, origin: Point, range: int, p: Point)
  {
    grid.InBounds(p) && 1 <= Manhattan(origin, p) <= range
  }

  /** GetRangeTiles collected into a set: the nested offset loops over
      [-range, range]^2, skipping distance 0 and distance above range. */
  method RangeTiles(origin: Point, range: int, grid: Grid) returns (tiles: set<Point>)
    ensures forall p :: p in tiles <==> InDiamond(grid, origin, range, p)
    ensures origin !in tiles
  {
    tiles := {};
    var dx := -range;
    while dx <= range
      invariant range >= 0 ==> -range <= dx <= range + 1
      invariant forall p :: p in tiles <==> (InDiamond(grid, origin, range, p) && p.x - origin.x < dx)
    {
      var dy := -range;
      while dy <= range
        invariant -range <= dy <= range + 1
        invariant forall p :: p in tiles <==> (InDiamond(grid, origin, range, p)
                    && (p.x - origin.x < dx || (p.x - origin.x == dx && p.y - origin.y < dy)))
      {
        var dist := Abs(dx) + Abs(dy);
        if dist != 0 && dist <= range {
          var point := Point(origin.x + dx, origin.y + dy);
          if grid.InBounds(point) {
            tiles := tiles + {point};
          }
        }
        dy := dy + 1;
      }
      dx := dx + 1;
    }
  }
}
