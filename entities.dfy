/** The roguelike's entities: the game state with its fixed-capacity enemy
    and item tables, spawning, tile-checked movement, Bresenham line of
    sight, the enemy update, melee, item pickup and the game-over test.
    Every draw of the C `rand()` stream is an explicit parameter. */
module Entities {
  import opened Wrappers
  import CombatTypes
  import opened RogueTypes

  /** A freshly spawned enemy of each kind: placed, active, not yet aggroed,
      at full health, with the kind's stats. */
  function EnemyOf(x: int, y: int, kind: EnemyType): (e: Enemy)
    ensures e.x == x && e.y == y && e.kind == kind && e.active && !e.aggro
    ensures e.health == e.maxHealth > 0 && e.attack > e.defense > 0 && e.sightRange >= 4
    ensures kind == Troll ==> e.health == 40 && e.attack == 12
  {
    match kind
    case Rat => Enemy(x, y, "Rat", 10, 10, 3, 1, 16, 4, kind, true, false)
    case Goblin => Enemy(x, y, "Goblin", 15, 15, 5, 2, 17, 5, kind, true, false)
    case Orc => Enemy(x, y, "Orc", 25, 25, 8, 3, 18, 6, kind, true, false)
    case Troll => Enemy(x, y, "Troll", 40, 40, 12, 5, 19, 4, kind, true, false)
  }

  /** A freshly placed item of each kind. Gold's value comes from one draw of
      the generator; no other kind consumes a draw. */
  function ItemOf(x: int, y: int, kind: ItemType, goldDraw: nat): (it: Item)
    ensures it.x == x && it.y == y && it.kind == kind && it.active && it.value > 0
    ensures kind == Gold ==> 10 <= it.value <= 29
    ensures kind == HealthPotion ==> it.value == 20
    ensures kind == Weapon ==> it.value == 5
    ensures kind == Armor ==> it.value == 3
  {
    match kind
    case HealthPotion => Item(x, y, "Health Potion", 20, 32, kind, true)
    case Weapon => Item(x, y, "Sword", 5, 33, kind, true)
    case Armor => Item(x, y, "Armor", 3, 34, kind, true)
    case Gold => Item(x, y, "Gold", 10 + goldDraw % 20, 35, kind, true)
  }

  /** Adding to a fixed table of which the first `count` slots are in use: a
      full table is left as it is; otherwise the next slot receives `x`, the
      count grows by exactly one and no other slot changes. */
  function Append<T>(slots: seq<T>, count: int, x: T): (r: (seq<T>, int))
    requires 0 <= count <= |slots|
    ensures |r.0| == |slots| && count <= r.1 <= |slots|
    ensures count == |slots| ==> r.0 == slots && r.1 == count
    ensures count < |slots| ==> r.1 == count + 1 && r.0[count] == x
    ensures forall i :: 0 <= i < |slots| && i != count ==> r.0[i] == slots[i]
  {
    if count >= |slots| then (slots, count) else (slots[count := x], count + 1)
  }

  /** The first index below `n`, from `i` on, whose element satisfies `p`,
      or -1 when there is none. */
  function FirstWhere<T>(s: seq<T>, n: int, p: T -> bool, i: nat): (k: int)
    requires n <= |s|
    ensures k == -1 || (i <= k < n && p(s[k]))
    decreases n - i
  {
    if i >= n then -1 else if p(s[i]) then i else FirstWhere(s, n, p, i + 1)
  }

  /** Nothing before the index FirstWhere returns satisfies `p`; -1 means
      nothing in [i, n) does. */
  lemma {:induction false} FirstWhereIsFirst<T>(s: seq<T>, n: int, p: T -> bool, i: nat)
    requires n <= |s|
    ensures var k := FirstWhere(s, n, p, i);
            forall j :: i <= j < n && (k == -1 || j < k) ==> !p(s[j])
    decreases n - i
  {
    if i < n && !p(s[i]) {
      FirstWhereIsFirst(s, n, p, i + 1);
    }
  }

  /** The test HandleCombat searches the enemy table with. */
  function EnemyOn(x: int, y: int): Enemy -> bool
  {
    (e: Enemy) => e.active && e.x == x && e.y == y
  }

  /** The test PickupItem searches the item table with. */
  function ItemOn(x: int, y: int): Item -> bool
  {
    (it: Item) => it.active && it.x == x && it.y == y
  }

  /** MoveEntity's verdict: the destination when it is on the map and is
      floor or door, None otherwise. */
  function Move(m: GameMap, x: int, y: int, dx: int, dy: int): (r: Option<(int, int)>)
    requires m.Valid()
    reads m, m.tiles
    ensures r.Some? <==> InMap(x + dx, y + dy) && Walkable(m.tiles[x + dx, y + dy])
    ensures r.Some? ==> r.value == (x + dx, y + dy)
  {
    if !InMap(x + dx, y + dy) then None
    else if Walkable(m.tiles[x + dx, y + dy]) then Some((x + dx, y + dy))
    else None
  }

  /** Where an entity at (x, y) ends after asking to move by (dx, dy). */
  function MovedTo(m: GameMap, x: int, y: int, dx: int, dy: int): (r: (int, int))
    requires m.Valid()
    reads m, m.tiles
  {
    Move(m, x, y, dx, dy).GetOr((x, y))
  }

  /** An entity either stays put or lands on a walkable map cell at most
      |dx| + |dy| away. */
  lemma MovedToStaysOnFloor(m: GameMap, x: int, y: int, dx: int, dy: int)
    requires m.Valid()
    ensures var r := MovedTo(m, x, y, dx, dy);
            r == (x, y) || (InMap(r.0, r.1) && Walkable(m.tiles[r.0, r.1]))
    ensures var r := MovedTo(m, x, y, dx, dy);
            CombatTypes.Abs(r.0 - x) + CombatTypes.Abs(r.1 - y) <= CombatTypes.Abs(dx) + CombatTypes.Abs(dy)
  {
  }

  /** MoveEntity: the C out-parameters *x and *y come back as newX and newY. */
  method MoveEntity(m: GameMap, x: int, y: int, dx: int, dy: int) returns (moved: bool, newX: int, newY: int)
    requires m.Valid()
    ensures moved <==> Move(m, x, y, dx, dy).Some?
    ensures (newX, newY) == MovedTo(m, x, y, dx, dy)
    ensures !moved ==> newX == x && newY == y
  {
    var nx := x + dx;
    var ny := y + dy;
    if nx < 0 || nx >= MapWidth || ny < 0 || ny >= MapHeight {
      return false, x, y;
    }
    var tile := m.tiles[nx, ny];
    if tile == Floor || tile == Door {
      return true, nx, ny;
    }
    return false, x, y;
  }

  /** The direction, -1, 0 or 1, that takes `from` towards `to`. */
  function Toward(from: int, to: int): (s: int)
    ensures s == 0 <==> from == to
    ensures (s == 1 <==> from < to) && (s == -1 <==> from > to)
  {
    if from < to then 1 else if from > to then -1 else 0
  }

  /** One round of the Bresenham walk of IsVisible from (x, y) towards
      (x2, y2): dx = |x2 - x0| and dy = -|y2 - y0| are fixed at the start,
      sx and sy are the step signs and err the running error. None when the
      walk stops: at the target, or as soon as the axis it would step along
      is already aligned; otherwise the cell stepped onto and the new error.
      Each round gets strictly closer to the target without overshooting. */
  function NextCell(x: int, y: int, x2: int, y2: int, dx: int, dy: int, sx: int, sy: int, err: int): (r: Option<(int, int, int)>)
    requires dy <= 0 <= dx
    requires x == x2 || sx == Toward(x, x2)
    requires y == y2 || sy == Toward(y, y2)
    ensures r.Some? ==> CombatTypes.Abs(x2 - r.value.0) + CombatTypes.Abs(y2 - r.value.1) < CombatTypes.Abs(x2 - x) + CombatTypes.Abs(y2 - y)
    ensures r.Some? ==> (r.value.0 == x2 || sx == Toward(r.value.0, x2)) && (r.value.1 == y2 || sy == Toward(r.value.1, y2))
    ensures r.Some? ==> Between(r.value.0, x, x2) && Between(r.value.1, y, y2)
  {
    if x == x2 && y == y2 then None
    else
      var e2 := 2 * err;
      if e2 >= dy && x == x2 then None
      else
        var x1 := if e2 >= dy then x + sx else x;
        var err1 := if e2 >= dy then err + dy else err;
        if e2 <= dx && y == y2 then None
        else
          var y1 := if e2 <= dx then y + sy else y;
          var err2 := if e2 <= dx then err1 + dx else err1;
          Some((x1, y1, err2))
  }

  /** The cells the walk steps onto, in order. */
  function SightLine(x: int, y: int, x2: int, y2: int, dx: int, dy: int, sx: int, sy: int, err: int): seq<(int, int)>
    requires dy <= 0 <= dx
    requires x == x2 || sx == Toward(x, x2)
    requires y == y2 || sy == Toward(y, y2)
    decreases CombatTypes.Abs(x2 - x) + CombatTypes.Abs(y2 - y)
  {
    match NextCell(x, y, x2, y2, dx, dy, sx, sy, err)
    case None => []
    case Some(n) => [(n.0, n.1)] + SightLine(n.0, n.1, x2, y2, dx, dy, sx, sy, n.2)
  }

  /** The whole walk from (x1, y1) to (x2, y2). */
  function Line(x1: int, y1: int, x2: int, y2: int): seq<(int, int)>
  {
    SightLine(x1, y1, x2, y2, CombatTypes.Abs(x2 - x1), -CombatTypes.Abs(y2 - y1),
              if x1 < x2 then 1 else -1, if y1 < y2 then 1 else -1, CombatTypes.Abs(x2 - x1) - CombatTypes.Abs(y2 - y1))
  }

  predicate Between(a: int, lo: int, hi: int)
  {
    lo <= a <= hi || hi <= a <= lo
  }

  /** Every cell the walk steps onto lies in the box spanned by its current
      position and the target, so a walk between two map cells never leaves
      the map. */
  lemma {:induction false} SightLineInBox(x: int, y: int, x2: int, y2: int, dx: int, dy: int, sx: int, sy: int, err: int)
    requires dy <= 0 <= dx
    requires x == x2 || sx == Toward(x, x2)
    requires y == y2 || sy == Toward(y, y2)
    ensures forall c :: c in SightLine(x, y, x2, y2, dx, dy, sx, sy, err) ==> Between(c.0, x, x2) && Between(c.1, y, y2)
    decreases CombatTypes.Abs(x2 - x) + CombatTypes.Abs(y2 - y)
  {
    var r := NextCell(x, y, x2, y2, dx, dy, sx, sy, err);
    if r.Some? {
      var n := r.value;
      SightLineInBox(n.0, n.1, x2, y2, dx, dy, sx, sy, n.2);
    }
  }

  /** The error Bresenham's walk carries when X columns and Y rows are
      still to go. */
  function Track(dx: int, dy: int, rx: int, ry: int): int
  {
    dx + dy - dx * ry - dy * rx
  }

  /** Bresenham's invariant, read from the target back: the running error
      is Track of the distances still to go, and neither distance exceeds
      its total. */
  predicate OnTrack(x: int, y: int, x2: int, y2: int, dx: int, dy: int, err: int)
  {
    dy <= 0 <= dx
    && CombatTypes.Abs(x2 - x) <= dx && CombatTypes.Abs(y2 - y) <= -dy
    && err == Track(dx, dy, CombatTypes.Abs(x2 - x), CombatTypes.Abs(y2 - y))
  }

  /** The arithmetic behind OnTrack: neither early break fires while the
      other axis still has distance to go, and each step moves the error
      to the Track of the shorter distances. */
  lemma TrackSteps(dx: int, dy: int, rx: int, ry: int)
    requires dy <= 0 <= dx && 0 <= rx <= dx && 0 <= ry <= -dy
    ensures rx == 0 && ry >= 1 ==> 2 * Track(dx, dy, rx, ry) < dy
    ensures ry == 0 && rx >= 1 ==> 2 * Track(dx, dy, rx, ry) > dx
    ensures Track(dx, dy, rx, ry) + dy == Track(dx, dy, rx - 1, ry)
    ensures Track(dx, dy, rx, ry) + dx == Track(dx, dy, rx, ry - 1)
    ensures Track(dx, dy, rx, ry) + dy + dx == Track(dx, dy, rx - 1, ry - 1)
  {
    assert dy * (rx - 1) == dy * rx - dy;
    assert dx * (ry - 1) == dx * ry - dx;
    if rx == 0 && ry >= 1 {
      assert dx * ry == dx + dx * (ry - 1);
      assert dx * (ry - 1) >= 0;
    }
    if ry == 0 && rx >= 1 {
      assert dy * rx == dy + dy * (rx - 1);
      assert dy * (rx - 1) <= 0;
    }
  }

  /** On track, the walk stops exactly at the target (neither early break
      fires before it) and every step stays on track. */
  lemma NextCellOnTrack(x: int, y: int, x2: int, y2: int, dx: int, dy: int, sx: int, sy: int, err: int)
    requires OnTrack(x, y, x2, y2, dx, dy, err)
    requires x == x2 || sx == Toward(x, x2)
    requires y == y2 || sy == Toward(y, y2)
    ensures var r := NextCell(x, y, x2, y2, dx, dy, sx, sy, err);
            (r.None? <==> x == x2 && y == y2)
            && (r.Some? ==> OnTrack(r.value.0, r.value.1, x2, y2, dx, dy, r.value.2))
  {
    var rx := CombatTypes.Abs(x2 - x);
    var ry := CombatTypes.Abs(y2 - y);
    TrackSteps(dx, dy, rx, ry);
    if x == x2 && y == y2 {
      return;
    }
    var e2 := 2 * err;
    var xs := e2 >= dy;
    var ys := e2 <= dx;
    assert xs ==> x != x2;
    assert ys ==> y != y2;
    var x1 := if xs then x + sx else x;
    var y1 := if ys then y + sy else y;
    var rx1 := if xs then rx - 1 else rx;
    var ry1 := if ys then ry - 1 else ry;
    assert CombatTypes.Abs(x2 - x1) == rx1;
    assert CombatTypes.Abs(y2 - y1) == ry1;
    var err2 := err + (if xs then dy else 0) + (if ys then dx else 0);
    assert err2 == Track(dx, dy, rx1, ry1);
    assert NextCell(x, y, x2, y2, dx, dy, sx, sy, err) == Some((x1, y1, err2));
  }

  /** A walk on track from a cell other than the target is not empty and
      its last cell is the target. */
  lemma {:induction false} SightLineEndsAtTarget(x: int, y: int, x2: int, y2: int, dx: int, dy: int, sx: int, sy: int, err: int)
    requires OnTrack(x, y, x2, y2, dx, dy, err)
    requires x == x2 || sx == Toward(x, x2)
    requires y == y2 || sy == Toward(y, y2)
    requires (x, y) != (x2, y2)
    ensures var line := SightLine(x, y, x2, y2, dx, dy, sx, sy, err);
            |line| > 0 && line[|line| - 1] == (x2, y2)
    decreases CombatTypes.Abs(x2 - x) + CombatTypes.Abs(y2 - y)
  {
    NextCellOnTrack(x, y, x2, y2, dx, dy, sx, sy, err);
    var n := NextCell(x, y, x2, y2, dx, dy, sx, sy, err).value;
    var rest := SightLine(n.0, n.1, x2, y2, dx, dy, sx, sy, n.2);
    SightLineUnfolds(x, y, x2, y2, dx, dy, sx, sy, err, n);
    if (n.0, n.1) == (x2, y2) {
      assert rest == [];
    } else {
      SightLineEndsAtTarget(n.0, n.1, x2, y2, dx, dy, sx, sy, n.2);
      assert ([(n.0, n.1)] + rest)[|rest|] == rest[|rest| - 1];
    }
  }

  /** IsVisible's walk between two different cells ends on the second. */
  lemma LineEndsAtTarget(x1: int, y1: int, x2: int, y2: int)
    requires (x1, y1) != (x2, y2)
    ensures |Line(x1, y1, x2, y2)| > 0 && Line(x1, y1, x2, y2)[|Line(x1, y1, x2, y2)| - 1] == (x2, y2)
  {
    var dx, dy := CombatTypes.Abs(x2 - x1), -CombatTypes.Abs(y2 - y1);
    var sx, sy := if x1 < x2 then 1 else -1, if y1 < y2 then 1 else -1;
    var line := SightLine(x1, y1, x2, y2, dx, dy, sx, sy, CombatTypes.Abs(x2 - x1) - CombatTypes.Abs(y2 - y1));
    assert Line(x1, y1, x2, y2) == line;
    StartsOnTrack(x1, y1, x2, y2);
    SightLineEndsAtTarget(x1, y1, x2, y2, dx, dy, sx, sy, CombatTypes.Abs(x2 - x1) - CombatTypes.Abs(y2 - y1));
  }

  /** The walk starts on track: the whole distance still to go and the
      error at dx + dy. */
  lemma StartsOnTrack(x1: int, y1: int, x2: int, y2: int)
    ensures OnTrack(x1, y1, x2, y2, CombatTypes.Abs(x2 - x1), -CombatTypes.Abs(y2 - y1),
                    CombatTypes.Abs(x2 - x1) - CombatTypes.Abs(y2 - y1))
  {
    var ax := CombatTypes.Abs(x2 - x1);
    var ay := CombatTypes.Abs(y2 - y1);
    assert (-ay) * ax == -(ax * ay);
  }

  predicate WallAt(m: GameMap, c: (int, int))
    requires m.Valid()
    reads m, m.tiles
  {
    InMap(c.0, c.1) && m.tiles[c.0, c.1] == Wall
  }

  /** No cell of the walk is a wall. */
  predicate Clear(m: GameMap, cells: seq<(int, int)>)
    requires m.Valid()
    reads m, m.tiles
  {
    |cells| == 0 || (!WallAt(m, cells[0]) && Clear(m, cells[1..]))
  }

  /** A walk that takes a step is that step followed by the rest of the walk. */
  lemma SightLineUnfolds(x: int, y: int, x2: int, y2: int, dx: int, dy: int, sx: int, sy: int, err: int, n: (int, int, int))
    requires dy <= 0 <= dx
    requires x == x2 || sx == Toward(x, x2)
    requires y == y2 || sy == Toward(y, y2)
    requires NextCell(x, y, x2, y2, dx, dy, sx, sy, err) == Some(n)
    ensures SightLine(x, y, x2, y2, dx, dy, sx, sy, err) == [(n.0, n.1)] + SightLine(n.0, n.1, x2, y2, dx, dy, sx, sy, n.2)
  {
  }

  /** A walk is clear exactly when its first cell is no wall and the rest
      of it is clear. */
  lemma ClearCons(m: GameMap, c: (int, int), rest: seq<(int, int)>)
    requires m.Valid()
    ensures Clear(m, [c] + rest) <==> !WallAt(m, c) && Clear(m, rest)
  {
    assert ([c] + rest)[1..] == rest;
  }

  /** The walk from (x, y) meets no wall: the loop of IsVisible read as a
      recursion. */
  ghost predicate VisibleFrom(m: GameMap, x: int, y: int, x2: int, y2: int, dx: int, dy: int, sx: int, sy: int, err: int)
    requires m.Valid() && dy <= 0 <= dx
    requires x == x2 || sx == Toward(x, x2)
    requires y == y2 || sy == Toward(y, y2)
    reads m, m.tiles
    decreases CombatTypes.Abs(x2 - x) + CombatTypes.Abs(y2 - y)
  {
    match NextCell(x, y, x2, y2, dx, dy, sx, sy, err)
    case None => true
    case Some(n) => !WallAt(m, (n.0, n.1)) && VisibleFrom(m, n.0, n.1, x2, y2, dx, dy, sx, sy, n.2)
  }

  lemma {:induction false} VisibleFromIsClear(m: GameMap, x: int, y: int, x2: int, y2: int, dx: int, dy: int, sx: int, sy: int, err: int)
    requires m.Valid() && dy <= 0 <= dx
    requires x == x2 || sx == Toward(x, x2)
    requires y == y2 || sy == Toward(y, y2)
    ensures VisibleFrom(m, x, y, x2, y2, dx, dy, sx, sy, err) == Clear(m, SightLine(x, y, x2, y2, dx, dy, sx, sy, err))
    decreases CombatTypes.Abs(x2 - x) + CombatTypes.Abs(y2 - y)
  {
    match NextCell(x, y, x2, y2, dx, dy, sx, sy, err)
    case None =>
    case Some(n) =>
      VisibleFromIsClear(m, n.0, n.1, x2, y2, dx, dy, sx, sy, n.2);
      SightLineUnfolds(x, y, x2, y2, dx, dy, sx, sy, err, n);
      ClearCons(m, (n.0, n.1), SightLine(n.0, n.1, x2, y2, dx, dy, sx, sy, n.2));
  }

  /** The body of IsVisible's loop up to the wall test: the walk stops, or
      steps onto the next cell. */
  method WalkStep(x: int, y: int, x2: int, y2: int, dx: int, dy: int, sx: int, sy: int, err: int)
    returns (stop: bool, nx: int, ny: int, nerr: int)
    requires dy <= 0 <= dx
    requires x == x2 || sx == Toward(x, x2)
    requires y == y2 || sy == Toward(y, y2)
    ensures stop <==> NextCell(x, y, x2, y2, dx, dy, sx, sy, err).None?
    ensures !stop ==> NextCell(x, y, x2, y2, dx, dy, sx, sy, err) == Some((nx, ny, nerr))
    ensures !stop ==> CombatTypes.Abs(x2 - nx) + CombatTypes.Abs(y2 - ny) < CombatTypes.Abs(x2 - x) + CombatTypes.Abs(y2 - y)
    ensures !stop ==> (nx == x2 || sx == Toward(nx, x2)) && (ny == y2 || sy == Toward(ny, y2))
    ensures !stop ==> Between(nx, x, x2) && Between(ny, y, y2)
  {
    nx, ny, nerr := x, y, err;
    if nx == x2 && ny == y2 {
      return true, nx, ny, nerr;
    }
    var e2 := 2 * nerr;
    if e2 >= dy {
      if nx == x2 {
        return true, nx, ny, nerr;
      }
      nerr := nerr + dy;
      nx := nx + sx;
    }
    if e2 <= dx {
      if ny == y2 {
        return true, nx, ny, nerr;
      }
      nerr := nerr + dx;
      ny := ny + sy;
    }
    stop := false;
  }

  /** A clear walk steps onto no wall. */
  lemma {:induction false} ClearAvoidsWalls(m: GameMap, cells: seq<(int, int)>, i: int)
    requires m.Valid() && Clear(m, cells) && 0 <= i < |cells|
    ensures !WallAt(m, cells[i])
    decreases |cells|
  {
    if i > 0 {
      ClearAvoidsWalls(m, cells[1..], i - 1);
    }
  }

  /** A wall on the target hides it from any other cell: the walk ends on
      the target, so the target itself is checked. */
  lemma WallOnTargetBlocksSight(m: GameMap, x1: int, y1: int, x2: int, y2: int)
    requires m.Valid() && InMap(x2, y2) && (x1, y1) != (x2, y2)
    requires m.tiles[x2, y2] == Wall
    ensures !Clear(m, Line(x1, y1, x2, y2))
  {
    LineEndsAtTarget(x1, y1, x2, y2);
    var line := Line(x1, y1, x2, y2);
    if Clear(m, line) {
      ClearAvoidsWalls(m, line, |line| - 1);
      assert false;
    }
  }

  /** IsVisible: true when the two points coincide; false as soon as a cell
      stepped onto, the target included, is a wall. So the result is exactly
      "no wall anywhere on the walk". The set-up is here and the loop in
      WalkIsClear. */
  method IsVisible(m: GameMap, x1: int, y1: int, x2: int, y2: int) returns (visible: bool)
    requires m.Valid() && InMap(x1, y1) && InMap(x2, y2)
    ensures visible <==> Clear(m, Line(x1, y1, x2, y2))
    ensures x1 == x2 && y1 == y2 ==> visible
    ensures (x1, y1) != (x2, y2) && m.tiles[x2, y2] == Wall ==> !visible
  {
    if (x1, y1) != (x2, y2) && m.tiles[x2, y2] == Wall {
      WallOnTargetBlocksSight(m, x1, y1, x2, y2);
    }
    var dx := CombatTypes.Abs(x2 - x1);
    var dy := -CombatTypes.Abs(y2 - y1);
    var sx := if x1 < x2 then 1 else -1;
    var sy := if y1 < y2 then 1 else -1;
    var err := dx + dy;
    assert Line(x1, y1, x2, y2) == SightLine(x1, y1, x2, y2, dx, dy, sx, sy, err);
    VisibleFromIsClear(m, x1, y1, x2, y2, dx, dy, sx, sy, err);
    visible := WalkIsClear(m, x1, y1, x2, y2, dx, dy, sx, sy, err);
  }

  /** The loop of IsVisible: step until the walk stops (visible) or steps
      onto a wall (not visible). */
  method WalkIsClear(m: GameMap, x1: int, y1: int, x2: int, y2: int, dx: int, dy: int, sx: int, sy: int, err0: int)
    returns (visible: bool)
    requires m.Valid() && InMap(x1, y1) && InMap(x2, y2) && dy <= 0 <= dx
    requires x1 == x2 || sx == Toward(x1, x2)
    requires y1 == y2 || sy == Toward(y1, y2)
    ensures visible == VisibleFrom(m, x1, y1, x2, y2, dx, dy, sx, sy, err0)
  {
    var x, y, err := x1, y1, err0;
    while true
      invariant Between(x, x1, x2) && Between(y, y1, y2)
      invariant x == x2 || sx == Toward(x, x2)
      invariant y == y2 || sy == Toward(y, y2)
      invariant VisibleFrom(m, x, y, x2, y2, dx, dy, sx, sy, err) == VisibleFrom(m, x1, y1, x2, y2, dx, dy, sx, sy, err0)
      decreases CombatTypes.Abs(x2 - x) + CombatTypes.Abs(y2 - y)
    {
      var stop;
      stop, x, y, err := WalkStep(x, y, x2, y2, dx, dy, sx, sy, err);
      if stop {
        return true;
      }
      if m.tiles[x, y] == Wall {
        return false;
      }
    }
  }

  /** The random draws one enemy's update may consume: the coin choosing
      which axis to try first, the 20% wander chance and the wander
      direction. */
  datatype EnemyDraw = EnemyDraw(coin: nat, chance: nat, dir: nat)

  /** Up, right, down, left. */
  const WanderDirections: seq<(int, int)> := [(0, -1), (1, 0), (0, 1), (-1, 0)]

  /** The damage an enemy's melee deals to the player. */
  function MeleeDamage(attack: int, defense: int): (d: int)
    ensures d >= 1 && d >= attack - defense
  {
    CombatTypes.Max(1, attack - defense)
  }

  /** The enemy at (e.x, e.y) has the player within its sight range and
      nothing blocks the walk between them. */
  predicate Sees(m: GameMap, e: Enemy, p: Player)
    requires m.Valid()
    reads m, m.tiles
  {
    CombatTypes.Abs(p.x - e.x) + CombatTypes.Abs(p.y - e.y) <= e.sightRange && Clear(m, Line(e.x, e.y, p.x, p.y))
  }

  /** Try one offset, and the other only if the first move is refused. */
  function StepOff(m: GameMap, x: int, y: int, first: (int, int), second: (int, int)): (int, int)
    requires m.Valid()
    reads m, m.tiles
  {
    if Move(m, x, y, first.0, first.1).Some? then MovedTo(m, x, y, first.0, first.1)
    else MovedTo(m, x, y, second.0, second.1)
  }

  predicate UnitOffset(d: (int, int))
  {
    CombatTypes.Abs(d.0) + CombatTypes.Abs(d.1) <= 1
  }

  /** With offsets of at most one cell, the entity stays or moves one cell
      onto a walkable map cell. */
  lemma StepOffStaysOnFloor(m: GameMap, x: int, y: int, first: (int, int), second: (int, int))
    requires m.Valid() && UnitOffset(first) && UnitOffset(second)
    ensures var r := StepOff(m, x, y, first, second);
            r == (x, y)
            || (InMap(r.0, r.1) && Walkable(m.tiles[r.0, r.1]) && CombatTypes.Abs(r.0 - x) + CombatTypes.Abs(r.1 - y) == 1)
  {
    MovedToStaysOnFloor(m, x, y, first.0, first.1);
    MovedToStaysOnFloor(m, x, y, second.0, second.1);
  }

  /** The chase step: towards the player, the horizontal axis first on an
      even coin and the vertical one first on an odd coin. */
  function ChaseStep(m: GameMap, e: Enemy, p: Player, coin: nat): (int, int)
    requires m.Valid()
    reads m, m.tiles
  {
    var mx := Toward(e.x, p.x);
    var my := Toward(e.y, p.y);
    if coin % 2 == 0 then StepOff(m, e.x, e.y, (mx, 0), (0, my))
    else StepOff(m, e.x, e.y, (0, my), (mx, 0))
  }

  /** One enemy's turn: an active enemy that sees the player aggroes, steps
      towards a player more than one cell away or strikes a player one cell
      away; an active enemy that does not see the player wanders one step
      with probability 20%. */
  function EnemyUpdate(m: GameMap, e: Enemy, p: Player, d: EnemyDraw): (r: (Enemy, Player))
    requires m.Valid() && InMap(p.x, p.y) && (e.active ==> InMap(e.x, e.y))
    reads m, m.tiles
    ensures !e.active ==> r == (e, p)
    ensures r.0.active == e.active && r.0.health == e.health && r.0.attack == e.attack
    ensures r.1.x == p.x && r.1.y == p.y && r.1.health <= p.health
  {
    if !e.active then (e, p)
    else
      var distance := CombatTypes.Abs(p.x - e.x) + CombatTypes.Abs(p.y - e.y);
      if Sees(m, e, p) then
        if distance > 1 then
          var pos := ChaseStep(m, e, p, d.coin);
          (e.(x := pos.0, y := pos.1, aggro := true), p)
        else if distance == 1 then
          (e.(aggro := true), p.(health := p.health - MeleeDamage(e.attack, p.defense)))
        else
          (e.(aggro := true), p)
      else if d.chance % 100 < 20 then
        var dir := WanderDirections[d.dir % 4];
        var pos := MovedTo(m, e.x, e.y, dir.0, dir.1);
        (e.(x := pos.0, y := pos.1), p)
      else
        (e, p)
  }

  /** What one enemy's update does to the player: nothing unless the enemy
      is active and one cell away, and then a strike of at least one point;
      the player never moves and never gains health. */
  lemma EnemyUpdateHurts(m: GameMap, e: Enemy, p: Player, d: EnemyDraw)
    requires m.Valid() && InMap(p.x, p.y) && (e.active ==> InMap(e.x, e.y))
    ensures var r := EnemyUpdate(m, e, p, d);
            r.1 == p.(health := r.1.health) && r.1.health <= p.health
            && (r.1.health != p.health ==>
                  e.active && CombatTypes.Abs(p.x - e.x) + CombatTypes.Abs(p.y - e.y) == 1
                  && r.1.health == p.health - MeleeDamage(e.attack, p.defense))
  {
  }

  /** What one enemy's update does to the enemy: an inactive one is left
      alone; an active one only moves, onto a walkable map cell one step
      away, and can only gain aggro. */
  lemma EnemyUpdateMoves(m: GameMap, e: Enemy, p: Player, d: EnemyDraw)
    requires m.Valid() && InMap(p.x, p.y) && (e.active ==> InMap(e.x, e.y))
    ensures var r := EnemyUpdate(m, e, p, d);
            (!e.active ==> r.0 == e)
            && r.0 == e.(x := r.0.x, y := r.0.y, aggro := r.0.aggro)
            && (e.aggro ==> r.0.aggro)
            && ((r.0.x, r.0.y) == (e.x, e.y)
                || (InMap(r.0.x, r.0.y) && Walkable(m.tiles[r.0.x, r.0.y])
                    && CombatTypes.Abs(r.0.x - e.x) + CombatTypes.Abs(r.0.y - e.y) == 1))
  {
    var r := EnemyUpdate(m, e, p, d);
    if e.active {
      var distance := CombatTypes.Abs(p.x - e.x) + CombatTypes.Abs(p.y - e.y);
      if Sees(m, e, p) {
        if distance > 1 {
          ChaseStepStaysOnFloor(m, e, p, d.coin);
          assert (r.0.x, r.0.y) == ChaseStep(m, e, p, d.coin);
        }
      } else if d.chance % 100 < 20 {
        var dir := WanderDirections[d.dir % 4];
        MovedToStaysOnFloor(m, e.x, e.y, dir.0, dir.1);
        assert (r.0.x, r.0.y) == MovedTo(m, e.x, e.y, dir.0, dir.1);
      }
    }
  }

  /** A chase step stays put or moves one cell onto a walkable map cell. */
  lemma ChaseStepStaysOnFloor(m: GameMap, e: Enemy, p: Player, coin: nat)
    requires m.Valid()
    ensures var r := ChaseStep(m, e, p, coin);
            r == (e.x, e.y)
            || (InMap(r.0, r.1) && Walkable(m.tiles[r.0, r.1]) && CombatTypes.Abs(r.0 - e.x) + CombatTypes.Abs(r.1 - e.y) == 1)
  {
    var mx := Toward(e.x, p.x);
    var my := Toward(e.y, p.y);
    StepOffStaysOnFloor(m, e.x, e.y, (mx, 0), (0, my));
    StepOffStaysOnFloor(m, e.x, e.y, (0, my), (mx, 0));
  }

  /** Every active enemy among the first `n` stands on the map. */
  predicate Placed(es: seq<Enemy>, n: int)
  {
    forall j :: 0 <= j < n && j < |es| && es[j].active ==> InMap(es[j].x, es[j].y)
  }

  /** UpdateEnemies from index i on: each enemy in turn, each seeing the
      player as the previous enemies left it. */
  function UpdateFrom(m: GameMap, es: seq<Enemy>, p: Player, draws: seq<EnemyDraw>, i: nat, n: int): (r: (seq<Enemy>, Player))
    requires m.Valid() && n <= |es| && n <= |draws| && InMap(p.x, p.y) && Placed(es, n)
    reads m, m.tiles
    decreases n - i
  {
    if i >= n then (es, p)
    else
      var u := EnemyUpdate(m, es[i], p, draws[i]);
      EnemyUpdateMoves(m, es[i], p, draws[i]);
      UpdateFrom(m, es[i := u.0], u.1, draws, i + 1, n)
  }

  /** One enemy of the pass: the pass from i is that enemy's update followed
      by the pass from i + 1. */
  lemma UpdateFromStep(m: GameMap, es: seq<Enemy>, next: seq<Enemy>, p: Player, q: Player, draws: seq<EnemyDraw>, i: nat, n: int)
    requires m.Valid() && n <= |es| && n <= |draws| && InMap(p.x, p.y) && Placed(es, n) && i < n
    requires next == es[i := EnemyUpdate(m, es[i], p, draws[i]).0] && q == EnemyUpdate(m, es[i], p, draws[i]).1
    ensures InMap(q.x, q.y) && Placed(next, n)
    ensures UpdateFrom(m, es, p, draws, i, n) == UpdateFrom(m, next, q, draws, i + 1, n)
  {
    EnemyUpdateHurts(m, es[i], p, draws[i]);
    EnemyUpdateMoves(m, es[i], p, draws[i]);
  }

  /** Over a whole enemy pass the player keeps position and stats and never
      gains health, and the enemies stay placed. */
  lemma {:induction false} UpdateFromEffect(m: GameMap, es: seq<Enemy>, p: Player, draws: seq<EnemyDraw>, i: nat, n: int)
    requires m.Valid() && n <= |es| && n <= |draws| && InMap(p.x, p.y) && Placed(es, n)
    ensures var r := UpdateFrom(m, es, p, draws, i, n);
            r.1 == p.(health := r.1.health) && r.1.health <= p.health
            && |r.0| == |es| && Placed(r.0, n)
            && forall j :: 0 <= j < |es| && (j < i || j >= n) ==> r.0[j] == es[j]
    decreases n - i
  {
    if i < n {
      var u := EnemyUpdate(m, es[i], p, draws[i]);
      EnemyUpdateHurts(m, es[i], p, draws[i]);
      EnemyUpdateMoves(m, es[i], p, draws[i]);
      UpdateFromEffect(m, es[i := u.0], u.1, draws, i + 1, n);
    }
  }

  /** The game state: the player, the fixed enemy and item tables with their
      counts, and the turn bookkeeping. The message buffer is not modelled. */
  class GameState {
    var player: Player
    const enemies: array<Enemy>
    const items: array<Item>
    var enemyCount: int
    var itemCount: int
    var turn: int
    var playerTurn: bool
    var level: int
    var gameOver: bool

    /** The tables have their C capacities. */
    ghost predicate Sized()
      reads this
    {
      enemies.Length == MaxEnemies && items.Length == MaxItems
    }

    /** ... and the counts stay within them. */
    ghost predicate Valid()
      reads this
    {
      Sized() && 0 <= enemyCount <= MaxEnemies && 0 <= itemCount <= MaxItems
    }

    constructor ()
      ensures Sized() && fresh(enemies) && fresh(items)
    {
      player := Player(0, 0, 0, 0, 0, 0);
      enemies := new Enemy[MaxEnemies];
      items := new Item[MaxItems];
    }

    /** InitGameState: the player's starting stats, empty tables, turn 0 of
        level 1 with the player to move. The player's position is kept. */
    method InitGameState()
      requires Sized()
      modifies this
      ensures Valid()
      ensures player == old(player).(health := 100, maxHealth := 100, attack := 10, defense := 5)
      ensures enemyCount == 0 && itemCount == 0 && turn == 0 && playerTurn && level == 1 && !gameOver
    {
      player := player.(health := 100, maxHealth := 100, attack := 10, defense := 5);
      enemyCount := 0;
      itemCount := 0;
      turn := 0;
      playerTurn := true;
      level := 1;
      gameOver := false;
    }

    /** CreateEnemy: a no-op on a full table; otherwise the enemy of the
        kind goes into the next slot. */
    method CreateEnemy(x: int, y: int, kind: EnemyType)
      requires Valid()
      modifies this, enemies
      ensures Valid()
      ensures (enemies[..], enemyCount) == Append(old(enemies[..]), old(enemyCount), EnemyOf(x, y, kind))
      ensures player == old(player) && itemCount == old(itemCount) && turn == old(turn)
      ensures playerTurn == old(playerTurn) && level == old(level) && gameOver == old(gameOver)
    {
      if enemyCount >= MaxEnemies {
        return;
      }
      enemies[enemyCount] := EnemyOf(x, y, kind);
      enemyCount := enemyCount + 1;
    }

    /** CreateItem: a no-op on a full table; otherwise the item of the kind
        goes into the next slot. */
    method CreateItem(x: int, y: int, kind: ItemType, goldDraw: nat)
      requires Valid()
      modifies this, items
      ensures Valid()
      ensures (items[..], itemCount) == Append(old(items[..]), old(itemCount), ItemOf(x, y, kind, goldDraw))
      ensures player == old(player) && enemyCount == old(enemyCount) && turn == old(turn)
      ensures playerTurn == old(playerTurn) && level == old(level) && gameOver == old(gameOver)
    {
      if itemCount >= MaxItems {
        return;
      }
      items[itemCount] := ItemOf(x, y, kind, goldDraw);
      itemCount := itemCount + 1;
    }

    /** UpdateEnemies: every enemy slot in use, in order, with its own draws. */
    method UpdateEnemies(m: GameMap, draws: seq<EnemyDraw>)
      requires Valid() && m.Valid() && enemyCount <= |draws|
      requires InMap(player.x, player.y) && Placed(enemies[..], enemyCount)
      modifies this, enemies
      ensures Valid() && enemyCount == old(enemyCount) && itemCount == old(itemCount)
      ensures (enemies[..], player) == UpdateFrom(m, old(enemies[..]), old(player), draws, 0, old(enemyCount))
      ensures turn == old(turn) && playerTurn == old(playerTurn) && level == old(level) && gameOver == old(gameOver)
    {
      ghost var goal := UpdateFrom(m, enemies[..], player, draws, 0, enemyCount);
      var i := 0;
      while i < enemyCount
        invariant Valid() && m.Valid() && enemyCount == old(enemyCount) && itemCount == old(itemCount)
        invariant 0 <= i <= enemyCount && InMap(player.x, player.y) && Placed(enemies[..], enemyCount)
        invariant UpdateFrom(m, enemies[..], player, draws, i, enemyCount) == goal
        invariant turn == old(turn) && playerTurn == old(playerTurn) && level == old(level) && gameOver == old(gameOver)
      {
        var u := UpdateOne(m, enemies[i], player, draws[i]);
        UpdateFromStep(m, enemies[..], enemies[..][i := u.0], player, u.1, draws, i, enemyCount);
        enemies[i] := u.0;
        player := u.1;
        i := i + 1;
      }
    }

    /** HandleCombat: the first active enemy standing on the target cell
        takes the player's strike; nothing else changes. */
    method HandleCombat(targetX: int, targetY: int)
      requires Valid()
      modifies enemies
      ensures var k := FirstWhere(old(enemies[..]), enemyCount, EnemyOn(targetX, targetY), 0);
              enemies[..] == if k < 0 then old(enemies[..]) else old(enemies[..])[k := Struck(old(enemies[k]), player.attack)]
    {
      var i := 0;
      while i < enemyCount
        invariant 0 <= i <= enemyCount && enemies[..] == old(enemies[..])
        invariant FirstWhere(enemies[..], enemyCount, EnemyOn(targetX, targetY), 0) == FirstWhere(enemies[..], enemyCount, EnemyOn(targetX, targetY), i)
      {
        var enemy := enemies[i];
        if enemy.active && enemy.x == targetX && enemy.y == targetY {
          enemies[i] := Struck(enemy, player.attack);
          return;
        }
        i := i + 1;
      }
    }

    /** PickupItem: the first active item on the player's cell is used up and
        applied to the player; with none, nothing changes. */
    method PickupItem()
      requires Valid()
      modifies this, items
      ensures Valid() && enemyCount == old(enemyCount) && itemCount == old(itemCount)
      ensures var k := FirstWhere(old(items[..]), old(itemCount), ItemOn(old(player.x), old(player.y)), 0);
              if k < 0 then items[..] == old(items[..]) && player == old(player)
              else items[..] == old(items[..])[k := old(items[k]).(active := false)]
                   && player == Consume(old(player), old(items[k]))
      ensures turn == old(turn) && playerTurn == old(playerTurn) && level == old(level) && gameOver == old(gameOver)
    {
      var i := 0;
      while i < itemCount
        invariant 0 <= i <= itemCount && items[..] == old(items[..]) && player == old(player)
        invariant FirstWhere(items[..], itemCount, ItemOn(player.x, player.y), 0) == FirstWhere(items[..], itemCount, ItemOn(player.x, player.y), i)
      {
        var item := items[i];
        if item.active && item.x == player.x && item.y == player.y {
          player := Consume(player, item);
          items[i] := item.(active := false);
          return;
        }
        i := i + 1;
      }
    }

    /** CheckGameOver: true exactly when the player's health is gone, and
        then the game is over for good. */
    method CheckGameOver() returns (over: bool)
      modifies this
      ensures over <==> player.health <= 0
      ensures gameOver == (old(gameOver) || over)
      ensures player == old(player) && enemyCount == old(enemyCount) && itemCount == old(itemCount)
      ensures turn == old(turn) && playerTurn == old(playerTurn) && level == old(level)
    {
      if player.health <= 0 {
        gameOver := true;
        return true;
      }
      return false;
    }
  }

  /** MoveEntity by the first offset, and by the second only when the
      first move is refused. */
  method TryMoves(m: GameMap, x: int, y: int, first: (int, int), second: (int, int)) returns (nx: int, ny: int)
    requires m.Valid()
    ensures (nx, ny) == StepOff(m, x, y, first, second)
  {
    var moved;
    moved, nx, ny := MoveEntity(m, x, y, first.0, first.1);
    if !moved {
      moved, nx, ny := MoveEntity(m, x, y, second.0, second.1);
    }
  }

  /** The enemy's sight test: the player within sight range, then the line
      of sight, walked only when the range test passes. */
  method SeesPlayer(m: GameMap, e: Enemy, p: Player) returns (sees: bool)
    requires m.Valid() && InMap(p.x, p.y) && InMap(e.x, e.y)
    ensures sees == Sees(m, e, p)
  {
    sees := false;
    if CombatTypes.Abs(p.x - e.x) + CombatTypes.Abs(p.y - e.y) <= e.sightRange {
      sees := IsVisible(m, e.x, e.y, p.x, p.y);
    }
  }

  /** The enemy update computed step by step, as UpdateEnemies does it. */
  method UpdateOne(m: GameMap, e: Enemy, p: Player, d: EnemyDraw) returns (r: (Enemy, Player))
    requires m.Valid() && InMap(p.x, p.y) && (e.active ==> InMap(e.x, e.y))
    ensures r == EnemyUpdate(m, e, p, d)
  {
    if !e.active {
      return (e, p);
    }
    var distance := CombatTypes.Abs(p.x - e.x) + CombatTypes.Abs(p.y - e.y);
    var sees := SeesPlayer(m, e, p);
    if sees {
      if distance > 1 {
        var mx := Toward(e.x, p.x);
        var my := Toward(e.y, p.y);
        var x, y;
        if d.coin % 2 == 0 {
          x, y := TryMoves(m, e.x, e.y, (mx, 0), (0, my));
        } else {
          x, y := TryMoves(m, e.x, e.y, (0, my), (mx, 0));
        }
        return (e.(x := x, y := y, aggro := true), p);
      } else if distance == 1 {
        var damage := e.attack - p.defense;
        if damage < 1 {
          damage := 1;
        }
        return (e.(aggro := true), p.(health := p.health - damage));
      }
      return (e.(aggro := true), p);
    } else if d.chance % 100 < 20 {
      var dir := WanderDirections[d.dir % 4];
      var moved, x, y := MoveEntity(m, e.x, e.y, dir.0, dir.1);
      return (e.(x := x, y := y), p);
    }
    return (e, p);
  }

  /** The player's strike on an enemy: at least one point, with no floor at
      zero health; the enemy falls exactly when its health is gone. */
  function Struck(e: Enemy, attack: int): (r: Enemy)
    ensures r.health == e.health - CombatTypes.Max(1, attack - e.defense) && r.health < e.health
    ensures r.active <==> e.active && r.health > 0
    ensures r == e.(health := r.health, active := r.active)
  {
    var health := e.health - CombatTypes.Max(1, attack - e.defense);
    e.(health := health, active := e.active && health > 0)
  }

  /** An item's effect on the player: a potion heals up to the maximum, a
      weapon adds attack, armor adds defense, gold changes no stat. */
  function Consume(p: Player, it: Item): (r: Player)
    ensures it.kind == HealthPotion ==> r == p.(health := CombatTypes.Min(p.maxHealth, p.health + it.value))
    ensures it.kind == Weapon ==> r == p.(attack := p.attack + it.value)
    ensures it.kind == Armor ==> r == p.(defense := p.defense + it.value)
    ensures it.kind == Gold ==> r == p
  {
    match it.kind
    case HealthPotion =>
      var health := p.health + it.value;
      p.(health := if health > p.maxHealth then p.maxHealth else health)
    case Weapon => p.(attack := p.attack + it.value)
    case Armor => p.(defense := p.defense + it.value)
    case Gold => p
  }

  /** A potion never lifts health above the maximum nor lowers it. */
  lemma PotionClamp(p: Player, it: Item)
    requires it.kind == HealthPotion && it.value >= 0 && p.health <= p.maxHealth
    ensures p.health <= Consume(p, it).health <= p.maxHealth
    ensures Consume(p, it).health == p.maxHealth || Consume(p, it).health == p.health + it.value
  {
  }
}
