/** The player actions and the enemy turn of the combat state, as functions
    of a snapshot: choosing an action mode (and filling the matching range
    set), selecting, moving, attacking, casting an ability, guarding, and
    the greedy enemy AI. Each `Try*` yields whether it succeeded and the new
    snapshot. */
module CombatActions {
  import opened CombatTypes
  import opened CombatGrid
  import opened CombatRules
  import opened MoveSearch
  import opened CombatTurns
  import W = Wrappers

  /** A `Try*` result: the boolean the source returns and the new state. */
  datatype Outcome = Outcome(ok: bool, next: Snapshot)

  /** The threat diamond of GetRangeTiles as a set. */
  function Diamond(grid: Grid, origin: Point, range: int): (r: set<Point>)
    ensures forall p :: p in r <==> InDiamond(grid, origin, range, p)
    ensures origin !in r
  {
    set p | p in grid.Cells() && 1 <= Manhattan(origin, p) <= range
  }

  /** The guard every player action starts with: a unit is selected, it is
      the hero team's turn, and the selection is the current unit. */
  predicate Controls(s: Snapshot)
  {
    s.selected.Some? && s.IsPlayerTurn() && s.selected.value == s.current
  }

  /** The cursor is usable by AdvanceTurn. */
  predicate CursorOk(s: Snapshot)
  {
    |s.order| == 0 || s.orderIndex >= -1
  }

  /** The unit may still take a turn. */
  predicate Ready(u: Unit)
  {
    u.IsAlive() && !u.turnEnded
  }

  /** When SetActionMode ends in `mode` rather than None. */
  predicate ModeAllowed(s: Snapshot, mode: CombatActionMode)
  {
    Controls(s) && Ready(s.units[s.current])
    && match mode
       case None => false
       case Move => !s.units[s.current].hasMoved
       case Attack => !s.units[s.current].hasActed
       case Ability => !s.units[s.current].hasActed && s.units[s.current].ability != AbilityType.None
                       && s.units[s.current].abilityCooldownRemaining <= 0
  }

  /** SetActionMode: the mode and all three ranges are cleared first; the
      requested mode is then entered only when allowed, filling its range:
      the flood-fill movement range, or the attack or ability diamond. */
  ghost function SetMode(s: Snapshot, mode: CombatActionMode, grid: Grid): (r: Snapshot)
    ensures r == ClearMode(s).(mode := r.mode, moveRange := r.moveRange, attackRange := r.attackRange,
                                abilityRange := r.abilityRange)
    ensures r.mode != CombatActionMode.None <==> ModeAllowed(s, mode)
    ensures r.mode != CombatActionMode.None ==> r.mode == mode
    ensures r.mode == CombatActionMode.None ==> r.Cleared()
    ensures r.mode == Move ==>
              var u := s.units[s.current];
              r.moveRange == MoveTiles(s.units, grid, u.hasDiagonalMove, u.position, u.moveRange)
              && r.attackRange == {} && r.abilityRange == {}
    ensures r.mode == Attack ==>
              r.attackRange == Diamond(grid, s.units[s.current].position, s.units[s.current].range)
              && r.moveRange == {} && r.abilityRange == {}
    ensures r.mode == Ability ==>
              r.abilityRange == Diamond(grid, s.units[s.current].position, s.units[s.current].abilityRange)
              && r.moveRange == {} && r.attackRange == {}
  {
    var c := ClearMode(s);
    if !(s.selected.Some? && s.IsPlayerTurn() && s.selected.value == s.current) then c
    else
      var u := s.units[s.selected.value];
      if !u.IsAlive() || u.turnEnded then c
      else
        match mode
        case Move =>
          if u.hasMoved then c
          else c.(mode := mode, moveRange := MoveTiles(s.units, grid, u.hasDiagonalMove, u.position, u.moveRange))
        case Attack =>
          if u.hasActed then c
          else c.(mode := mode, attackRange := Diamond(grid, u.position, u.range))
        case Ability =>
          if u.hasActed || u.ability == AbilityType.None || u.abilityCooldownRemaining > 0 then c
          else c.(mode := mode, abilityRange := Diamond(grid, u.position, u.abilityRange))
        case None => c
  }

  /** TrySelectUnit: on the hero team's turn, clicking the current unit's
      cell selects it and enters Move mode; anything else changes nothing. */
  ghost function TrySelect(s: Snapshot, p: Point, grid: Grid): (r: Outcome)
    ensures r.ok <==> s.IsPlayerTurn() && UnitAt(s.units, p) == s.current
    ensures !r.ok ==> r.next == s
    ensures r.ok ==> r.next == SetMode(s.(selected := W.Some(s.current)), Move, grid)
    ensures r.ok ==> r.next.selected == W.Some(s.current)
                     && (r.next.mode == Move <==> !s.units[s.current].turnEnded && !s.units[s.current].hasMoved)
  {
    if !s.IsPlayerTurn() then Outcome(false, s)
    else
      var at := UnitAt(s.units, p);
      if at == -1 || s.current < 0 || at != s.current then Outcome(false, s)
      else Outcome(true, SetMode(s.(selected := W.Some(s.current)), Move, grid))
  }

  /** The state after the current unit is replaced by `u` and the mode is
      cleared, before the automatic end of turn. */
  function Commit(s: Snapshot, units: seq<Unit>): (r: Snapshot)
    ensures r.Cleared() && r.units == units
    ensures r.(units := s.units, mode := s.mode, moveRange := s.moveRange, attackRange := s.attackRange,
               abilityRange := s.abilityRange) == s
  {
    ClearMode(s.(units := units))
  }

  /** TryMoveSelected: the controlled unit, alive, not done moving and not
      finished, steps onto a free cell of the cached movement range; only its
      position and HasMoved change, then the turn ends if it has also acted. */
  function TryMove(s: Snapshot, p: Point): (r: Outcome)
    requires CursorOk(s)
    ensures r.ok <==> Controls(s) && Ready(s.units[s.current]) && !s.units[s.current].hasMoved
                      && p in s.moveRange && !Occupied(s.units, p)
    ensures !r.ok ==> r.next == s
    ensures r.ok ==>
              var moved := s.units[s.current].(position := p, hasMoved := true);
              r.next == AutoEnd(Commit(s, s.units[s.current := moved]))
  {
    if !(s.selected.Some? && s.IsPlayerTurn() && s.selected.value == s.current) then Outcome(false, s)
    else
      var u := s.units[s.selected.value];
      if u.hasMoved || u.turnEnded || !u.IsAlive() then Outcome(false, s)
      else if p in s.moveRange && !Occupied(s.units, p) then
        var moved := u.(position := p, hasMoved := true);
        Outcome(true, AutoEnd(Commit(s, s.units[s.current := moved])))
      else Outcome(false, s)
  }

  /** TryAttackSelected: the controlled unit, alive, not done acting and not
      finished, hits the living enemy standing on a cell of the cached attack
      range with its Attack; only that enemy and the attacker's HasActed
      change, then the turn ends if it has also moved. */
  function TryAttack(s: Snapshot, p: Point): (r: Outcome)
    requires CursorOk(s)
    ensures r.ok <==> Controls(s) && Ready(s.units[s.current]) && !s.units[s.current].hasActed
                      && p in s.attackRange && UnitAt(s.units, p) >= 0 && s.units[UnitAt(s.units, p)].team == Enemy
    ensures !r.ok ==> r.next == s
    ensures r.ok ==>
              var t := UnitAt(s.units, p);
              var hit := s.units[t := ApplyHit(s.units[t], s.units[s.current].attack)];
              t != s.current
              && r.next == AutoEnd(Commit(s, hit[s.current := hit[s.current].(hasActed := true)]))
  {
    if !(s.selected.Some? && s.IsPlayerTurn() && s.selected.value == s.current) then Outcome(false, s)
    else
      var u := s.units[s.selected.value];
      if u.hasActed || u.turnEnded || !u.IsAlive() then Outcome(false, s)
      else if p !in s.attackRange then Outcome(false, s)
      else
        var t := UnitAt(s.units, p);
        if t == -1 || s.units[t].team == Hero then Outcome(false, s)
        else
          var hit := s.units[t := ApplyHit(s.units[t], u.attack)];
          Outcome(true, AutoEnd(Commit(s, hit[s.current := hit[s.current].(hasActed := true)])))
  }

  /** Cleave strikes this unit: living, on the other team, next to the caster. */
  predicate Cleaved(caster: Unit, u: Unit)
  {
    u.team != caster.team && u.IsAlive() && IsAdjacent(caster.position, u.position)
  }

  /** The roster after a Cleave by `caster`. */
  function CleaveHits(units: seq<Unit>, caster: Unit): (r: seq<Unit>)
    ensures |r| == |units|
    ensures forall i :: 0 <= i < |units| ==>
              r[i] == if Cleaved(caster, units[i]) then ApplyHit(units[i], caster.abilityPower) else units[i]
  {
    seq(|units|, i requires 0 <= i < |units| =>
      if Cleaved(caster, units[i]) then ApplyHit(units[i], caster.abilityPower) else units[i])
  }

  /** Cleave damages exactly the living opposing units adjacent to the caster:
      each of them loses health, and every other unit is left as it was. */
  lemma CleaveHitsExactly(units: seq<Unit>, caster: Unit, i: int)
    requires 0 <= i < |units| && WellFormed(units[i])
    ensures CleaveHits(units, caster)[i].hp < units[i].hp <==> Cleaved(caster, units[i])
    ensures !Cleaved(caster, units[i]) ==> CleaveHits(units, caster)[i] == units[i]
    ensures WellFormed(CleaveHits(units, caster)[i])
  {
    ApplyHitKeepsHealthBounds(units[i], caster.abilityPower);
  }

  /** ResolveAbility: the roster after the caster's ability lands on `p`, or
      None when the ability does not apply to that cell. */
  function ResolveAbility(units: seq<Unit>, c: int, p: Point): (r: W.Option<seq<Unit>>)
    requires 0 <= c < |units|
    ensures r.Some? ==> |r.value| == |units|
    ensures units[c].ability == AbilityType.None ==> r.None?
    ensures units[c].ability == Cleave ==>
              (r.Some? <==> IsAdjacent(units[c].position, p) && UnitAt(units, p) >= 0
                            && units[UnitAt(units, p)].team != units[c].team)
              && (r.Some? ==> r.value == CleaveHits(units, units[c]))
    ensures units[c].ability == ThrowingKnife || units[c].ability == ArcBolt ==>
              (r.Some? <==> UnitAt(units, p) >= 0 && units[UnitAt(units, p)].team != units[c].team)
              && (r.Some? ==> r.value == units[UnitAt(units, p) := ApplyHit(units[UnitAt(units, p)], units[c].abilityPower)])
    ensures units[c].ability == Heal ==>
              (r.Some? <==> UnitAt(units, p) >= 0 && units[UnitAt(units, p)].team == units[c].team)
              && (r.Some? ==> r.value == units[UnitAt(units, p) := HealBy(units[UnitAt(units, p)], units[c].abilityPower)])
  {
    var caster := units[c];
    var t := UnitAt(units, p);
    match caster.ability
    case Cleave =>
      if !IsAdjacent(caster.position, p) || t == -1 || units[t].team == caster.team then W.None
      else W.Some(CleaveHits(units, caster))
    case ThrowingKnife =>
      if t == -1 || units[t].team == caster.team then W.None
      else W.Some(units[t := ApplyHit(units[t], caster.abilityPower)])
    case ArcBolt =>
      if t == -1 || units[t].team == caster.team then W.None
      else W.Some(units[t := ApplyHit(units[t], caster.abilityPower)])
    case Heal =>
      if t == -1 || units[t].team != caster.team then W.None
      else W.Some(units[t := HealBy(units[t], caster.abilityPower)])
    case None => W.None
  }

  /** TryAbilitySelected: the controlled unit, alive, not done acting, not
      finished, with an ability off cooldown, casts it on a cell of the
      cached ability range; if the ability applies, the caster is marked as
      having acted and its cooldown restarts, then the turn ends if it has
      also moved. */
  function TryAbility(s: Snapshot, p: Point): (r: Outcome)
    requires CursorOk(s)
    ensures r.ok <==> Controls(s) && Ready(s.units[s.current]) && !s.units[s.current].hasActed
                      && s.units[s.current].ability != AbilityType.None
                      && s.units[s.current].abilityCooldownRemaining <= 0
                      && p in s.abilityRange && ResolveAbility(s.units, s.current, p).Some?
    ensures !r.ok ==> r.next == s
    ensures r.ok ==>
              var cast := ResolveAbility(s.units, s.current, p).value;
              var caster := cast[s.current].(hasActed := true,
                                             abilityCooldownRemaining := cast[s.current].abilityCooldown);
              r.next == AutoEnd(Commit(s, cast[s.current := caster]))
  {
    if !(s.selected.Some? && s.IsPlayerTurn() && s.selected.value == s.current) then Outcome(false, s)
    else
      var u := s.units[s.selected.value];
      if u.hasActed || u.turnEnded || !u.IsAlive() then Outcome(false, s)
      else if u.ability == AbilityType.None || u.abilityCooldownRemaining > 0 then Outcome(false, s)
      else if p !in s.abilityRange then Outcome(false, s)
      else
        var resolved := ResolveAbility(s.units, s.current, p);
        if resolved.None? then Outcome(false, s)
        else
          var cast := resolved.value;
          var caster := cast[s.current].(hasActed := true, abilityCooldownRemaining := cast[s.current].abilityCooldown);
          Outcome(true, AutoEnd(Commit(s, cast[s.current := caster])))
  }

  /** TryGuardSelected: the controlled unit, alive, not done acting and not
      finished, raises its guard and is marked as having acted. */
  function TryGuard(s: Snapshot): (r: Outcome)
    requires CursorOk(s)
    ensures r.ok <==> Controls(s) && Ready(s.units[s.current]) && !s.units[s.current].hasActed
    ensures !r.ok ==> r.next == s
    ensures r.ok ==>
              var guarded := s.units[s.current].(isGuarding := true, hasActed := true);
              r.next == AutoEnd(Commit(s, s.units[s.current := guarded]))
  {
    if !(s.selected.Some? && s.IsPlayerTurn() && s.selected.value == s.current) then Outcome(false, s)
    else
      var u := s.units[s.selected.value];
      if u.hasActed || u.turnEnded || !u.IsAlive() then Outcome(false, s)
      else
        var guarded := u.(isGuarding := true, hasActed := true);
        Outcome(true, AutoEnd(Commit(s, s.units[s.current := guarded])))
  }

  // ---------------------------------------------------------------- enemy AI

  /** The enemy's approach: up to `steps` greedy steps toward `target`,
      stopping early once the target is within its attack range or when no
      neighbour is open. Only the mover's position changes; it ends at most
      `steps` cells away, and if it moved at all it stands on a walkable
      cell no other living unit occupies. */
  function EnemyWalk(units: seq<Unit>, grid: Grid, c: int, target: Point, steps: nat): (r: seq<Unit>)
    requires 0 <= c < |units|
    ensures |r| == |units|
    ensures forall i :: 0 <= i < |units| && i != c ==> r[i] == units[i]
    ensures r[c] == units[c].(position := r[c].position)
    ensures Manhattan(units[c].position, r[c].position) <= steps
    ensures IsInRange(units[c].position, target, units[c].range) ==> r == units
    ensures r[c].position != units[c].position ==>
              grid.IsWalkable(r[c].position)
              && forall i :: 0 <= i < |units| && i != c ==> !LiveAt(units[i], r[c].position)
    decreases steps
  {
    var u := units[c];
    if steps == 0 || IsInRange(u.position, target, u.range) then units
    else
      match BestStep(units, grid, u.position, target)
      case None => units
      case Some(q) =>
        BestStepSpec(units, grid, u.position, target);
        var next := units[c := u.(position := q)];
        var r := EnemyWalk(next, grid, c, target, steps - 1);
        ManhattanTriangle(u.position, q, r[c].position);
        r
  }

  /** Unfolding helper for Chase's loop: one step of the walk. The walk's
      properties are EnemyWalk's own ensures. */
  lemma EnemyWalkStep(units: seq<Unit>, next: seq<Unit>, grid: Grid, c: int, target: Point, steps: nat, q: Point)
    requires 0 <= c < |units| && steps > 0 && !IsInRange(units[c].position, target, units[c].range)
    requires BestStep(units, grid, units[c].position, target) == W.Some(q)
    requires next == units[c := units[c].(position := q)]
    ensures EnemyWalk(units, grid, c, target, steps) == EnemyWalk(next, grid, c, target, steps - 1)
  {
  }

  /** Unfolding helper for Chase's loop: the walk stops where it is in
      range or blocked. */
  lemma EnemyWalkStops(units: seq<Unit>, grid: Grid, c: int, target: Point, steps: nat)
    requires 0 <= c < |units|
    requires IsInRange(units[c].position, target, units[c].range)
             || BestStep(units, grid, units[c].position, target).None? || steps == 0
    ensures EnemyWalk(units, grid, c, target, steps) == units
  {
  }

  /** Arithmetic helper for EnemyWalk's distance bound. */
  lemma ManhattanTriangle(a: Point, b: Point, c: Point)
    ensures Manhattan(a, c) <= Manhattan(a, b) + Manhattan(b, c)
  {
  }

  /** The enemy's action once a target hero exists: walk at most MoveRange
      steps toward it, then hit the nearest living hero within Range, if any. */
  function EnemyAct(units: seq<Unit>, grid: Grid, c: int, target: Point): (r: seq<Unit>)
    requires 0 <= c < |units|
  {
    var u := units[c];
    var walked := EnemyWalk(units, grid, c, target, if u.moveRange < 0 then 0 else u.moveRange);
    var v := walked[c];
    var a := NearestHero(walked, v.position, W.Some(v.range));
    if a == -1 then walked else walked[a := ApplyHit(walked[a], v.attack)]
  }

  /** The enemy's action changes the mover's position only, by at most
      MoveRange cells. */
  lemma EnemyActMoves(units: seq<Unit>, grid: Grid, c: int, target: Point)
    requires 0 <= c < |units| && units[c].team == Enemy
    ensures var r := EnemyAct(units, grid, c, target);
            |r| == |units|
            && r[c] == units[c].(position := r[c].position)
            && Manhattan(units[c].position, r[c].position) <= Max(0, units[c].moveRange)
  {
    var u := units[c];
    var walked := EnemyWalk(units, grid, c, target, if u.moveRange < 0 then 0 else u.moveRange);
    var a := NearestHero(walked, walked[c].position, W.Some(walked[c].range));
    if a != -1 {
      EnemyActHit(units, grid, c, target, walked, a);
    }
  }

  /** Apart from the mover, a unit the enemy's action changes is a living
      hero within Range of the mover's new cell, and it took the hit. */
  lemma EnemyActHitsInRange(units: seq<Unit>, grid: Grid, c: int, target: Point)
    requires 0 <= c < |units| && units[c].team == Enemy
    ensures var r := EnemyAct(units, grid, c, target);
            |r| == |units|
            && forall i :: 0 <= i < |units| && i != c && r[i] != units[i] ==>
                 IsLivingHero(units[i]) && Manhattan(units[i].position, r[c].position) <= units[c].range
                 && r[i] == ApplyHit(units[i], units[c].attack)
  {
    var u := units[c];
    var walked := EnemyWalk(units, grid, c, target, if u.moveRange < 0 then 0 else u.moveRange);
    var a := NearestHero(walked, walked[c].position, W.Some(walked[c].range));
    if a != -1 {
      EnemyActHit(units, grid, c, target, walked, a);
    }
  }

  /** Apart from the mover, the enemy's action changes at most one unit. */
  lemma EnemyActHitsOne(units: seq<Unit>, grid: Grid, c: int, target: Point)
    requires 0 <= c < |units| && units[c].team == Enemy
    ensures var r := EnemyAct(units, grid, c, target);
            |r| == |units|
            && forall i, j :: 0 <= i < j < |units| && i != c && j != c ==> r[i] == units[i] || r[j] == units[j]
  {
    var u := units[c];
    var walked := EnemyWalk(units, grid, c, target, if u.moveRange < 0 then 0 else u.moveRange);
    var a := NearestHero(walked, walked[c].position, W.Some(walked[c].range));
    if a != -1 {
      EnemyActHit(units, grid, c, target, walked, a);
    }
  }

  /** The enemy's action leaves no two living units on one cell: the walk
      only enters cells no other living unit holds, and the hit moves nobody. */
  lemma EnemyActKeepsCellsUnshared(units: seq<Unit>, grid: Grid, c: int, target: Point)
    requires 0 <= c < |units| && NoSharedCell(units)
    ensures NoSharedCell(EnemyAct(units, grid, c, target))
  {
    var u := units[c];
    var walked := EnemyWalk(units, grid, c, target, if u.moveRange < 0 then 0 else u.moveRange);
    if walked[c].position != u.position {
      NoSharedCellAfterMove(units, c, walked[c]);
      assert walked == units[c := walked[c]];
    } else {
      assert walked == units;
    }
    var a := NearestHero(walked, walked[c].position, W.Some(walked[c].range));
    if a != -1 {
      var r := walked[a := ApplyHit(walked[a], walked[c].attack)];
      NoSharedCellKept(walked, r);
    }
  }

  /** The case of the enemy's action where a hero is in range of the new cell. */
  lemma EnemyActHit(units: seq<Unit>, grid: Grid, c: int, target: Point, walked: seq<Unit>, a: int)
    requires 0 <= c < |units| && units[c].team == Enemy
    requires walked == EnemyWalk(units, grid, c, target, if units[c].moveRange < 0 then 0 else units[c].moveRange)
    requires a == NearestHero(walked, walked[c].position, W.Some(walked[c].range)) && a != -1
    ensures var r := EnemyAct(units, grid, c, target);
            r == walked[a := ApplyHit(walked[a], walked[c].attack)]
            && a != c && walked[a] == units[a] && IsLivingHero(units[a])
            && Manhattan(units[a].position, r[c].position) <= units[c].range
  {
    assert a != c && walked[a] == units[a];
  }

  /** ExecuteEnemyTurn: a turn that is not a living enemy's, or with no
      living hero to chase, just advances; otherwise the enemy acts and its
      turn ends. */
  function EnemyTurn(s: Snapshot, grid: Grid): (r: Snapshot)
    requires s.current < |s.units| && CursorOk(s)
    ensures s.current < 0 ==> r == s
    ensures s.current >= 0 && (s.units[s.current].team != Enemy || !s.units[s.current].IsAlive()
                               || NearestHero(s.units, s.units[s.current].position, W.None) == -1) ==>
              r == Advance(s)
    ensures s.current >= 0 && s.units[s.current].team == Enemy && s.units[s.current].IsAlive()
            && NearestHero(s.units, s.units[s.current].position, W.None) >= 0 ==>
              var t := NearestHero(s.units, s.units[s.current].position, W.None);
              r == EndTurn(s.(units := EnemyAct(s.units, grid, s.current, s.units[t].position)))
  {
    if s.current < 0 then s
    else
      var u := s.units[s.current];
      if u.team != Enemy || !u.IsAlive() then Advance(s)
      else
        var t := NearestHero(s.units, u.position, W.None);
        if t == -1 then Advance(s)
        else EndTurn(s.(units := EnemyAct(s.units, grid, s.current, s.units[t].position)))
  }

  // ---------------------------------------------------------------- invariants

  /** Committing a roster that keeps every unit well formed, the current
      unit's team and every cell unshared keeps the state invariant through
      the automatic end. */
  lemma CommitKeepsValid(s: Snapshot, units: seq<Unit>)
    requires ValidState(s) && s.HasCurrent()
    requires |units| == |s.units| && units[s.current].team == s.units[s.current].team
    requires AllWellFormed(units) && NoSharedCell(units)
    ensures ValidState(Commit(s, units))
    ensures ValidState(AutoEnd(Commit(s, units)))
  {
    var m := Commit(s, units);
    if m.units[m.current].hasMoved && m.units[m.current].hasActed {
      EndTurnKeepsValid(m);
    }
  }

  lemma TryMoveKeepsValid(s: Snapshot, p: Point)
    requires ValidState(s)
    ensures ValidState(TryMove(s, p).next)
  {
    if TryMove(s, p).ok {
      var moved := s.units[s.current].(position := p, hasMoved := true);
      NoSharedCellAfterMove(s.units, s.current, moved);
      CommitKeepsValid(s, s.units[s.current := moved]);
    }
  }

  lemma TryAttackKeepsValid(s: Snapshot, p: Point)
    requires ValidState(s)
    ensures ValidState(TryAttack(s, p).next)
  {
    if TryAttack(s, p).ok {
      var t := UnitAt(s.units, p);
      ApplyHitKeepsHealthBounds(s.units[t], s.units[s.current].attack);
      var hit := s.units[t := ApplyHit(s.units[t], s.units[s.current].attack)];
      NoSharedCellKept(s.units, hit[s.current := hit[s.current].(hasActed := true)]);
      CommitKeepsValid(s, hit[s.current := hit[s.current].(hasActed := true)]);
    }
  }

  /** An ability that lands keeps every unit well formed and the caster on
      its team, moves nobody and brings nobody back: Heal only finds living
      targets, and a hit never raises health. */
  lemma ResolveAbilityKeepsUnits(units: seq<Unit>, c: int, p: Point)
    requires 0 <= c < |units| && AllWellFormed(units) && ResolveAbility(units, c, p).Some?
    ensures var cast := ResolveAbility(units, c, p).value;
            AllWellFormed(cast) && cast[c].team == units[c].team
            && forall i :: 0 <= i < |cast| && cast[i].IsAlive() ==>
                 units[i].IsAlive() && cast[i].position == units[i].position
  {
    var u := units[c];
    var cast := ResolveAbility(units, c, p).value;
    var t := UnitAt(units, p);
    forall i | 0 <= i < |cast|
      ensures WellFormed(cast[i])
      ensures cast[i].IsAlive() ==> units[i].IsAlive() && cast[i].position == units[i].position
    {
      if u.ability == Cleave {
        CleaveHitsExactly(units, u, i);
      } else if i == t && u.ability == Heal {
        HealKeepsHealthBounds(units[t], u.abilityPower);
      } else if i == t {
        ApplyHitKeepsHealthBounds(units[t], u.abilityPower);
      }
    }
    if u.ability == Cleave {
      CleaveHitsExactly(units, u, c);
    }
  }

  lemma TryAbilityKeepsValid(s: Snapshot, p: Point)
    requires ValidState(s)
    ensures ValidState(TryAbility(s, p).next)
  {
    if TryAbility(s, p).ok {
      var c := s.current;
      ResolveAbilityKeepsUnits(s.units, c, p);
      var cast := ResolveAbility(s.units, c, p).value;
      var caster := cast[c].(hasActed := true, abilityCooldownRemaining := cast[c].abilityCooldown);
      NoSharedCellKept(s.units, cast[c := caster]);
      CommitKeepsValid(s, cast[c := caster]);
    }
  }

  lemma TryGuardKeepsValid(s: Snapshot)
    requires ValidState(s)
    ensures ValidState(TryGuard(s).next)
  {
    if TryGuard(s).ok {
      var guarded := s.units[s.current].(isGuarding := true, hasActed := true);
      NoSharedCellKept(s.units, s.units[s.current := guarded]);
      CommitKeepsValid(s, s.units[s.current := guarded]);
    }
  }

  lemma EnemyTurnKeepsValid(s: Snapshot, grid: Grid)
    requires ValidState(s)
    ensures ValidState(EnemyTurn(s, grid))
  {
    if s.current >= 0 {
      var u := s.units[s.current];
      var t := NearestHero(s.units, u.position, W.None);
      if u.team != Enemy || !u.IsAlive() || t == -1 {
        AdvanceKeepsValid(s);
      } else {
        var r := EnemyAct(s.units, grid, s.current, s.units[t].position);
        EnemyActMoves(s.units, grid, s.current, s.units[t].position);
        EnemyActHitsInRange(s.units, grid, s.current, s.units[t].position);
        forall i | 0 <= i < |r|
          ensures WellFormed(r[i])
        {
          if i != s.current && r[i] != s.units[i] {
            ApplyHitKeepsHealthBounds(s.units[i], u.attack);
          }
        }
        assert s.selected.None?;
        EnemyActKeepsCellsUnshared(s.units, grid, s.current, s.units[t].position);
        EndTurnKeepsValid(s.(units := r));
      }
    }
  }
}
