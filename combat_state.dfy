/** The combat state machine as a class whose fields the operations update
    in place, as the source's CombatState does. Every method is proved to
    leave the fields exactly as the matching snapshot function of
    CombatTurns, CombatActions or Initiative says; the properties of the
    engine are proved about those functions. */
module CombatEngine {
  import opened CombatTypes
  import opened CombatGrid
  import opened CombatRules
  import opened MoveSearch
  import opened CombatTurns
  import opened CombatActions
  import opened Initiative
  import W = Wrappers

  /** StartCombat on a snapshot: round 1, fresh initiative, first turn. */
  function StartSpec(s: Snapshot, d20s: seq<int>, ties: seq<int>): (r: Snapshot)
    requires |d20s| == |s.units| && |ties| == |s.units|
  {
    var rolled := s.(round := 1, units := Rolled(s.units, d20s, ties),
                     order := TurnOrder(s.units, d20s, ties), orderIndex := 0);
    StartTurnAt(rolled, 0)
  }

  /** StartCombat establishes the invariant from any state whose units are
      well formed and share no cell: the order holds the living units, and
      the first of them, if any, is current with a fresh turn. */
  lemma StartKeepsValid(s: Snapshot, d20s: seq<int>, ties: seq<int>)
    requires |d20s| == |s.units| && |ties| == |s.units|
    requires AllWellFormed(s.units) && NoSharedCell(s.units)
    ensures ValidState(StartSpec(s, d20s, ties))
    ensures StartSpec(s, d20s, ties).round == 1
    ensures var r := StartSpec(s, d20s, ties);
            r.current == -1 <==> forall i :: 0 <= i < |s.units| ==> !s.units[i].IsAlive()
  {
    var order := TurnOrder(s.units, d20s, ties);
    var units := Rolled(s.units, d20s, ties);
    var rolled := s.(round := 1, units := units, order := order, orderIndex := 0);
    RolledKeepsWellFormed(s.units, d20s, ties);
    NoSharedCellKept(s.units, units);
    OrderHoldsTheLiving(s.units, d20s, ties);
    if |order| > 0 {
      assert AliveAt(units, order, Clamp(0, 0, |order| - 1));
      assert ValidState(rolled.(selected := W.None, current := -1));
      StartTurnAtKeepsValid(rolled, 0);
    }
  }

  /** The default combat starts valid, with a living unit's turn under way:
      its seven units are well formed, alive and on seven different cells. */
  lemma DefaultStartIsValid(d20s: seq<int>, ties: seq<int>)
    requires |d20s| == 7 && |ties| == 7
    ensures var r := StartSpec(Snapshot(DefaultRoster(), [], 0, W.None, -1, 1, 0, CombatActionMode.None,
                                        {}, {}, {}), d20s, ties);
            ValidState(r) && 0 <= r.current < 7 && r.units[r.current].IsAlive()
  {
    var s := Snapshot(DefaultRoster(), [], 0, W.None, -1, 1, 0, CombatActionMode.None, {}, {}, {});
    DefaultRosterCellsDistinct();
    StartKeepsValid(s, d20s, ties);
    assert s.units[0].IsAlive();
  }

  /** Rolling initiative keeps every unit well formed, alive or dead as it
      was, and where it stood. */
  lemma RolledKeepsWellFormed(units: seq<Unit>, d20s: seq<int>, ties: seq<int>)
    requires |d20s| == |units| && |ties| == |units| && AllWellFormed(units)
    ensures AllWellFormed(Rolled(units, d20s, ties))
    ensures forall i :: 0 <= i < |units| ==> (Rolled(units, d20s, ties)[i].IsAlive() <==> units[i].IsAlive())
    ensures forall i :: 0 <= i < |units| ==> Rolled(units, d20s, ties)[i].position == units[i].position
  {
  }

  /** The rolled order holds valid indices of living units, and is empty
      exactly when nobody is alive. */
  lemma OrderHoldsTheLiving(units: seq<Unit>, d20s: seq<int>, ties: seq<int>)
    requires |d20s| == |units| && |ties| == |units|
    ensures var order := TurnOrder(units, d20s, ties);
            OrderInBounds(order, |units|)
            && (|order| > 0 ==> units[order[0]].IsAlive() && Rolled(units, d20s, ties)[order[0]].IsAlive())
            && (|order| == 0 <==> forall i :: 0 <= i < |units| ==> !units[i].IsAlive())
  {
    var order := TurnOrder(units, d20s, ties);
    TurnOrderIsSortedPermutation(units, d20s, ties);
    RolledKeepsLiveness(units, d20s, ties);
    forall i | 0 <= i < |units| && units[i].IsAlive()
      ensures i in multiset(order)
    {
      assert i in AliveIndices(units, |units|);
    }
    if |order| > 0 {
      assert units[order[0]].IsAlive();
    }
  }

  /** RollInitiative's roll loop: each living unit, in roster order, gets
      its d20 plus bonus and its tie-breaker, and its row is collected. */
  method RollAll(units: seq<Unit>, d20s: seq<int>, ties: seq<int>) returns (rolled: seq<Unit>, entries: seq<Entry>)
    requires |d20s| == |units| && |ties| == |units|
    ensures rolled == Rolled(units, d20s, ties)
    ensures entries == Entries(rolled, |rolled|)
  {
    ghost var target := Rolled(units, d20s, ties);
    rolled := [];
    entries := [];
    var i := 0;
    while i < |units|
      invariant 0 <= i <= |units|
      invariant rolled == target[..i]
      invariant entries == Entries(target, i)
    {
      var unit := units[i];
      var entry := W.None;
      if unit.IsAlive() {
        unit := RollFor(unit, d20s[i], ties[i]);
        entry := W.Some(Entry(i, unit.initiativeRoll, unit.initiativeBonus, unit.initiativeTieBreaker));
      }
      RolledStep(units, d20s, ties, i, rolled, entries, unit, entry);
      if entry.Some? {
        entries := entries + [entry.value];
      }
      rolled := rolled + [unit];
      i := i + 1;
    }
    assert target[..i] == target;
  }

  /** One slot of the roll loop: the slot's unit, rolled when alive, and
      the row a living unit adds extend the prefixes the loop has built. */
  lemma RolledStep(units: seq<Unit>, d20s: seq<int>, ties: seq<int>, i: nat,
                   rolled: seq<Unit>, entries: seq<Entry>, unit: Unit, entry: W.Option<Entry>)
    requires |d20s| == |units| && |ties| == |units| && i < |units|
    requires rolled == Rolled(units, d20s, ties)[..i] && entries == Entries(Rolled(units, d20s, ties), i)
    requires unit == if units[i].IsAlive() then RollFor(units[i], d20s[i], ties[i]) else units[i]
    requires entry == if units[i].IsAlive() then W.Some(EntryOf([unit], 0).(index := i)) else W.None
    ensures rolled + [unit] == Rolled(units, d20s, ties)[..i + 1]
    ensures (if entry.Some? then entries + [entry.value] else entries) == Entries(Rolled(units, d20s, ties), i + 1)
  {
    var target := Rolled(units, d20s, ties);
    assert target[..i + 1] == target[..i] + [target[i]];
  }

  /** The copy of the sorted rows' indices into the turn order. */
  method IndicesOf(sorted: seq<Entry>) returns (order: seq<int>)
    ensures order == Indices(sorted)
  {
    order := [];
    var k := 0;
    while k < |sorted|
      invariant 0 <= k <= |sorted|
      invariant order == Indices(sorted)[..k]
    {
      order := order + [sorted[k].index];
      k := k + 1;
    }
  }

  /** The roster part way through the Cleave loop: the first `k` units
      resolved, the rest as they were. */
  ghost function CleavedPrefix(units: seq<Unit>, caster: Unit, k: nat): (r: seq<Unit>)
    requires k <= |units|
    ensures |r| == |units|
  {
    CleaveHits(units, caster)[..k] + units[k..]
  }

  lemma CleavedPrefixEnds(units: seq<Unit>, caster: Unit)
    ensures CleavedPrefix(units, caster, 0) == units
    ensures CleavedPrefix(units, caster, |units|) == CleaveHits(units, caster)
  {
    assert CleaveHits(units, caster)[..|units|] == CleaveHits(units, caster);
    assert units[0..] == units;
  }

  lemma CleavedPrefixStep(units: seq<Unit>, caster: Unit, k: nat)
    requires k < |units|
    ensures CleavedPrefix(units, caster, k)[k] == units[k]
    ensures CleavedPrefix(units, caster, k + 1)
            == CleavedPrefix(units, caster, k)[k := if Cleaved(caster, units[k])
                                                    then ApplyHit(units[k], caster.abilityPower) else units[k]]
  {
  }

  class CombatState {
    var units: seq<Unit>
    var turnOrder: seq<int>
    var turnOrderIndex: int
    var selectedUnitIndex: W.Option<int>
    var currentUnitIndex: int
    var round: int
    var turnId: int
    var actionMode: CombatActionMode
    var moveRange: set<Point>
    var attackRange: set<Point>
    var abilityRange: set<Point>

    function Snap(): Snapshot
      reads this
    {
      Snapshot(units, turnOrder, turnOrderIndex, selectedUnitIndex, currentUnitIndex, round, turnId,
               actionMode, moveRange, attackRange, abilityRange)
    }

    /** An empty combat: no units, nobody current, round 1, turn id 0. */
    constructor ()
      ensures Snap() == Snapshot([], [], 0, W.None, -1, 1, 0, CombatActionMode.None, {}, {}, {})
    {
      units := [];
      turnOrder := [];
      turnOrderIndex := 0;
      selectedUnitIndex := W.None;
      currentUnitIndex := -1;
      round := 1;
      turnId := 0;
      actionMode := CombatActionMode.None;
      moveRange := {};
      attackRange := {};
      abilityRange := {};
    }

    /** CreateDefault: the four heroes and three enemies, then StartCombat. */
    static method CreateDefault(d20s: seq<int>, ties: seq<int>) returns (state: CombatState)
      requires |d20s| == 7 && |ties| == 7
      ensures fresh(state)
      ensures state.Snap() == StartSpec(Snapshot(DefaultRoster(), [], 0, W.None, -1, 1, 0, CombatActionMode.None,
                                                 {}, {}, {}), d20s, ties)
      ensures ValidState(state.Snap()) && state.Snap().HasCurrent()
    {
      state := new CombatState();
      state.units := DefaultRoster();
      state.StartCombat(d20s, ties);
      DefaultStartIsValid(d20s, ties);
    }

    /** StartCombat. */
    method StartCombat(d20s: seq<int>, ties: seq<int>)
      requires |d20s| == |units| && |ties| == |units|
      modifies this
      ensures Snap() == StartSpec(old(Snap()), d20s, ties)
    {
      round := 1;
      RollInitiative(d20s, ties);
      StartTurnAtPosition(0);
    }

    /** RollInitiative: roll for each living unit in roster order, sort the
        rows, copy their indices into the turn order, reset the cursor. */
    method RollInitiative(d20s: seq<int>, ties: seq<int>)
      requires |d20s| == |units| && |ties| == |units|
      modifies this
      ensures Snap() == old(Snap()).(units := Rolled(old(units), d20s, ties),
                                     order := TurnOrder(old(units), d20s, ties), orderIndex := 0)
    {
      turnOrder := [];
      var rolled, entries := RollAll(units, d20s, ties);
      units := rolled;
      var sorted := SortEntries(entries);
      var order := IndicesOf(sorted);
      turnOrder := order;
      turnOrderIndex := 0;
    }

    /** StartTurnAtPosition. */
    method StartTurnAtPosition(orderPosition: int)
      modifies this
      ensures Snap() == StartTurnAt(old(Snap()), orderPosition)
    {
      if |turnOrder| == 0 {
        currentUnitIndex := -1;
        selectedUnitIndex := W.None;
        ClearActionMode();
        return;
      }
      turnOrderIndex := Clamp(orderPosition, 0, |turnOrder| - 1);
      currentUnitIndex := turnOrder[turnOrderIndex];
      BeginTurnForCurrentUnit();
    }

    /** BeginTurnForCurrentUnit. */
    method BeginTurnForCurrentUnit()
      modifies this
      ensures Snap() == BeginTurn(old(Snap()))
    {
      turnId := turnId + 1;
      ClearActionMode();
      if !(0 <= currentUnitIndex < |units|) || !units[currentUnitIndex].IsAlive() {
        return;
      }
      var unit := units[currentUnitIndex];
      unit := unit.(hasMoved := false, hasActed := false, turnEnded := false, isGuarding := false);
      if unit.abilityCooldownRemaining > 0 {
        unit := unit.(abilityCooldownRemaining := unit.abilityCooldownRemaining - 1);
      }
      units := units[currentUnitIndex := unit];
      selectedUnitIndex := if unit.team == Hero then W.Some(currentUnitIndex) else W.None;
    }

    /** AdvanceTurn. */
    method AdvanceTurn()
      requires CursorOk(Snap())
      modifies this
      ensures Snap() == Advance(old(Snap()))
    {
      if |turnOrder| == 0 {
        return;
      }
      ghost var s0 := Snap();
      var nextPosition := FindNextAlivePosition(turnOrderIndex + 1);
      if nextPosition == -1 {
        round := round + 1;
        nextPosition := FindNextAlivePosition(0);
        if nextPosition == -1 {
          currentUnitIndex := -1;
          selectedUnitIndex := W.None;
          ClearActionMode();
          return;
        }
        assert Snap() == s0.(round := s0.round + 1);
      } else {
        assert Snap() == s0;
      }
      StartTurnAtPosition(nextPosition);
    }

    /** FindNextAlivePosition. */
    method FindNextAlivePosition(start: nat) returns (r: int)
      ensures r == FirstAlive(units, turnOrder, start)
    {
      var i := start;
      while i < |turnOrder|
        invariant start <= i
        invariant FirstAlive(units, turnOrder, start) == FirstAlive(units, turnOrder, i)
        decreases |turnOrder| - i
      {
        var unitIndex := turnOrder[i];
        if 0 <= unitIndex < |units| && units[unitIndex].IsAlive() {
          return i;
        }
        i := i + 1;
      }
      return -1;
    }

    /** ClearActionMode. */
    method ClearActionMode()
      modifies this
      ensures Snap() == ClearMode(old(Snap()))
    {
      actionMode := CombatActionMode.None;
      ClearRanges();
    }

    /** ClearRanges. */
    method ClearRanges()
      modifies this
      ensures Snap() == old(Snap()).(moveRange := {}, attackRange := {}, abilityRange := {})
    {
      moveRange := {};
      attackRange := {};
      abilityRange := {};
    }

    /** EndCurrentTurn. */
    method EndCurrentTurn()
      requires currentUnitIndex < |units| && CursorOk(Snap())
      modifies this
      ensures Snap() == EndTurn(old(Snap()))
    {
      if currentUnitIndex < 0 {
        return;
      }
      var unit := units[currentUnitIndex];
      if !unit.IsAlive() {
        AdvanceTurn();
        return;
      }
      units := units[currentUnitIndex := unit.(turnEnded := true)];
      selectedUnitIndex := W.None;
      ClearActionMode();
      AdvanceTurn();
    }

    /** MaybeAutoEndTurn for the current unit. */
    method MaybeAutoEndTurn()
      requires 0 <= currentUnitIndex < |units| && CursorOk(Snap())
      modifies this
      ensures Snap() == AutoEnd(old(Snap()))
    {
      var unit := units[currentUnitIndex];
      if unit.hasMoved && unit.hasActed {
        EndCurrentTurn();
      }
    }

    /** Whether the selection is the current hero (the guard of every
        player action). */
    method Controlled() returns (b: bool)
      ensures b == Controls(Snap())
    {
      b := selectedUnitIndex.Some? && 0 <= currentUnitIndex < |units| && units[currentUnitIndex].team == Hero
           && selectedUnitIndex.value == currentUnitIndex;
    }

    /** TrySelectUnit. */
    method TrySelectUnit(gridPos: Point, grid: Grid) returns (ok: bool)
      modifies this
      ensures Outcome(ok, Snap()) == TrySelect(old(Snap()), gridPos, grid)
    {
      if !(0 <= currentUnitIndex < |units| && units[currentUnitIndex].team == Hero) {
        return false;
      }
      var unitAt := GetUnitAt(units, gridPos);
      if unitAt == -1 || currentUnitIndex < 0 || unitAt != currentUnitIndex {
        return false;
      }
      selectedUnitIndex := W.Some(currentUnitIndex);
      SetActionMode(Move, grid);
      return true;
    }

    /** SetActionMode. */
    method SetActionMode(mode: CombatActionMode, grid: Grid)
      modifies this
      ensures Snap() == SetMode(old(Snap()), mode, grid)
    {
      ClearActionMode();
      var controls := Controlled();
      if !controls {
        return;
      }
      var unit := units[selectedUnitIndex.value];
      if !unit.IsAlive() || unit.turnEnded {
        return;
      }
      match mode {
        case Move =>
          if unit.hasMoved {
            return;
          }
          actionMode := mode;
          RecalculateMoveRange(grid);
        case Attack =>
          if unit.hasActed {
            return;
          }
          actionMode := mode;
          RecalculateAttackRange(grid);
        case Ability =>
          if unit.hasActed || unit.ability == AbilityType.None || unit.abilityCooldownRemaining > 0 {
            return;
          }
          actionMode := mode;
          RecalculateAbilityRange(grid);
        case None =>
      }
    }

    /** RecalculateMoveRange: the breadth-first flood from the selected unit. */
    method RecalculateMoveRange(grid: Grid)
      requires selectedUnitIndex.Some? ==> 0 <= selectedUnitIndex.value < |units|
      modifies this
      ensures units == old(units) && selectedUnitIndex == old(selectedUnitIndex)
      ensures selectedUnitIndex.None? ==> Snap() == old(Snap()).(moveRange := {})
      ensures selectedUnitIndex.Some? ==>
                var u := units[selectedUnitIndex.value];
                Snap() == old(Snap()).(moveRange := MoveTiles(units, grid, u.hasDiagonalMove, u.position, u.moveRange))
    {
      moveRange := {};
      if selectedUnitIndex.None? {
        return;
      }
      var unit := units[selectedUnitIndex.value];
      moveRange := FloodMoveRange(units, grid, unit.hasDiagonalMove, unit.position, unit.moveRange);
    }

    /** RecalculateAttackRange: the diamond of the selected unit's Range. */
    method RecalculateAttackRange(grid: Grid)
      requires selectedUnitIndex.Some? ==> 0 <= selectedUnitIndex.value < |units|
      modifies this
      ensures units == old(units) && selectedUnitIndex == old(selectedUnitIndex)
      ensures selectedUnitIndex.None? ==> Snap() == old(Snap()).(attackRange := {})
      ensures selectedUnitIndex.Some? ==>
                var u := units[selectedUnitIndex.value];
                Snap() == old(Snap()).(attackRange := Diamond(grid, u.position, u.range))
    {
      attackRange := {};
      if selectedUnitIndex.None? {
        return;
      }
      var unit := units[selectedUnitIndex.value];
      var tiles := RangeTiles(unit.position, unit.range, grid);
      attackRange := tiles;
    }

    /** RecalculateAbilityRange: the diamond of the selected unit's
        AbilityRange, or nothing for a unit without an ability. */
    method RecalculateAbilityRange(grid: Grid)
      requires selectedUnitIndex.Some? ==> 0 <= selectedUnitIndex.value < |units|
      modifies this
      ensures units == old(units) && selectedUnitIndex == old(selectedUnitIndex)
      ensures selectedUnitIndex.None? ==> Snap() == old(Snap()).(abilityRange := {})
      ensures selectedUnitIndex.Some? ==>
                var u := units[selectedUnitIndex.value];
                Snap() == old(Snap()).(abilityRange := if u.ability == AbilityType.None then {}
                                                       else Diamond(grid, u.position, u.abilityRange))
    {
      abilityRange := {};
      if selectedUnitIndex.None? {
        return;
      }
      var unit := units[selectedUnitIndex.value];
      if unit.ability == AbilityType.None {
        return;
      }
      var tiles := RangeTiles(unit.position, unit.abilityRange, grid);
      abilityRange := tiles;
    }

    /** TryMoveSelected. */
    method TryMoveSelected(gridPos: Point) returns (ok: bool)
      requires CursorOk(Snap())
      modifies this
      ensures Outcome(ok, Snap()) == TryMove(old(Snap()), gridPos)
    {
      var controls := Controlled();
      if !controls {
        return false;
      }
      var unit := units[selectedUnitIndex.value];
      if unit.hasMoved || unit.turnEnded || !unit.IsAlive() {
        return false;
      }
      var occupied := IsOccupied(units, gridPos);
      if gridPos in moveRange && !occupied {
        units := units[currentUnitIndex := unit.(position := gridPos, hasMoved := true)];
        ClearActionMode();
        MaybeAutoEndTurn();
        return true;
      }
      return false;
    }

    /** TryAttackSelected. */
    method TryAttackSelected(gridPos: Point) returns (ok: bool)
      requires CursorOk(Snap())
      modifies this
      ensures Outcome(ok, Snap()) == TryAttack(old(Snap()), gridPos)
    {
      var controls := Controlled();
      if !controls {
        return false;
      }
      var unit := units[selectedUnitIndex.value];
      if unit.hasActed || unit.turnEnded || !unit.IsAlive() {
        return false;
      }
      if gridPos !in attackRange {
        return false;
      }
      var target := GetUnitAt(units, gridPos);
      if target == -1 || units[target].team == Hero {
        return false;
      }
      ResolveAttack(target, unit.attack);
      units := units[currentUnitIndex := units[currentUnitIndex].(hasActed := true)];
      ClearActionMode();
      MaybeAutoEndTurn();
      return true;
    }

    /** ResolveAttack: the damage with its floor of 1, guard halving rounded
        up (and the guard used up), and health floored at 0. */
    method ResolveAttack(target: int, power: int)
      requires 0 <= target < |units|
      modifies this
      ensures Snap() == old(Snap()).(units := old(units)[target := ApplyHit(old(units)[target], power)])
    {
      var unit := units[target];
      var damage := Max(1, power - unit.defense);
      if unit.isGuarding {
        damage := Max(1, (damage + 1) / 2);
        unit := unit.(isGuarding := false);
      }
      unit := unit.(hp := Max(0, unit.hp - damage));
      units := units[target := unit];
    }

    /** ResolveAbility for the current unit: the roster is updated only when
        the ability applies. */
    method ResolveAbilityOf(targetPoint: Point) returns (ok: bool)
      requires 0 <= currentUnitIndex < |units|
      modifies this
      ensures ok == ResolveAbility(old(units), old(currentUnitIndex), targetPoint).Some?
      ensures Snap() == old(Snap()).(units := if ok then ResolveAbility(old(units), old(currentUnitIndex), targetPoint).value
                                              else old(units))
    {
      var caster := units[currentUnitIndex];
      match caster.ability {
        case Cleave =>
          if !IsAdjacent(caster.position, targetPoint) {
            return false;
          }
          var target := GetUnitAt(units, targetPoint);
          if target == -1 || units[target].team == caster.team {
            return false;
          }
          CleaveAround(caster);
          return true;
        case ThrowingKnife =>
          ok := StrikeWithAbility(caster, targetPoint);
        case ArcBolt =>
          ok := StrikeWithAbility(caster, targetPoint);
        case Heal =>
          ok := HealWithAbility(caster, targetPoint);
        case None =>
          return false;
      }
    }

    /** The Cleave loop: every living unit of the other team adjacent to the
        caster takes a hit of AbilityPower. */
    method CleaveAround(caster: Unit)
      modifies this
      ensures Snap() == old(Snap()).(units := CleaveHits(old(units), caster))
    {
      ghost var units0 := units;
      CleavedPrefixEnds(units0, caster);
      var k := 0;
      while k < |units|
        invariant 0 <= k <= |units| == |units0|
        invariant units == CleavedPrefix(units0, caster, k)
        invariant Snap() == old(Snap()).(units := units)
      {
        CleavedPrefixStep(units0, caster, k);
        var enemy := units[k];
        if enemy.team != caster.team && enemy.IsAlive() && IsAdjacent(caster.position, enemy.position) {
          ResolveAttack(k, caster.abilityPower);
        }
        k := k + 1;
      }
    }

    /** The shared ThrowingKnife / ArcBolt branch: one hit of AbilityPower on
        the opposing unit at the cell. */
    method StrikeWithAbility(caster: Unit, targetPoint: Point) returns (ok: bool)
      modifies this
      ensures var t := UnitAt(old(units), targetPoint);
              ok == (t >= 0 && old(units)[t].team != caster.team)
              && Snap() == old(Snap()).(units := if ok then old(units)[t := ApplyHit(old(units)[t], caster.abilityPower)]
                                                 else old(units))
    {
      var target := GetUnitAt(units, targetPoint);
      if target == -1 || units[target].team == caster.team {
        return false;
      }
      ResolveAttack(target, caster.abilityPower);
      return true;
    }

    /** The Heal branch: a unit of the caster's team gains AbilityPower
        health, up to its maximum. */
    method HealWithAbility(caster: Unit, targetPoint: Point) returns (ok: bool)
      modifies this
      ensures var t := UnitAt(old(units), targetPoint);
              ok == (t >= 0 && old(units)[t].team == caster.team)
              && Snap() == old(Snap()).(units := if ok then old(units)[t := HealBy(old(units)[t], caster.abilityPower)]
                                                 else old(units))
    {
      var target := GetUnitAt(units, targetPoint);
      if target == -1 || units[target].team != caster.team {
        return false;
      }
      var unit := units[target];
      units := units[target := unit.(hp := Min(unit.maxHp, unit.hp + caster.abilityPower))];
      return true;
    }

    /** TryAbilitySelected. */
    method TryAbilitySelected(gridPos: Point) returns (ok: bool)
      requires CursorOk(Snap())
      modifies this
      ensures Outcome(ok, Snap()) == TryAbility(old(Snap()), gridPos)
    {
      var controls := Controlled();
      if !controls {
        return false;
      }
      var unit := units[selectedUnitIndex.value];
      if unit.hasActed || unit.turnEnded || !unit.IsAlive() {
        return false;
      }
      if unit.ability == AbilityType.None || unit.abilityCooldownRemaining > 0 {
        return false;
      }
      if gridPos !in abilityRange {
        return false;
      }
      var resolved := ResolveAbilityOf(gridPos);
      if !resolved {
        return false;
      }
      var caster := units[currentUnitIndex];
      units := units[currentUnitIndex := caster.(hasActed := true, abilityCooldownRemaining := caster.abilityCooldown)];
      ClearActionMode();
      MaybeAutoEndTurn();
      return true;
    }

    /** TryGuardSelected. */
    method TryGuardSelected() returns (ok: bool)
      requires CursorOk(Snap())
      modifies this
      ensures Outcome(ok, Snap()) == TryGuard(old(Snap()))
    {
      var controls := Controlled();
      if !controls {
        return false;
      }
      var unit := units[selectedUnitIndex.value];
      if unit.hasActed || unit.turnEnded || !unit.IsAlive() {
        return false;
      }
      units := units[currentUnitIndex := unit.(isGuarding := true, hasActed := true)];
      ClearActionMode();
      MaybeAutoEndTurn();
      return true;
    }

    /** ExecuteEnemyTurn: chase the nearest hero for up to MoveRange greedy
        steps, hit the nearest hero in range, end the turn. */
    method ExecuteEnemyTurn(grid: Grid)
      requires currentUnitIndex < |units| && CursorOk(Snap())
      modifies this
      ensures Snap() == EnemyTurn(old(Snap()), grid)
    {
      if currentUnitIndex < 0 {
        return;
      }
      var unit := units[currentUnitIndex];
      if unit.team != Enemy || !unit.IsAlive() {
        AdvanceTurn();
        return;
      }
      var target := FindHero(units, unit.position, W.None);
      if target == -1 {
        AdvanceTurn();
        return;
      }
      var targetPosition := units[target].position;
      units := Chase(units, grid, currentUnitIndex, targetPosition);
      unit := units[currentUnitIndex];
      var attackTarget := FindHero(units, unit.position, W.Some(unit.range));
      if attackTarget != -1 {
        ResolveAttack(attackTarget, unit.attack);
      }
      EndCurrentTurn();
    }
  }

  /** The chase loop of ExecuteEnemyTurn: up to MoveRange single steps
      toward the target, stopping once in attack range or blocked. */
  method Chase(units: seq<Unit>, grid: Grid, c: int, target: Point) returns (r: seq<Unit>)
    requires 0 <= c < |units|
    ensures r == EnemyWalk(units, grid, c, target, if units[c].moveRange < 0 then 0 else units[c].moveRange)
  {
    var unit := units[c];
    ghost var goal := EnemyWalk(units, grid, c, target, if unit.moveRange < 0 then 0 else unit.moveRange);
    r := units;
    var step := 0;
    while step < unit.moveRange
      invariant 0 <= c < |r| && r[c].range == unit.range && 0 <= step
      invariant EnemyWalk(r, grid, c, target, Max(0, unit.moveRange - step)) == goal
    {
      var position := r[c].position;
      if IsInRange(position, target, unit.range) {
        EnemyWalkStops(r, grid, c, target, unit.moveRange - step);
        return;
      }
      var nextStep := StepToward(r, grid, position, target);
      if nextStep.None? {
        EnemyWalkStops(r, grid, c, target, unit.moveRange - step);
        return;
      }
      var next := r[c := r[c].(position := nextStep.value)];
      EnemyWalkStep(r, next, grid, c, target, unit.moveRange - step, nextStep.value);
      r := next;
      step := step + 1;
    }
    EnemyWalkStops(r, grid, c, target, Max(0, unit.moveRange - step));
  }

  /** The roster CreateDefault adds, in order: Fighter, Rogue, Mage, Cleric,
      Goblin, Raider, Wolf. */
  function DefaultRoster(): (r: seq<Unit>)
    ensures |r| == 7
    ensures forall i :: 0 <= i < 7 ==> WellFormed(r[i]) && r[i].IsAlive() && (r[i].team == Hero <==> i < 4)
  {
    [NewUnit("Fighter", Hero, Point(1, 5), 3, false, 12, 5, 3, 1, Cleave, 1, 4, 2, 2),
     NewUnit("Rogue", Hero, Point(2, 5), 4, true, 9, 4, 2, 1, ThrowingKnife, 3, 3, 2, 4),
     NewUnit("Mage", Hero, Point(3, 5), 3, false, 7, 3, 1, 2, ArcBolt, 4, 4, 2, 1),
     NewUnit("Cleric", Hero, Point(4, 5), 3, false, 10, 3, 2, 1, Heal, 3, 4, 2, 1),
     NewUnit("Goblin", Enemy, Point(2, 1), 3, false, 6, 3, 1, 1, AbilityType.None, 0, 0, 0, 2),
     NewUnit("Raider", Enemy, Point(5, 2), 3, false, 8, 4, 2, 1, AbilityType.None, 0, 0, 0, 1),
     NewUnit("Wolf", Enemy, Point(4, 1), 4, false, 7, 4, 1, 1, AbilityType.None, 0, 0, 0, 3)]
  }

  /** The seven units of the default roster stand on seven different cells. */
  lemma DefaultRosterCellsDistinct()
    ensures NoSharedCell(DefaultRoster())
  {
    var r := DefaultRoster();
    var cells := [Point(1, 5), Point(2, 5), Point(3, 5), Point(4, 5), Point(2, 1), Point(5, 2), Point(4, 1)];
    assert r[0].position == cells[0] && r[1].position == cells[1] && r[2].position == cells[2];
    assert r[3].position == cells[3] && r[4].position == cells[4] && r[5].position == cells[5];
    assert r[6].position == cells[6];
    DistinctCells(r, cells);
  }

  /** Units standing on pairwise different cells share no cell. */
  lemma DistinctCells(units: seq<Unit>, cells: seq<Point>)
    requires |cells| == |units|
    requires forall i :: 0 <= i < |units| ==> units[i].position == cells[i]
    requires forall i, j :: 0 <= i < |cells| && 0 <= j < |cells| && i != j ==> cells[i] != cells[j]
    ensures NoSharedCell(units)
  {
  }
}
