/** The turn machinery of the combat state, as functions of a snapshot of
    its fields: starting a unit's turn, advancing the cursor through the
    initiative order while skipping the dead, ending a turn, and the
    automatic end once a unit has both moved and acted. The class in
    CombatEngine is proved to change its fields exactly as these say. */
module CombatTurns {
  import opened CombatTypes
  import W = Wrappers

  /** Every field of the combat state. `order` is the initiative turn order
      (roster indices), `orderIndex` its cursor, `selected` the selected
      unit index (C#'s `int?`), `current` the current unit index or -1. */
  datatype Snapshot = Snapshot(
    units: seq<Unit>,
    order: seq<int>,
    orderIndex: int,
    selected: W.Option<int>,
    current: int,
    round: int,
    turnId: int,
    mode: CombatActionMode,
    moveRange: set<Point>,
    attackRange: set<Point>,
    abilityRange: set<Point>)
  {
    /** CurrentUnit is not null. */
    predicate HasCurrent() { 0 <= current < |units| }

    /** IsPlayerTurn: the current unit exists and is a hero. */
    predicate IsPlayerTurn() { HasCurrent() && units[current].team == Hero }

    /** Mode None and all three cached ranges empty. */
    predicate Cleared()
    {
      mode == CombatActionMode.None && moveRange == {} && attackRange == {} && abilityRange == {}
    }
  }

  /** ClearActionMode (with ClearRanges). */
  function ClearMode(s: Snapshot): Snapshot
  {
    s.(mode := CombatActionMode.None, moveRange := {}, attackRange := {}, abilityRange := {})
  }

  function Clamp(n: int, lo: int, hi: int): (r: int)
    requires lo <= hi
    ensures lo <= r <= hi
    ensures lo <= n <= hi ==> r == n
  {
    if n < lo then lo else if n > hi then hi else n
  }

  /** Position `i` of the turn order names a living unit of the roster. */
  predicate AliveAt(units: seq<Unit>, order: seq<int>, i: int)
    requires 0 <= i < |order|
  {
    0 <= order[i] < |units| && units[order[i]].IsAlive()
  }

  /** FindNextAlivePosition: the first position at or after `start` whose
      unit is alive, or -1. */
  function FirstAlive(units: seq<Unit>, order: seq<int>, start: nat): (r: int)
    ensures r == -1 || start <= r < |order|
    ensures r == -1 <==> forall i :: start <= i < |order| ==> !AliveAt(units, order, i)
    ensures r >= 0 ==> AliveAt(units, order, r) && forall i :: start <= i < r ==> !AliveAt(units, order, i)
    decreases |order| - start
  {
    if start >= |order| then -1
    else if AliveAt(units, order, start) then start
    else FirstAlive(units, order, start + 1)
  }

  /** BeginTurnForCurrentUnit: a new turn id and a cleared mode; a living
      current unit gets its per-turn flags reset and its cooldown ticked,
      and is selected exactly when it is a hero. */
  function BeginTurn(s: Snapshot): (r: Snapshot)
    ensures r.turnId == s.turnId + 1 && r.Cleared()
    ensures r.current == s.current && r.order == s.order && r.orderIndex == s.orderIndex && r.round == s.round
    ensures |r.units| == |s.units|
    ensures s.HasCurrent() && s.units[s.current].IsAlive() ==>
              r.units == s.units[s.current := ResetForTurn(s.units[s.current])]
              && (r.selected.Some? <==> s.units[s.current].team == Hero)
              && (r.selected.Some? ==> r.selected.value == s.current)
    ensures !(s.HasCurrent() && s.units[s.current].IsAlive()) ==> r.units == s.units && r.selected == s.selected
  {
    var c := ClearMode(s.(turnId := s.turnId + 1));
    if s.HasCurrent() && s.units[s.current].IsAlive() then
      c.(units := s.units[s.current := ResetForTurn(s.units[s.current])],
         selected := if s.units[s.current].team == Hero then W.Some(s.current) else W.None)
    else c
  }

  /** StartTurnAtPosition: with an empty order nobody is current; otherwise
      the cursor moves to the clamped position and that unit's turn begins. */
  function StartTurnAt(s: Snapshot, pos: int): (r: Snapshot)
    ensures |s.order| == 0 ==> r.current == -1 && r.selected.None? && r.Cleared() && r.turnId == s.turnId
    ensures |s.order| > 0 ==> 0 <= r.orderIndex < |s.order| && r.current == s.order[r.orderIndex]
                              && r.turnId == s.turnId + 1 && r.Cleared()
    ensures 0 <= pos < |s.order| ==> r.orderIndex == pos
    ensures r.order == s.order && r.round == s.round && |r.units| == |s.units|
  {
    if |s.order| == 0 then ClearMode(s.(current := -1, selected := W.None))
    else
      var idx := Clamp(pos, 0, |s.order| - 1);
      BeginTurn(s.(orderIndex := idx, current := s.order[idx]))
  }

  /** AdvanceTurn: the next living unit after the cursor becomes current;
      when none is left the round counter goes up and the search restarts
      from the top; when nobody is alive at all nobody is current. */
  function Advance(s: Snapshot): (r: Snapshot)
    requires |s.order| == 0 || s.orderIndex >= -1
    ensures |s.order| == 0 ==> r == s
    ensures |s.order| > 0 ==>
              r.round == s.round + (if FirstAlive(s.units, s.order, s.orderIndex + 1) == -1 then 1 else 0)
    ensures |s.order| > 0 ==>
              (r.current == -1 <==> forall i :: 0 <= i < |s.order| ==> !AliveAt(s.units, s.order, i))
    ensures |s.order| > 0 ==>
              r.current == -1 || (r.HasCurrent() && r.units[r.current].IsAlive() && r.turnId == s.turnId + 1)
    ensures |s.order| > 0 && r.current == -1 ==> r.selected.None? && r.Cleared()
    ensures r.order == s.order && |r.units| == |s.units|
  {
    if |s.order| == 0 then s
    else
      var next := FirstAlive(s.units, s.order, s.orderIndex + 1);
      if next != -1 then StartTurnAt(s, next)
      else
        var first := FirstAlive(s.units, s.order, 0);
        if first == -1 then ClearMode(s.(round := s.round + 1, current := -1, selected := W.None))
        else StartTurnAt(s.(round := s.round + 1), first)
  }

  /** EndCurrentTurn: nothing without a current unit; a dead current unit
      just hands over; a living one is marked TurnEnded and deselected
      before the turn advances. */
  function EndTurn(s: Snapshot): (r: Snapshot)
    requires s.current < |s.units|
    requires |s.order| == 0 || s.orderIndex >= -1
    ensures s.current < 0 ==> r == s
    ensures s.current >= 0 && |s.order| > 0 ==>
              r.current == -1 || (r.HasCurrent() && r.units[r.current].IsAlive() && r.turnId == s.turnId + 1)
    ensures r.order == s.order && |r.units| == |s.units|
  {
    if s.current < 0 then s
    else if !s.units[s.current].IsAlive() then Advance(s)
    else
      var u := s.units[s.current].(turnEnded := true);
      Advance(ClearMode(s.(units := s.units[s.current := u], selected := W.None)))
  }

  /** MaybeAutoEndTurn for the current unit. */
  function AutoEnd(s: Snapshot): (r: Snapshot)
    requires 0 <= s.current < |s.units|
    requires |s.order| == 0 || s.orderIndex >= -1
    ensures s.units[s.current].hasMoved && s.units[s.current].hasActed ==> r == EndTurn(s)
    ensures !(s.units[s.current].hasMoved && s.units[s.current].hasActed) ==> r == s
  {
    if s.units[s.current].hasMoved && s.units[s.current].hasActed then EndTurn(s) else s
  }

  /** The invariant the combat state keeps between calls: the order names
      roster indices, the cursor is in range, the current unit is the one
      under the cursor (or -1), a selection is always the current hero,
      every unit is well formed, and no two living units share a cell. */
  predicate OrderInBounds(order: seq<int>, n: int)
  {
    forall i :: 0 <= i < |order| ==> 0 <= order[i] < n
  }

  predicate ValidState(s: Snapshot)
  {
    OrderInBounds(s.order, |s.units|)
    && (if |s.order| == 0 then s.orderIndex == 0 else 0 <= s.orderIndex < |s.order|)
    && (s.current == -1 || (|s.order| > 0 && s.current == s.order[s.orderIndex]))
    && (s.selected.Some? ==> s.selected.value == s.current && s.IsPlayerTurn())
    && AllWellFormed(s.units)
    && NoSharedCell(s.units)
  }

  lemma BeginTurnKeepsValid(s: Snapshot)
    requires ValidState(s.(selected := W.None)) && s.HasCurrent() && s.units[s.current].IsAlive()
    ensures ValidState(BeginTurn(s))
  {
    var c := s.current;
    ResetForTurnCooldown(s.units[c]);
    var r := BeginTurn(s);
    NoSharedCellKept(s.units, r.units);
    forall i | 0 <= i < |r.units|
      ensures WellFormed(r.units[i])
    {
      if i != c {
        assert r.units[i] == s.units[i];
      }
    }
  }

  /** Starting a living unit's turn keeps the invariant. */
  lemma StartTurnAtKeepsValid(s: Snapshot, pos: int)
    requires ValidState(s.(selected := W.None, current := -1))
    requires |s.order| > 0 ==> AliveAt(s.units, s.order, Clamp(pos, 0, |s.order| - 1))
    ensures ValidState(StartTurnAt(s, pos))
  {
    if |s.order| > 0 {
      var idx := Clamp(pos, 0, |s.order| - 1);
      BeginTurnKeepsValid(s.(orderIndex := idx, current := s.order[idx]));
    }
  }

  /** AdvanceTurn keeps the invariant. */
  lemma AdvanceKeepsValid(s: Snapshot)
    requires ValidState(s.(selected := W.None)) && (|s.order| == 0 ==> s.selected.None?)
    ensures ValidState(Advance(s))
  {
    if |s.order| == 0 {
      assert Advance(s) == s.(selected := W.None);
    } else if FirstAlive(s.units, s.order, s.orderIndex + 1) != -1 {
      NextKeepsValid(s);
    } else {
      WrapKeepsValid(s);
    }
  }

  /** The branch of AdvanceTurn that finds a living unit after the cursor
      keeps the invariant. */
  lemma NextKeepsValid(s: Snapshot)
    requires ValidState(s.(selected := W.None)) && |s.order| > 0
    requires FirstAlive(s.units, s.order, s.orderIndex + 1) != -1
    ensures ValidState(Advance(s))
  {
    var next := FirstAlive(s.units, s.order, s.orderIndex + 1);
    assert Advance(s) == StartTurnAt(s, next);
    assert ValidState(s.(selected := W.None, current := -1));
    StartTurnAtKeepsValid(s, next);
  }

  /** The wrap-around branch of AdvanceTurn keeps the invariant. */
  lemma WrapKeepsValid(s: Snapshot)
    requires ValidState(s.(selected := W.None)) && |s.order| > 0
    requires FirstAlive(s.units, s.order, s.orderIndex + 1) == -1
    ensures ValidState(Advance(s))
  {
    var first := FirstAlive(s.units, s.order, 0);
    if first != -1 {
      assert Advance(s) == StartTurnAt(s.(round := s.round + 1), first);
      assert ValidState(s.(round := s.round + 1, selected := W.None, current := -1));
      StartTurnAtKeepsValid(s.(round := s.round + 1), first);
    } else {
      assert Advance(s) == ClearMode(s.(round := s.round + 1, current := -1, selected := W.None));
    }
  }

  /** EndCurrentTurn keeps the invariant. */
  lemma EndTurnKeepsValid(s: Snapshot)
    requires ValidState(s)
    ensures ValidState(EndTurn(s))
  {
    if s.current >= 0 {
      if !s.units[s.current].IsAlive() {
        AdvanceKeepsValid(s);
      } else {
        var u := s.units[s.current].(turnEnded := true);
        var t := ClearMode(s.(units := s.units[s.current := u], selected := W.None));
        assert AllWellFormed(t.units);
        AdvanceKeepsValid(t);
      }
    }
  }

  /** The turn always changes hands: after EndCurrentTurn either nobody is
      current or a new turn, of a living unit, has begun. The round counter
      goes up exactly when the search wrapped past the end of the order. */
  lemma EndTurnAlwaysEnds(s: Snapshot)
    requires ValidState(s) && s.current >= 0
    ensures EndTurn(s).current == -1
            || (EndTurn(s).HasCurrent() && EndTurn(s).units[EndTurn(s).current].IsAlive()
                && EndTurn(s).turnId == s.turnId + 1)
    ensures EndTurn(s).round == s.round + (if FirstAlive(s.units, s.order, s.orderIndex + 1) == -1 then 1 else 0)
  {
    var c := s.current;
    if s.units[c].IsAlive() {
      var u := s.units[c].(turnEnded := true);
      var t := ClearMode(s.(units := s.units[c := u], selected := W.None));
      assert FirstAlive(t.units, t.order, s.orderIndex + 1) == FirstAlive(s.units, s.order, s.orderIndex + 1) by {
        FirstAliveAgrees(s.units, t.units, s.order, s.orderIndex + 1);
      }
    }
  }

  /** FirstAlive only looks at liveness. */
  lemma {:induction false} FirstAliveAgrees(a: seq<Unit>, b: seq<Unit>, order: seq<int>, start: nat)
    requires |a| == |b| && forall k :: 0 <= k < |a| ==> (a[k].IsAlive() <==> b[k].IsAlive())
    ensures FirstAlive(a, order, start) == FirstAlive(b, order, start)
    decreases |order| - start
  {
    if start < |order| {
      FirstAliveAgrees(a, b, order, start + 1);
    }
  }
}
