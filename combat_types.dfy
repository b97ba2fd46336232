/** Values of the tactical combat engine: grid points, teams, action modes,
    ability kinds and the combat unit record, together with the unit-level
    effects the action resolver applies (damage with guard mitigation,
    healing, the start-of-turn reset). */
module CombatTypes {

  datatype Point = Point(x: int, y: int)

  datatype Team = Hero | Enemy

  datatype CombatActionMode = None | Move | Attack | Ability

  datatype AbilityType = None | Cleave | ThrowingKnife | ArcBolt | Heal

  /** One combat participant. The source keeps it as a mutable object owned by
      the combat state; here it is a value that the state replaces in its
      roster whenever a field changes. */
  datatype Unit = Unit(
    name: string,
    team: Team,
    position: Point,
    moveRange: int,
    hasDiagonalMove: bool,
    maxHp: int,
    hp: int,
    attack: int,
    defense: int,
    range: int,
    ability: AbilityType,
    abilityRange: int,
    abilityPower: int,
    abilityCooldown: int,
    abilityCooldownRemaining: int,
    initiativeBonus: int,
    initiativeRoll: int,
    initiativeTieBreaker: int,
    hasMoved: bool,
    hasActed: bool,
    turnEnded: bool,
    isGuarding: bool)
  {
    predicate IsAlive() { hp > 0 }
  }

  function Abs(n: int): (r: int)
    ensures r >= 0 && (r == n || r == -n)
  {
    if n < 0 then -n else n
  }

  function Max(a: int, b: int): int { if a < b then b else a }

  function Min(a: int, b: int): int { if a < b then a else b }

  /** Manhattan distance |dx| + |dy|, the metric of every combat range. */
  function Manhattan(a: Point, b: Point): int
  {
    Abs(a.x - b.x) + Abs(a.y - b.y)
  }

  /** Adjacent cells are the four orthogonal neighbours. */
  predicate IsAdjacent(a: Point, b: Point)
    ensures IsAdjacent(a, b) <==>
              b in [Point(a.x + 1, a.y), Point(a.x - 1, a.y), Point(a.x, a.y + 1), Point(a.x, a.y - 1)]
  {
    Manhattan(a, b) == 1
  }

  /** Nothing is in a negative range; a unit's own cell is in every other
      range, and an adjacent cell in every range from one up. */
  predicate IsInRange(a: Point, b: Point, range: int)
    ensures range < 0 ==> !IsInRange(a, b, range)
    ensures a == b ==> (IsInRange(a, b, range) <==> range >= 0)
    ensures IsAdjacent(a, b) ==> (IsInRange(a, b, range) <==> range >= 1)
  {
    Manhattan(a, b) <= range
  }

  /** The freshly constructed unit: full health, no cooldown, no rolls yet,
      all per-turn flags clear. */
  function NewUnit(
    name: string, team: Team, position: Point, moveRange: int, hasDiagonalMove: bool,
    maxHp: int, attack: int, defense: int, range: int, ability: AbilityType,
    abilityRange: int, abilityPower: int, abilityCooldown: int, initiativeBonus: int): (u: Unit)
    ensures u.hp == u.maxHp == maxHp && u.team == team && u.position == position
    ensures u.abilityCooldownRemaining == 0 && u.initiativeRoll == 0 && u.initiativeTieBreaker == 0
    ensures !u.hasMoved && !u.hasActed && !u.turnEnded && !u.isGuarding
    ensures WellFormed(u) <== maxHp >= 0 && abilityPower >= 0 && abilityCooldown >= 0
  {
    Unit(name, team, position, moveRange, hasDiagonalMove, maxHp, maxHp, attack, defense, range,
         ability, abilityRange, abilityPower, abilityCooldown, 0, initiativeBonus, 0, 0,
         false, false, false, false)
  }

  /** The unit invariant the engine keeps: health within [0, MaxHp], a
      cooldown counter that never goes negative, and the non-negative ability
      power and cooldown every unit template carries. */
  predicate WellFormed(u: Unit)
  {
    0 <= u.hp <= u.maxHp && 0 <= u.abilityCooldownRemaining
    && 0 <= u.abilityPower && 0 <= u.abilityCooldown
  }

  /** Every unit of the roster is well formed. */
  predicate AllWellFormed(units: seq<Unit>)
  {
    forall i :: 0 <= i < |units| ==> WellFormed(units[i])
  }

  /** At most one living unit stands on any cell; the dead do not count. */
  predicate NoSharedCell(units: seq<Unit>)
  {
    forall i, j :: 0 <= i < |units| && 0 <= j < |units| && i != j && units[i].IsAlive() && units[j].IsAlive() ==>
      units[i].position != units[j].position
  }

  /** A roster change that brings no dead unit back and moves no living
      unit keeps every cell unshared. */
  lemma NoSharedCellKept(units: seq<Unit>, r: seq<Unit>)
    requires NoSharedCell(units) && |r| == |units|
    requires forall i :: 0 <= i < |r| && r[i].IsAlive() ==> units[i].IsAlive() && r[i].position == units[i].position
    ensures NoSharedCell(r)
  {
  }

  /** Replacing one unit by one that stands where no other living unit
      stands keeps every cell unshared. */
  lemma NoSharedCellAfterMove(units: seq<Unit>, c: int, v: Unit)
    requires NoSharedCell(units) && 0 <= c < |units|
    requires forall i :: 0 <= i < |units| && i != c && units[i].IsAlive() ==> units[i].position != v.position
    ensures NoSharedCell(units[c := v])
  {
  }

  /** Damage before guard mitigation: attack power minus defense, at least 1. */
  function BaseDamage(power: int, defense: int): int
  {
    Max(1, power - defense)
  }

  /** Guard mitigation of a hit of `d` points: half, rounded up, at least 1. */
  function GuardedDamage(d: int): int
  {
    Max(1, (d + 1) / 2)
  }

  /** The damage a hit of `power` deals to `target`. */
  function HitDamage(target: Unit, power: int): (d: int)
    ensures d >= 1
    ensures !target.isGuarding ==> d == BaseDamage(power, target.defense)
    ensures target.isGuarding ==> 2 * d - 1 <= BaseDamage(power, target.defense) <= 2 * d
  {
    var d := BaseDamage(power, target.defense);
    if target.isGuarding then GuardedDamage(d) else d
  }

  /** ResolveAttack's effect on its target: the damage is taken from Hp with a
      floor at 0, and a guard, if up, is used up by the hit. */
  function ApplyHit(target: Unit, power: int): (t: Unit)
    ensures t.hp == Max(0, target.hp - HitDamage(target, power))
    ensures !t.isGuarding
    ensures t.(hp := target.hp, isGuarding := target.isGuarding) == target
  {
    target.(hp := Max(0, target.hp - HitDamage(target, power)), isGuarding := false)
  }

  /** A hit never raises health, takes at least one point from a living unit
      and keeps the unit invariant. */
  lemma ApplyHitKeepsHealthBounds(target: Unit, power: int)
    requires WellFormed(target)
    ensures WellFormed(ApplyHit(target, power))
    ensures ApplyHit(target, power).hp <= target.hp
    ensures target.IsAlive() ==> ApplyHit(target, power).hp < target.hp
    ensures ApplyHit(target, power).IsAlive() ==> ApplyHit(target, power).hp <= target.hp - 1
  {
  }

  /** The Heal ability's effect: Hp grows by `power`, clamped to MaxHp. */
  function HealBy(target: Unit, power: int): (t: Unit)
    ensures t.(hp := target.hp) == target
    ensures t.hp <= target.maxHp && t.hp <= target.hp + power
    ensures t.hp == target.maxHp || t.hp == target.hp + power
  {
    target.(hp := Min(target.maxHp, target.hp + power))
  }

  lemma HealKeepsHealthBounds(target: Unit, power: int)
    requires WellFormed(target) && power >= 0
    ensures WellFormed(HealBy(target, power))
    ensures target.hp <= HealBy(target, power).hp <= target.maxHp
    ensures HealBy(target, power).hp == target.maxHp || HealBy(target, power).hp == target.hp + power
  {
  }

  /** BeginTurnForCurrentUnit's effect on the unit whose turn starts: the four
      per-turn flags are cleared and a running cooldown ticks down by one. */
  function ResetForTurn(u: Unit): (r: Unit)
    ensures !r.hasMoved && !r.hasActed && !r.turnEnded && !r.isGuarding
    ensures r.abilityCooldownRemaining == if u.abilityCooldownRemaining > 0 then u.abilityCooldownRemaining - 1 else u.abilityCooldownRemaining
    ensures r.(hasMoved := u.hasMoved, hasActed := u.hasActed, turnEnded := u.turnEnded,
               isGuarding := u.isGuarding, abilityCooldownRemaining := u.abilityCooldownRemaining) == u
  {
    u.(hasMoved := false, hasActed := false, turnEnded := false, isGuarding := false,
       abilityCooldownRemaining := if u.abilityCooldownRemaining > 0 then u.abilityCooldownRemaining - 1
                                   else u.abilityCooldownRemaining)
  }

  /** The cooldown counter drops by at most one per turn start and never below 0. */
  lemma ResetForTurnCooldown(u: Unit)
    requires WellFormed(u)
    ensures WellFormed(ResetForTurn(u))
    ensures u.abilityCooldownRemaining - 1 <= ResetForTurn(u).abilityCooldownRemaining <= u.abilityCooldownRemaining
    ensures ResetForTurn(u).abilityCooldownRemaining == 0 <==> u.abilityCooldownRemaining <= 1
  {
  }

  /** Guard halves exactly one incoming hit: a second hit right after the
      first is back to full damage. */
  lemma GuardIsSingleUse(target: Unit, power: int)
    requires target.isGuarding
    ensures HitDamage(target, power) == GuardedDamage(BaseDamage(power, target.defense))
    ensures HitDamage(ApplyHit(target, power), power) == BaseDamage(power, target.defense)
  {
  }
}
