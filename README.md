# dungeondelve in Dafny

This project models the deterministic core of dungeondelve, which holds two
small games, and proves properties of that model.

- **HexCrawl tactical combat** (C#). A `CombatState` holds a roster of units.
  Dead units stay in place. Units act in initiative order with a cursor, a
  round counter and a turn id. A selected hero picks an action mode (move,
  attack, ability). The mode caches the reachable or targetable cells.
  Move, attack, ability (Cleave, ThrowingKnife, ArcBolt, Heal) and guard each
  resolve against the roster. Enemies take one greedy step-and-strike turn.
  Beside it sit the axial hex-grid helpers of the overworld map: hex
  distance, hex ranges, visibility and biome rolls.
- **The legacy C roguelike.** `GameState` keeps fixed-size enemy and item
  tables. Movement is checked against the tile map. Line of sight is a
  Bresenham walk. Enemies chase or wander. The player can fight, pick up
  items, and lose. The dungeon is carved on an 80 x 45 tile map: rooms,
  overlap tests, binary space partition, rooms in the leaves, and
  L-shaped corridors.
- **Content plumbing.** A content catalog offers enemy and event lists per
  biome. The loader falls back to built-in defaults for anything the data
  files leave missing or empty.
- **The pixel font's text measure.** `MeasureString` gives the extent of a
  text. The glyph lookup falls back to `?`.

Classes model the code that mutates state: `CombatEngine.CombatState`,
`HexGrid.HexMap`, `Entities.GameState` and `RogueTypes.GameMap`. Their
methods keep the source's loops. Each method is proved against a pure
specification function, for example:

- `Snap() == EndTurn(old(Snap()))`;
- the breadth-first move range equals `MoveTiles`, the cells reachable
  in at most `MoveRange` steps.

The properties the games promise are proved as lemmas about those
functions. Every random draw is a parameter: d20 rolls, tie-breakers, biome
rolls, split, room and corridor draws, and enemy wander and chase coins.

Modules: `Wrappers` (Option), `CombatTypes`, `CombatGrid`, `CombatRules`,
`MoveSearch`, `CombatTurns`, `Initiative`, `CombatActions`, `CombatEngine`,
`HexGrid`, `RogueTypes`, `Entities`, `Dungeon`, `Content`, `PixelFont`.

## Model

| member | source | states |
|---|---|---|
| CombatTypes.NewUnit | src/HexCrawlGame/Core/Models.cs:325-359 | A new unit starts at full health with zero cooldown, zero initiative and every turn flag cleared; it is well formed when its stats are non-negative |
| CombatTypes.HitDamage | src/HexCrawlGame/Core/Models.cs:915-925 | Damage is at least 1; unguarded it is max(1, power - defense); guarded it is the base damage halved, rounded up |
| CombatTypes.ApplyHit | src/HexCrawlGame/Core/Models.cs:915-925 | A hit sets health to max(0, hp - damage) and clears guarding; nothing else about the unit changes |
| CombatTypes.ApplyHitKeepsHealthBounds | src/HexCrawlGame/Core/Models.cs:915-925 | A hit keeps 0 <= hp <= maxHp, never raises health, and takes at least one point from a living unit |
| CombatTypes.GuardIsSingleUse | src/HexCrawlGame/Core/Models.cs:917-924 | Guard halves exactly one hit: the next hit on the same unit deals full damage |
| CombatTypes.HealBy | src/HexCrawlGame/Core/Models.cs:965-975 | Only hp changes; the new hp exceeds neither maxHp nor hp + power, and reaches one of the two |
| CombatTypes.HealKeepsHealthBounds | src/HexCrawlGame/Core/Models.cs:965-975 | Healing keeps the unit well formed; the new hp lies between the old hp and maxHp, and is either maxHp or hp + power |
| CombatTypes.IsAdjacent | src/HexCrawlGame/Core/Models.cs:981-982 | Two cells are adjacent exactly when one is among the other's four orthogonal neighbours |
| CombatTypes.IsInRange | src/HexCrawlGame/Core/Models.cs:984-985 | No cell is in a negative range; a unit's own cell is in every non-negative range, and an adjacent cell in every range of at least one |
| CombatTypes.ResetForTurn | src/HexCrawlGame/Core/Models.cs:1045-1067 | The four turn flags are cleared, the cooldown drops by one only when positive, and nothing else changes |
| CombatTypes.ResetForTurnCooldown | src/HexCrawlGame/Core/Models.cs:1061-1064 | The cooldown never goes below zero and drops by at most one; it becomes 0 exactly when it was at most 1 |
| CombatGrid.Grid.InBounds | src/HexCrawlGame/Core/Models.cs:260-261 | An in-bounds point indexes the width x height blocked-cell table: its flat offset x * height + y lies inside it |
| CombatGrid.Grid.IsWalkable | src/HexCrawlGame/Core/Models.cs:263-264 | Only in-bounds points are walkable, so the table read is guarded; with no blocked cell, as the source leaves the table, every in-bounds point is walkable |
| CombatGrid.Grid.GetNeighbors | src/HexCrawlGame/Core/Models.cs:266-296 | The neighbours are exactly the in-bounds cells one 4-way (or 8-way with diagonals) step away, at most 4 (or 8) of them |
| CombatGrid.DeltaIndex | src/HexCrawlGame/Core/Models.cs:266-296 | Every touching cell is reached by one of the listed offsets, so no neighbour is missed |
| CombatRules.UnitAt | src/HexCrawlGame/Core/Models.cs:454-464 | The index of the first living unit on the cell, or -1 exactly when no living unit stands there |
| CombatRules.GetUnitAt | src/HexCrawlGame/Core/Models.cs:454-464 | The loop returns the first living unit on the cell |
| CombatRules.IsOccupied | src/HexCrawlGame/Core/Models.cs:791-801 | True exactly when some living unit stands on the cell |
| CombatRules.AliveCount | src/HexCrawlGame/Core/Models.cs:440-452 | The count is at most the roster size, and 0 exactly when no unit of the team is alive |
| CombatRules.CountAlive | src/HexCrawlGame/Core/Models.cs:440-452 | The loop computes the number of living units of the team |
| CombatRules.NearestHero | src/HexCrawlGame/Core/Models.cs:714-758 | The living hero (within range, if a range is given) at the smallest Manhattan distance; the first such on ties; -1 exactly when there is none |
| CombatRules.NearestHeroInSpec | src/HexCrawlGame/Core/Models.cs:714-758 | Scanning the first n units yields -1 exactly when none of them is a living hero in range, otherwise a living hero in range no farther than any other, the first on ties |
| CombatRules.FindHero | src/HexCrawlGame/Core/Models.cs:714-758 | The search loop returns the nearest living hero, as NearestHero defines it |
| CombatRules.BestStepSpec | src/HexCrawlGame/Core/Models.cs:760-789 | The greedy step is an open (walkable, in bounds, unoccupied) orthogonal step minimising distance to the target; there is none exactly when no step is open; on a tie the earlier candidate in the order right, left, down, up wins, since every open candidate before the chosen one is strictly farther |
| CombatRules.BestStepInSpec | src/HexCrawlGame/Core/Models.cs:770-786 | Scanning the first n candidates keeps an open one no farther from the target than any other open one, and finds none exactly when none is open; the one kept is the first of the closest, every open candidate before it being strictly farther |
| CombatRules.StepToward | src/HexCrawlGame/Core/Models.cs:760-789 | The loop over the four steps returns BestStep |
| CombatRules.RangeTiles | src/HexCrawlGame/Core/Models.cs:879-898 | The tiles are exactly the in-bounds cells at Manhattan distance 1..range; the origin is excluded |
| CombatActions.Diamond | src/HexCrawlGame/Core/Models.cs:879-898 | The attack and ability range: exactly the in-bounds cells at distance 1..range, without the origin |
| MoveSearch.MoveTilesAreWalkEnds | src/HexCrawlGame/Core/Models.cs:803-842 | A cell is in the move range iff it is not the origin and ends a walk of at most MoveRange steps through open cells |
| MoveSearch.MoveTilesAreOpen | src/HexCrawlGame/Core/Models.cs:803-842 | Every move-range cell is walkable and not occupied by a living unit |
| MoveSearch.ReachWithinManhattan | src/HexCrawlGame/Core/Models.cs:803-842 | Without diagonals, a cell reached in k steps is within Manhattan distance k |
| MoveSearch.ClosedIsExact | src/HexCrawlGame/Core/Models.cs:803-842 | A labelling closed under steps within the depth limit, minus the origin, is exactly the move range |
| MoveSearch.DrainedIsExact | src/HexCrawlGame/Core/Models.cs:803-842 | When the breadth-first queue is drained, the visited cells other than the origin are exactly the move range |
| MoveSearch.VisitNeighbors | src/HexCrawlGame/Core/Models.cs:825-840 | Expanding one queue entry enqueues every open unvisited neighbour at depth + 1 and keeps the queue invariant |
| MoveSearch.FloodMoveRange | src/HexCrawlGame/Core/Models.cs:803-842 | The breadth-first search computes exactly MoveTiles |
| CombatTurns.Clamp | src/HexCrawlGame/Core/Models.cs:1040 | The result lies in [lo, hi] and is n itself when n already does |
| CombatTurns.FirstAlive | src/HexCrawlGame/Core/Models.cs:1093-1105 | The first order position from start whose unit is alive, or -1 exactly when none is |
| CombatTurns.BeginTurn | src/HexCrawlGame/Core/Models.cs:1045-1067 | The turn id goes up by one and the mode is cleared; a living current unit is reset and selected exactly when it is a hero |
| CombatTurns.StartTurnAt | src/HexCrawlGame/Core/Models.cs:1030-1043 | With an order, the cursor is clamped into it and the unit there begins its turn; with none, nobody is current and nothing is selected |
| CombatTurns.Advance | src/HexCrawlGame/Core/Models.cs:1069-1091 | The round goes up exactly when the search wraps; the new current unit is alive; -1 with no selection and no mode exactly when nobody is alive |
| CombatTurns.EndTurn | src/HexCrawlGame/Core/Models.cs:648-666 | Ending a turn with a current unit advances to a living unit or to nobody |
| CombatTurns.AutoEnd | src/HexCrawlGame/Core/Models.cs:907-913 | The turn ends exactly when the current unit has both moved and acted |
| CombatTurns.AdvanceKeepsValid | src/HexCrawlGame/Core/Models.cs:1069-1091 | Advancing keeps the state invariant: the order holds in-range indices, the current unit, if any, is alive and at the cursor, and no two living units share a cell |
| CombatTurns.StartTurnAtKeepsValid | src/HexCrawlGame/Core/Models.cs:1030-1043 | Starting a turn at a living position keeps the state invariant (including that no two living units share a cell) |
| CombatTurns.BeginTurnKeepsValid | src/HexCrawlGame/Core/Models.cs:1045-1067 | Beginning the current unit's turn keeps the state invariant (including that no two living units share a cell) |
| CombatTurns.EndTurnKeepsValid | src/HexCrawlGame/Core/Models.cs:648-666 | Ending a turn keeps the state invariant (including that no two living units share a cell) |
| CombatTurns.EndTurnAlwaysEnds | src/HexCrawlGame/Core/Models.cs:648-666 | After EndTurn a dead unit is never current, the turn id moves on, and the round goes up exactly on wrap-around |
| CombatTurns.FirstAliveAgrees | src/HexCrawlGame/Core/Models.cs:1093-1105 | The next living position depends only on who is alive |
| Initiative.Insert | src/HexCrawlGame/Core/Models.cs:1005-1020 | Inserting into a descending order keeps it descending and adds exactly the entry |
| Initiative.SortEntries | src/HexCrawlGame/Core/Models.cs:1005-1020 | The sort yields a descending permutation of its input by (roll, bonus, tie-breaker) |
| Initiative.RollFor | src/HexCrawlGame/Core/Models.cs:1000-1001 | Only the roll and the tie-breaker change; the roll is the d20 draw plus the unit's bonus and the tie-breaker is the value drawn for it |
| Initiative.AliveIndices | src/HexCrawlGame/Core/Models.cs:992-1003 | The indices, in increasing order, of exactly the living units |
| Initiative.TurnOrderIsSortedPermutation | src/HexCrawlGame/Core/Models.cs:987-1028 | The turn order is a permutation of the living units' indices, sorted descending by (roll, bonus, tie-breaker); with d20 draws in [1, 20] each roll lies in [1 + bonus, 20 + bonus] |
| Initiative.OrderIsAlivePermutation | src/HexCrawlGame/Core/Models.cs:987-1028 | The order holds each living unit exactly once |
| Initiative.RolledRollBounds | src/HexCrawlGame/Core/Models.cs:1000 | With d20 draws in [1, 20], every living unit's roll lies in [1 + bonus, 20 + bonus] |
| CombatActions.SetMode | src/HexCrawlGame/Core/Models.cs:484-529 | All three ranges are cleared first; the mode ends non-None exactly when the selected current hero is alive, not turn-ended, and may still move (Move), act (Attack), or act with a ready ability (Ability); the cached range is then the move range or the diamond |
| CombatActions.TrySelect | src/HexCrawlGame/Core/Models.cs:466-482 | Selection succeeds exactly on the player's turn when the cell holds the current unit; it then selects it and asks for Move; failure changes nothing |
| CombatActions.Commit | src/HexCrawlGame/Core/Models.cs:537-646 | Committing an action installs the new roster and clears the mode and ranges; nothing else changes |
| CombatActions.TryMove | src/HexCrawlGame/Core/Models.cs:537-560 | A move succeeds exactly for a ready hero that has not moved, onto a free move-range cell; it then moves the unit, sets HasMoved and may auto-end the turn; failure changes nothing |
| CombatActions.TryAttack | src/HexCrawlGame/Core/Models.cs:562-591 | An attack succeeds exactly for a ready hero that has not acted, on an attack-range cell holding a living enemy; only that enemy is hit, HasActed is set and the turn may auto-end; failure changes nothing |
| CombatActions.CleaveHits | src/HexCrawlGame/Core/Models.cs:931-952 | Cleave hits each living opposing unit adjacent to the caster with AbilityPower and leaves every other unit as it was |
| CombatActions.CleaveHitsExactly | src/HexCrawlGame/Core/Models.cs:931-952 | A unit loses health under Cleave exactly when it is a living adjacent opponent |
| CombatActions.ResolveAbility | src/HexCrawlGame/Core/Models.cs:927-979 | None fails; Cleave needs an adjacent living opponent on the cell and hits all adjacent opponents; knife and bolt hit only a living opponent on the cell; Heal needs a living ally there and heals it |
| CombatActions.TryAbility | src/HexCrawlGame/Core/Models.cs:593-626 | An ability succeeds exactly for a ready hero that has not acted, with an ability off cooldown, on an ability-range cell where it resolves; it then sets HasActed and the full cooldown; failure changes nothing |
| CombatActions.TryGuard | src/HexCrawlGame/Core/Models.cs:628-646 | Guard succeeds exactly for a ready hero that has not acted; it sets IsGuarding and HasActed and may auto-end the turn; failure changes nothing |
| CombatActions.EnemyWalk | src/HexCrawlGame/Core/Models.cs:689-703 | The enemy moves at most `steps` cells, onto walkable cells no other living unit holds, does not move once the hero is in range, and no other unit changes |
| CombatActions.EnemyActMoves | src/HexCrawlGame/Core/Models.cs:668-712 | Only the enemy's position changes in itself, by at most MoveRange |
| CombatActions.EnemyActHitsInRange | src/HexCrawlGame/Core/Models.cs:705-709 | Any other unit the enemy changes is a living hero within its Range of its final cell |
| CombatActions.EnemyActKeepsCellsUnshared | src/HexCrawlGame/Core/Models.cs:668-712 | After the enemy's walk and strike, no two living units share a cell |
| CombatActions.EnemyActHitsOne | src/HexCrawlGame/Core/Models.cs:705-709 | The enemy changes at most one other unit |
| CombatActions.EnemyActHit | src/HexCrawlGame/Core/Models.cs:705-709 | When a hero is in range after the walk, exactly that hero takes one hit of the enemy's Attack |
| CombatActions.EnemyTurn | src/HexCrawlGame/Core/Models.cs:668-712 | A living enemy with a living hero to chase walks toward the nearest hero, strikes if in range, and the turn ends; otherwise the turn just ends |
| CombatActions.TryMoveKeepsValid | src/HexCrawlGame/Core/Models.cs:537-560 | Moving keeps the state invariant (including that no two living units share a cell) |
| CombatActions.TryAttackKeepsValid | src/HexCrawlGame/Core/Models.cs:562-591 | Attacking keeps the state invariant (including that no two living units share a cell) |
| CombatActions.ResolveAbilityKeepsUnits | src/HexCrawlGame/Core/Models.cs:927-979 | A landed ability keeps every unit well formed, moves nobody and brings no dead unit back (Heal only finds living targets) |
| CombatActions.TryAbilityKeepsValid | src/HexCrawlGame/Core/Models.cs:593-626 | Using an ability keeps the state invariant (including that no two living units share a cell) |
| CombatActions.TryGuardKeepsValid | src/HexCrawlGame/Core/Models.cs:628-646 | Guarding keeps the state invariant (including that no two living units share a cell) |
| CombatActions.EnemyTurnKeepsValid | src/HexCrawlGame/Core/Models.cs:668-712 | An enemy turn keeps the state invariant (including that no two living units share a cell) |
| CombatEngine.StartKeepsValid | src/HexCrawlGame/Core/Models.cs:433-438 | Starting combat from well-formed units on distinct cells yields a valid state in round 1, with nobody current exactly when nobody is alive |
| CombatEngine.DefaultStartIsValid | src/HexCrawlGame/Core/Models.cs:390-438 | The default combat starts in a valid state with a living unit's turn under way |
| CombatEngine.OrderHoldsTheLiving | src/HexCrawlGame/Core/Models.cs:987-1043 | The rolled order holds in-range indices, starts with a living unit, and is empty exactly when nobody is alive |
| CombatEngine.RollAll | src/HexCrawlGame/Core/Models.cs:992-1003 | The roll loop gives every living unit its roll and collects exactly the living units' entries |
| CombatEngine.CombatState.constructor | src/HexCrawlGame/Core/Models.cs:364-388 | A new combat has no units, no order, nobody current or selected, round 1, turn id 0, mode None and empty ranges |
| CombatEngine.CombatState.CreateDefault | src/HexCrawlGame/Core/Models.cs:390-431 | The default roster of four heroes and three enemies, then StartCombat; the resulting state is valid and has a current unit |
| CombatEngine.DefaultRoster | src/HexCrawlGame/Core/Models.cs:390-431 | Seven living, well-formed units; the first four are heroes and the last three enemies |
| CombatEngine.DefaultRosterCellsDistinct | src/HexCrawlGame/Core/Models.cs:393-428 | The seven default units stand on seven different cells |
| CombatEngine.CombatState.StartCombat | src/HexCrawlGame/Core/Models.cs:433-438 | Round 1, initiative rolled, and the turn started at position 0 |
| CombatEngine.CombatState.RollInitiative | src/HexCrawlGame/Core/Models.cs:987-1028 | The roster gets its rolls, the order becomes TurnOrder and the cursor 0; nothing else changes |
| CombatEngine.CombatState.StartTurnAtPosition | src/HexCrawlGame/Core/Models.cs:1030-1043 | The new state is StartTurnAt of the old one |
| CombatEngine.CombatState.BeginTurnForCurrentUnit | src/HexCrawlGame/Core/Models.cs:1045-1067 | The new state is BeginTurn of the old one |
| CombatEngine.CombatState.AdvanceTurn | src/HexCrawlGame/Core/Models.cs:1069-1091 | The new state is Advance of the old one |
| CombatEngine.CombatState.FindNextAlivePosition | src/HexCrawlGame/Core/Models.cs:1093-1105 | The loop returns FirstAlive |
| CombatEngine.CombatState.ClearActionMode | src/HexCrawlGame/Core/Models.cs:531-535 | Mode None and all three ranges empty; nothing else changes |
| CombatEngine.CombatState.ClearRanges | src/HexCrawlGame/Core/Models.cs:900-905 | All three ranges empty; nothing else changes |
| CombatEngine.CombatState.EndCurrentTurn | src/HexCrawlGame/Core/Models.cs:648-666 | The new state is EndTurn of the old one |
| CombatEngine.CombatState.MaybeAutoEndTurn | src/HexCrawlGame/Core/Models.cs:907-913 | The new state is AutoEnd of the old one |
| CombatEngine.CombatState.TrySelectUnit | src/HexCrawlGame/Core/Models.cs:466-482 | The result and the new state are TrySelect of the old state |
| CombatEngine.CombatState.SetActionMode | src/HexCrawlGame/Core/Models.cs:484-529 | The new state is SetMode of the old one |
| CombatEngine.CombatState.RecalculateMoveRange | src/HexCrawlGame/Core/Models.cs:803-842 | The move range becomes MoveTiles of the selected unit, or empty with no selection; nothing else changes |
| CombatEngine.CombatState.RecalculateAttackRange | src/HexCrawlGame/Core/Models.cs:844-857 | The attack range becomes the selected unit's diamond, or empty; nothing else changes |
| CombatEngine.CombatState.RecalculateAbilityRange | src/HexCrawlGame/Core/Models.cs:859-877 | The ability range becomes the selected unit's ability diamond, empty without an ability or selection; nothing else changes |
| CombatEngine.CombatState.TryMoveSelected | src/HexCrawlGame/Core/Models.cs:537-560 | The result and the new state are TryMove of the old state |
| CombatEngine.CombatState.TryAttackSelected | src/HexCrawlGame/Core/Models.cs:562-591 | The result and the new state are TryAttack of the old state |
| CombatEngine.CombatState.ResolveAttack | src/HexCrawlGame/Core/Models.cs:915-925 | Only the target unit changes, by ApplyHit |
| CombatEngine.CombatState.ResolveAbilityOf | src/HexCrawlGame/Core/Models.cs:927-979 | Succeeds exactly when ResolveAbility does, and then installs its roster; otherwise nothing changes |
| CombatEngine.CombatState.CleaveAround | src/HexCrawlGame/Core/Models.cs:931-952 | The roster becomes CleaveHits of the old roster |
| CombatEngine.CombatState.StrikeWithAbility | src/HexCrawlGame/Core/Models.cs:953-964 | Succeeds exactly on a living opponent at the cell, which alone takes a hit of AbilityPower |
| CombatEngine.CombatState.HealWithAbility | src/HexCrawlGame/Core/Models.cs:965-975 | Succeeds exactly on a living ally at the cell, which alone is healed by AbilityPower |
| CombatEngine.CombatState.TryAbilitySelected | src/HexCrawlGame/Core/Models.cs:593-626 | The result and the new state are TryAbility of the old state |
| CombatEngine.CombatState.TryGuardSelected | src/HexCrawlGame/Core/Models.cs:628-646 | The result and the new state are TryGuard of the old state |
| CombatEngine.CombatState.ExecuteEnemyTurn | src/HexCrawlGame/Core/Models.cs:668-712 | The new state is EnemyTurn of the old one |
| CombatEngine.Chase | src/HexCrawlGame/Core/Models.cs:689-703 | The step loop computes EnemyWalk with MoveRange steps |
| HexGrid.Distance | src/HexCrawlGame/Core/Models.cs:68-80 | The hex distance is at least each axial gap and at most their sum |
| HexGrid.DistanceIsCubeMax | src/HexCrawlGame/Core/Models.cs:69-80 | The hex distance is the largest of the three cube-coordinate differences |
| HexGrid.DistanceZero | src/HexCrawlGame/Core/Models.cs:69-80 | Distance is non-negative and zero exactly for equal coordinates |
| HexGrid.DistanceSymmetric | src/HexCrawlGame/Core/Models.cs:69-80 | Distance is symmetric |
| HexGrid.DistanceTriangle | src/HexCrawlGame/Core/Models.cs:69-80 | Distance obeys the triangle inequality |
| HexGrid.DirectionsAreNeighbors | src/HexCrawlGame/Core/Models.cs:98-106 | Each of the six directions leads to a hex at distance 1 |
| HexGrid.ColumnBounds | src/HexCrawlGame/Core/Models.cs:82-93 | A hex is within the radius iff its offsets lie in the bounds the Range loops iterate over |
| HexGrid.Range | src/HexCrawlGame/Core/Models.cs:82-93 | The cells are exactly the hexes within the radius, each once, column by column |
| HexGrid.PickBiome | src/HexCrawlGame/Core/Models.cs:232-244 | Plains exactly for rolls below 60, Forest exactly for 60-84, Hills exactly from 85 up |
| HexGrid.PickBiomeBands | src/HexCrawlGame/Core/Models.cs:232-244 | Rolls 0-59 give Plains, 60-84 Forest, 85-99 Hills, and a higher roll never gives an earlier band |
| HexGrid.TileIndexBijection | src/HexCrawlGame/Core/Models.cs:207-210 | Row-major indexing is a bijection between in-bounds coordinates and tile indices |
| HexGrid.HexMap.constructor | src/HexCrawlGame/Core/Models.cs:180-189 | A width x height map of default tiles |
| HexGrid.HexMap.Generate | src/HexCrawlGame/Core/Models.cs:191-202 | Every tile gets the biome PickBiome gives its own roll, row by row, and is hidden and unrevealed |
| HexGrid.HexMap.InBounds | src/HexCrawlGame/Core/Models.cs:204-205 | An in-bounds coordinate has a row-major index inside the tile list, and that index maps back to the coordinate |
| HexGrid.HexMap.GetTile | src/HexCrawlGame/Core/Models.cs:207-210 | The tile at the coordinate's row-major index |
| HexGrid.HexMap.UpdateVisibility | src/HexCrawlGame/Core/Models.cs:212-230 | A tile ends visible exactly when within the radius, revealed when it was before or is visible now, and its biome never changes |
| Entities.EnemyOf | src/entities.c:30-81 | A new enemy is active, not aggro, at full health, with the stats of its kind |
| Entities.ItemOf | src/entities.c:90-124 | A new item is active with its kind's value; gold is worth 10 to 29 |
| Entities.Append | src/entities.c:27-28 | A full table is unchanged; otherwise the entry fills the slot at the old count, the count goes up by one, and earlier slots are untouched |
| Entities.GameState.InitGameState | src/entities.c:7-24 | The player has the starting stats, both tables are empty, turn 0, level 1, player's turn, game not over |
| Entities.GameState.CreateEnemy | src/entities.c:27-84 | The enemy table and count are Append of the new enemy; everything else is unchanged |
| Entities.GameState.CreateItem | src/entities.c:87-127 | The item table and count are Append of the new item; everything else is unchanged |
| Entities.Move | src/entities.c:176-195 | A move succeeds exactly when the target is on the map and is floor or door, and then lands on the target |
| Entities.MovedToStaysOnFloor | src/entities.c:176-195 | An entity either stays put or lands on a walkable cell of the map, at most the step's length away |
| Entities.MoveEntity | src/entities.c:176-195 | Returns whether Move succeeds and the new coordinates; a failed move leaves them unchanged |
| Entities.NextCell | src/entities.c:208-224 | Each Bresenham step moves strictly closer to the end point and stays inside the bounding box |
| Entities.SightLineInBox | src/entities.c:197-227 | Every cell of the walked line lies between the two end points |
| Entities.IsVisible | src/entities.c:197-227 | Visible exactly when no cell stepped onto, end point included, is a wall; always visible when the end points coincide; never visible when the target cell is a wall and differs from the start |
| Entities.SeesPlayer | src/entities.c:237-243 | The enemy sees the player exactly when the player is within sight range and the line of sight is clear |
| Entities.TrackSteps | src/entities.c:208-218 | The error arithmetic of the walk: neither early break fires while the other axis still has distance to go, and each step moves the error to the value for the shorter distances |
| Entities.NextCellOnTrack | src/entities.c:205-218 | On track, a step of the walk stops exactly at the target and otherwise stays on track |
| Entities.StartsOnTrack | src/entities.c:198-202 | The walk starts on track: the whole distance to go and the error at dx + dy |
| Entities.SightLineEndsAtTarget | src/entities.c:205-226 | A walk on track from a cell other than the target is non-empty and ends on the target |
| Entities.LineEndsAtTarget | src/entities.c:197-227 | The line of sight between two different cells is non-empty and its last cell is the target |
| Entities.ClearAvoidsWalls | src/entities.c:221-223 | No cell of a clear walk is a wall |
| Entities.WallOnTargetBlocksSight | src/entities.c:205-224 | A wall on the target cell hides it from every other cell |
| Entities.WalkStep | src/entities.c:206-218 | One round of the Bresenham loop stops exactly when NextCell does, otherwise it steps to NextCell's cell, strictly closer to the target and inside the box of the two ends |
| Entities.WalkIsClear | src/entities.c:205-226 | The loop returns true exactly when no cell of the remaining walk is a wall |
| Entities.VisibleFromIsClear | src/entities.c:205-224 | Stopping at the first wall of the walk agrees with "no cell of the walk is a wall" |
| Entities.MeleeDamage | src/entities.c:271-272 | Enemy melee deals at least 1 and at least attack - defense |
| Entities.EnemyUpdate | src/entities.c:233-286 | An inactive enemy leaves enemy and player unchanged; an update never changes the enemy's activity, health or attack, never moves the player and never raises the player's health |
| Entities.EnemyUpdateHurts | src/entities.c:230-288 | An enemy update only lowers the player's health; it does so only when the enemy is active and one cell away, and by at least one point |
| Entities.EnemyUpdateMoves | src/entities.c:230-288 | An inactive enemy does not change; an active one keeps its stats, stays aggro once aggro, and stays put or lands on a walkable cell |
| Entities.ChaseStepStaysOnFloor | src/entities.c:248-268 | A chase step stays put or lands on a walkable cell one step away |
| Entities.StepOffStaysOnFloor | src/entities.c:259-268 | Trying one direction and then the other stays put or lands on a walkable cell one step away |
| Entities.UpdateFromEffect | src/entities.c:230-288 | Updating the enemies changes only the player's health, lowering it, and only the slots in use |
| Entities.GameState.UpdateEnemies | src/entities.c:230-288 | The enemy table and player become UpdateFrom of the old ones; counts, turn and level are unchanged |
| Entities.TryMoves | src/entities.c:260-268 | The second offset is tried exactly when the first move is refused; the result is StepOff's cell |
| Entities.UpdateOne | src/entities.c:233-286 | One enemy's update step computes EnemyUpdate |
| Entities.FirstWhereIsFirst | src/entities.c:293-296 | The slot found is the first one matching, or no slot matches |
| Entities.Struck | src/entities.c:298-310 | The enemy loses max(1, attack - defense), with no floor at 0, and stays active exactly while its health is positive |
| Entities.GameState.HandleCombat | src/entities.c:291-315 | Only the first active enemy on the target cell is struck; no other enemy changes |
| Entities.Consume | src/entities.c:324-349 | A potion heals up to maxHealth, a weapon adds to attack, armor to defense, gold changes nothing |
| Entities.PotionClamp | src/entities.c:325-329 | After a potion, health lies between the old health and maxHealth, and is either maxHealth or health + value |
| Entities.GameState.PickupItem | src/entities.c:318-357 | At most one item is consumed, the first active one on the player's cell, and it becomes inactive; with none, nothing changes |
| Entities.GameState.CheckGameOver | src/entities.c:360-368 | Returns true exactly when health <= 0 and then sets gameOver; nothing else changes |
| Dungeon.InitializeMap | src/dungeon.c:8-15 | Every tile is empty and there are no rooms |
| Dungeon.RoomCell | src/dungeon.c:76-98 | Interior cells become floor, the one-cell ring wall, and every other cell is unchanged |
| Dungeon.RingIsBorder | src/dungeon.c:82-96 | The ring is exactly the cells of the one-cell border that are not interior |
| Dungeon.CreateRoom | src/dungeon.c:76-98 | Every map cell becomes RoomCell of its old value |
| Dungeon.OverlapsProperties | src/dungeon.c:322-336 | Overlap is symmetric, rooms sharing a cell overlap, and rooms more than the padding apart do not |
| Dungeon.CheckRoomOverlap | src/dungeon.c:322-336 | True exactly when some recorded room overlaps the new one; false with no rooms |
| Dungeon.Centre | src/dungeon.c:167-170 | The integer centre of a non-empty room is inside it |
| Dungeon.PlacePlayer | src/dungeon.c:313-319 | With a room, the player moves to the centre of the first room; otherwise it is unchanged |
| Dungeon.SplitNode | src/dungeon.c:31-63 | The node keeps its rectangle; when it splits, its two children are leaves that tile it, each at least the minimum across the cut |
| Dungeon.SplitNodeTiles | src/dungeon.c:31-63 | A node stays a leaf exactly when a side is at most twice the minimum; otherwise its two children tile it exactly, each at least the minimum across the cut |
| Dungeon.GenerateBSPTree | src/dungeon.c:66-73 | The root keeps the starting rectangle; a positive depth consumes at least one split draw and depth zero consumes none |
| Dungeon.GenerateTiles | src/dungeon.c:66-73 | The generated tree covers its rectangle, every split tiles its parent, and the depth is bounded |
| Dungeon.GeneratedTreeOnMap | src/dungeon.c:291-299 | Every leaf of the tree grown from the whole map lies on the map |
| Dungeon.CreateRoomInNode | src/dungeon.c:101-135 | No room for an inner node; for a leaf, LeafRoom |
| Dungeon.LeafRoom | src/dungeon.c:101-135 | The room lies inside the leaf's rectangle and is at least the minimum size the leaf allows |
| Dungeon.CreateRoomInNodeAgrees | src/dungeon.c:101-135 | Wherever the leaf leaves a span to draw from, the guarded room is the room the code as written makes |
| Dungeon.CreateRoomInNodeAsWritten | src/dungeon.c:101-135 | An inner node gets no room; a leaf is undefined exactly when its width or height is the minimum room size plus two; any other room is at least the minimum size and ends no further than the node's far edges |
| Dungeon.CreateRoomInNodeAsWrittenFails | src/dungeon.c:107-122 | A seven-wide leaf makes a remainder by zero; a five-wide leaf gets a room one cell off the map |
| Dungeon.RoomsOfOnMap | src/dungeon.c:138-162 | Every leaf room of a tree on the map lies on the map |
| Dungeon.PaintRoomsEffect | src/dungeon.c:76-98 | Painting rooms gives floor or wall or leaves the cell, and leaves a cell no room touches unchanged |
| Dungeon.RecordedAndPaintedCompose | src/dungeon.c:153-160 | Recording and painting one batch of rooms and then another records and paints the two batches in order, up to the room table's capacity |
| Dungeon.PlacedRoomsCompose | src/dungeon.c:153-160 | Placing the left subtree's rooms and then the right's places the whole node's rooms |
| Dungeon.CreateRoomsInBSP | src/dungeon.c:138-162 | The leaf rooms, left to right, are recorded after the existing rooms and painted, and the count never exceeds MAX_ROOMS |
| Dungeon.CarveCell | src/dungeon.c:185-218 | A corridor leg makes its cells floor and only turns empty cells beside it into wall |
| Dungeon.CorridorEffect | src/dungeon.c:185-218 | A corridor yields floor on its legs, walls only on cells that were empty or wall, and leaves every other cell |
| Dungeon.ConnectRoomsAsWritten | src/dungeon.c:165-227 | Every map cell becomes ConnectCell of its old value with the legs as written |
| Dungeon.ConnectRooms | src/dungeon.c:165-227 | Every map cell becomes ConnectCell of its old value with the corrected legs |
| Dungeon.ConnectRoomsEffect | src/dungeon.c:165-227 | Only empty cells become wall; cells on the L-path become floor, or door at the two centres |
| Dungeon.CorridorConnects | src/dungeon.c:176-218 | Every cell on the segments from one centre to the corner and from the corner to the other centre is carved |
| Dungeon.CorridorAsWrittenStaysOnRow | src/dungeon.c:197-206 | With an even coin, every carved cell of the corridor as written lies on the first centre's row |
| Dungeon.ConnectRoomsAsWrittenMisses | src/dungeon.c:197-206 | Two rooms whose centres differ in both coordinates: the corridor as written leaves a cell of the path empty, the corrected one carves it |
| Content.GetEnemies | src/HexCrawlGame/Core/ContentData.cs:56-64 | The stored list for the biome, or the empty list when the biome is absent |
| Content.GetEvents | src/HexCrawlGame/Core/ContentData.cs:66-77 | The common events followed by the biome's events; exactly the common events for an absent biome |
| Content.ConvertEntriesSpec | src/HexCrawlGame/Core/ContentLoader.cs:81-117 | A biome is present iff some entry parses to it with a list, and then it holds the last such entry's list |
| Content.ConvertBiomes | src/HexCrawlGame/Core/ContentLoader.cs:81-117 | The conversion loop computes Converted; a null table gives the empty map |
| Content.EnsureLists | src/HexCrawlGame/Core/ContentLoader.cs:119-143 | Every biome maps to a list; a non-empty list is kept and a missing or empty one takes the default |
| Content.ChooseList | src/HexCrawlGame/Core/ContentLoader.cs:25-51 | The file's list when present and non-empty, else the default |
| Content.LoadBiomeLists | src/HexCrawlGame/Core/ContentLoader.cs:35-58 | Conversion then fill gives Filled of Converted |
| Content.Load | src/HexCrawlGame/Core/ContentLoader.cs:11-61 | Party and common events follow ChooseList, both biome maps are filled from the defaults, and with non-empty defaults every biome has enemies |
| PixelFont.Glyph | src/HexCrawlGame/Rendering/PixelFont.cs:15-60 | Every glyph in the table has seven rows, and the '?' fallback glyph is present |
| PixelFont.GlyphsWellFormed | src/HexCrawlGame/Rendering/PixelFont.cs:15-60 | The '?' glyph exists and every glyph has seven rows |
| PixelFont.GlyphFor | src/HexCrawlGame/Rendering/PixelFont.cs:123-126 | A character's own glyph, or the '?' glyph when it has none; always well formed |
| PixelFont.SplitLinesHaveNoNewline | src/HexCrawlGame/Rendering/PixelFont.cs:69-86 | No line holds a newline |
| PixelFont.JoinSplitLines | src/HexCrawlGame/Rendering/PixelFont.cs:69-86 | Joining the lines with newlines gives back the text |
| PixelFont.SplitLinesCount | src/HexCrawlGame/Rendering/PixelFont.cs:69-86 | The number of lines is the number of newlines plus one |
| PixelFont.Longest | src/HexCrawlGame/Rendering/PixelFont.cs:69-86 | The length of the longest line: no line is longer, one line attains it, 0 with no lines |
| PixelFont.CountLines | src/HexCrawlGame/Rendering/PixelFont.cs:69-86 | The loop counts newlines plus one lines and finds the longest line's length |
| PixelFont.MeasureString | src/HexCrawlGame/Rendering/PixelFont.cs:62-94 | (0, 0) for null or empty text; otherwise width (maxChars * 6 - 1) * scale when maxChars > 0, else 0, and height lines * 7 * scale + (lines - 1) * 2 * scale |
| PixelFont.MeasuredWidthPositive | src/HexCrawlGame/Rendering/PixelFont.cs:88-90 | The width term is positive exactly when the text has a character other than a newline |

## Left out

- Drawing, input, the camera and the main loops are not modelled. This covers `PixelFont.DrawString` and the pixel loop of `DrawChar`; only its glyph fallback is modelled.
- Floating-point geometry is not modelled. The float ratio test in `SplitNode` is written as the integer test 4w >= 5h. The rounded-up half of a guarded hit is written as (d + 1) / 2.
- File reading and JSON parsing are not modelled (`LoadJson`). `Load` takes the three parsed files as parameters.
- `TryParseBiome` is an abstract partial function parameter. `Enum.TryParse` also accepts numeric strings and can yield a `BiomeType` value outside the three names; the model cannot produce such a value.
- Randomness is replaced by explicit draws: initiative d20 rolls and tie-breakers, biome rolls, split, room, corridor and door draws, and the enemy coins.
- C integer overflow and 32-bit wrap-around are not modelled; all arithmetic is unbounded.
- Initiative.SortEntries: `List.Sort` is not stable. The model sorts stably, by insertion, so among entries equal on (roll, bonus, tie-breaker) it fixes an order the source leaves open.
- CombatEngine.CombatState.TrySelectUnit: the source compares unit objects by reference. The model compares roster indices; these agree because `GetUnitAt` returns the first living unit on a cell.
- The unused grid parameter of `EndCurrentTurn`, `AdvanceTurn`, `MaybeAutoEndTurn`, `TryMoveSelected`, `TryAttackSelected`, `TryAbilitySelected` and `TryGuardSelected` is dropped.
- Units are values in a sequence, not shared objects. Aliasing between a `CombatUnit` held elsewhere and the roster entry is not modelled.
- The same holds for `HexTile` objects and the dictionaries built by the loader: in-place dictionary updates are modelled as new map values.
- `EventDefinition`'s declaration is not part of this model; it is an abstract type.
- PixelFont.MeasureString: counts Unicode scalar values where the C# `foreach` walks UTF-16 code units, so a character outside the Basic Multilingual Plane adds one glyph to its line in the model and two in the source.
- PixelFont.CountLines: same difference. The text is a sequence of Unicode scalar values, not of UTF-16 code units, so lone surrogates cannot be expressed and a surrogate pair counts as one character.
- Glyph rows are 5-bit values rather than bytes. Every row literal in the glyph table has five binary digits, so no bit is lost.
- CombatEngine.CombatState.CreateDefault: the `Random` it stores is replaced by the d20 and tie-breaker draws it passes on.
- `ConnectRoomsInBSP`, `GenerateBSPDungeon`, `FreeBSPTree`, `CreateNode` and `PlaceEntities` are not modelled. They are random descent over the tree, allocation and freeing, and random placement by retrying.
- The message buffer (`sprintf`/`strcpy` text) is not modelled.
- HexGrid.HexMap.constructor: requires non-negative sizes, which the source assumes.
- Dungeon.CreateRoom: requires the room's interior to lie on the map; the source writes out of bounds otherwise.
- Dungeon.ConnectRooms and Dungeon.ConnectRoomsAsWritten require both room centres on the map; the source does not check them.
- Some source methods are split into helper methods: `CarveRow`, `CarveColumn` and `PlaceDoors` for `ConnectRooms`; `CreateLeafRoom` and `CreateSplitRooms` for `CreateRoomsInBSP`; `CountLines` for `MeasureString`; `LoadBiomeLists` for `Load`.
- Dungeon.CreateRoomsInBSP: uses the corrected `CreateRoomInNode`. The code as written is only modelled through `CreateRoomInNodeAsWritten`.
- `RogueTypes.GameMap`'s constructor stands for an uninitialised C struct: its tiles and rooms are arbitrary, and `InitializeMap` fills them.

## Findings

| source | as written | input that shows it | evidently intended | confidence | as-written member | corrected member |
|---|---|---|---|---|---|---|
| src/dungeon.c:107-108 | The room side is drawn with `rand() % (width - minRoomSize - 2)`, with no guard on that divisor | The first vertical cut of the 80 x 45 map with offset draw 2 leaves a 7-wide leaf, and 7 - 5 - 2 = 0 is a remainder by zero. A 5-wide leaf (offset draw 0) with an odd draw gets a 6-wide room, which the clamp puts at x = -1, off the map | A room inside the leaf, at least the minimum size the leaf allows | not executed | Dungeon.CreateRoomInNodeAsWrittenFails | Dungeon.CreateRoomInNode |
| src/dungeon.c:197-206 | The vertical leg runs y from y1 to cornerY; with the corner (x2, y1) that is a single cell | Rooms centred at (12, 12) and (32, 32) with an even coin: the cell (32, 20) on the path is never carved, so the corridor never reaches the second room | The vertical leg at cornerX spans y1..y2, so the L-path joins both centres | not executed | Dungeon.ConnectRoomsAsWrittenMisses | Dungeon.CorridorConnects |
