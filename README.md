# Battle of heroes: the game's algorithms, modelled in Dafny

The game puts two armies on a 27 × 21 battle field: the player's army and an
army that the computer generates. They fight tick by tick until one army has no
living unit. The core modelled here is four algorithms of the game's `programs`
package:

- **Path finding** (`UnitTargetPathFinderImpl`, module `PathFinder`). This is a
  breadth-first search from an attacking unit to its target. A unit moves like a
  chess king, one of eight moves, and may not enter a cell that holds another
  living unit. The search returns the route as a list of cells, or an empty list
  when no route exists. It works on `array2` maps, as the Java code does: the
  obstacle map, the visited map and the parent map. The queue is a `seq`. Proved:
  - the result is empty exactly when the target is unreachable;
  - otherwise it is a shortest route, starting at the attacker and ending at the
    target.
- **Attack targets** (`SuitableForAttackUnitsFinderImpl`, module
  `AttackTargets`). This filter keeps the living units of the attacked army that
  no living unit shields in the same row. A unit of the left army is shielded by
  a unit at a smaller x. A unit of the right army is shielded by one at a larger
  x. The occupancy map is an `array2<bool>`. Every loop is a method proved
  against a specification function. Proved: the result is exactly the exposed
  living units, in their original order.
- **Battle simulation** (`SimulateBattleImpl`, module `BattleLoop`).
  - Each tick fixes a turn order when it begins. The order is every living unit
    of both armies, by descending base attack, ties broken by name (the Java
    `String.compareTo` order).
  - Each unit on that list then attacks if it is still alive, while both armies
    still have living units.
  - The class `Battle` holds both armies and the battle log. Its methods are
    proved equal to the pure functions `TickRun` and `Run`.
  - Proved about those functions:
    - the turn order is a sorted permutation of the living units;
    - only living units attack, in turn order, each at most once a tick;
    - units only ever lose health;
    - a battle that finishes leaves one army without living units.
- **Army generation** (`GeneratePresetImpl`, module `ArmyGenerator`).
  - This is a greedy generator. For every unit type, in ranking order, it adds
    copies while the budget allows, at most eleven per type. Copy `n` is named
    "`type` `n`".
  - Every copy is placed at a distinct random cell of the computer's zone:
    columns 0–2, all 21 rows. The class `PositionGenerator` hands out these
    cells.
  - The greedy plan is the pure function `Roster`: the list of copies made, in
    order. The generator's two loops are methods proved to realize it.
  - Proved:
    - the army's points are the sum of its units' costs, within budget;
    - each type has at most eleven copies, numbered 1, 2, …;
    - positions are distinct and inside the zone;
    - generation fails exactly when the plan needs more than the zone's 63
      cells.

Two modules are shared by the others:

- `Grid`: the field size, the `Cell` coordinate (the library's `Edge`), the
  `Unit` record and `Option`/`Result`.
- `Seqs`: distinctness, reversal and subsequences.

The six files form one program; pass all six to `dafny verify`.

## Model

| member | source | states |
|---|---|---|
| Grid.InBounds | src/programs/UnitTargetPathFinderImpl.java:95-97 | `isValidPosition`: 0 <= x < 27 and 0 <= y < 21 |
| Grid.Alive | src/programs/SimulateBattleImpl.java:42 | `isAlive`, taken as positive health |
| Seqs.Reverse | src/programs/UnitTargetPathFinderImpl.java:108 | `Collections.reverse`: the same length, element i being element length - 1 - i of the input |
| Grid.AllCellsSpec | src/programs/UnitTargetPathFinderImpl.java:11-12 | a cell is on the field iff 0 <= x < 27 and 0 <= y < 21, and the field has 27 * 21 cells |
| PathFinder.Step | src/programs/UnitTargetPathFinderImpl.java:82-84 | the neighbour reached with the k-th movement offset |
| PathFinder.Adjacent | src/programs/UnitTargetPathFinderImpl.java:14-17 | two different cells at most one column and one row apart: a king's move |
| PathFinder.IsShortestRoute | src/programs/UnitTargetPathFinderImpl.java:19-26 | the promised result: a route of adjacent open cells from source to target, no longer than any other |
| PathFinder.ObstacleCells | src/programs/UnitTargetPathFinderImpl.java:38-52 | the cells of living units except the attacker's and the target's |
| PathFinder.StepsAreTheEightMoves | src/programs/UnitTargetPathFinderImpl.java:14-17 | the eight movement offsets are exactly the king's moves: b is adjacent to a iff b is a plus one of the offsets |
| PathFinder.StepsDistinct | src/programs/UnitTargetPathFinderImpl.java:14-17 | different offsets lead to different cells |
| PathFinder.CreateObstacleMap | src/programs/UnitTargetPathFinderImpl.java:38-52 | a cell is marked iff a living unit stands there and it is neither the attacker's nor the target's cell |
| PathFinder.Assign | src/programs/UnitTargetPathFinderImpl.java:86-89 | recording the newly found cells: each of them maps to the new value (its level in the visited map, the expanded cell in the parent map) and every other entry is unchanged |
| PathFinder.Discovered | src/programs/UnitTargetPathFinderImpl.java:82-92 | the cells one expansion finds are distinct, on the field, free, unvisited and adjacent to the current cell, and every such neighbour is found |
| PathFinder.DiscoveredAreFound | src/programs/UnitTargetPathFinderImpl.java:82-92 | every open, unvisited neighbour of the current cell is found by the expansion |
| PathFinder.ExploreNeighbors | src/programs/UnitTargetPathFinderImpl.java:80-93 | the queue grows by exactly the discovered cells in offset order; the visited and parent maps then mirror the grown level and parent maps |
| PathFinder.ReachWithin | src/programs/UnitTargetPathFinderImpl.java:63-71 | once every cell below a level has been expanded, every cell reachable within that many moves has been visited |
| PathFinder.ClosedSearchReach | src/programs/UnitTargetPathFinderImpl.java:63-73 | when the queue is exhausted, every cell reachable from the source has been visited |
| PathFinder.ExpandKeepsTree | src/programs/UnitTargetPathFinderImpl.java:86-90 | an expansion keeps the parent map a tree of adjacent open cells whose levels rise by one |
| PathFinder.ExpandKeepsLevels | src/programs/UnitTargetPathFinderImpl.java:63-71 | an expansion keeps every visited cell's level at most the number of moves of any route to it from the source |
| PathFinder.ExpandKeepsFrontier | src/programs/UnitTargetPathFinderImpl.java:63-71 | the queue stays ordered by level and spans at most two consecutive levels |
| PathFinder.ExpandKeepsExpanded | src/programs/UnitTargetPathFinderImpl.java:63-71 | every neighbour of a visited cell that has left the queue has been visited |
| PathFinder.ExpandStep | src/programs/UnitTargetPathFinderImpl.java:63-71 | one step of the search loop preserves the whole search invariant |
| PathFinder.GrowCount | src/programs/UnitTargetPathFinderImpl.java:86-87 | the visited set never exceeds the field and grows whenever a cell is found, which bounds the search |
| PathFinder.FoundCellsBound | src/programs/UnitTargetPathFinderImpl.java:57 | at most 27 * 21 cells can be visited |
| PathFinder.LevelRouteIsShortest | src/programs/UnitTargetPathFinderImpl.java:73-74 | a route as long as the target's level is a shortest route |
| PathFinder.Enqueued | src/programs/UnitTargetPathFinderImpl.java:60-90 | the queue bookkeeping: the cells ever enqueued are distinct and are exactly the visited cells, and the polled ones plus the queue number them all |
| PathFinder.EnqueuedPoll | src/programs/UnitTargetPathFinderImpl.java:64 | polling moves the queue's head to the polled cells |
| PathFinder.EnqueuedGrow | src/programs/UnitTargetPathFinderImpl.java:86-90 | the newly discovered cells are enqueued for the first time, so no cell enters the queue twice |
| PathFinder.EnqueuedBound | src/programs/UnitTargetPathFinderImpl.java:57-63 | no more polls than enqueued cells, and no more enqueued cells than the 27 * 21 field cells |
| PathFinder.Search | src/programs/UnitTargetPathFinderImpl.java:56-71 | the search loop ends with the visited and parent maps mirroring the found cells, their levels no longer than any route and their parents a tree; if the destination was not found, every found cell has been expanded; the cells ever enqueued are exactly the found cells, each enqueued once, and at most 27 * 21 polls were made |
| PathFinder.FindRoute | src/programs/UnitTargetPathFinderImpl.java:54-78 | the route is empty iff the target is unreachable; otherwise it is a shortest route from source to destination; every cell ever enqueued is reachable from the source, each is enqueued at most once, and the loop polls at most 27 * 21 times (the last two from `PathFinder.Search`) |
| PathFinder.Lineage | src/programs/UnitTargetPathFinderImpl.java:103-106 | following the parents from a visited cell gives dist + 1 cells, starting at that cell |
| PathFinder.LineageIsChain | src/programs/UnitTargetPathFinderImpl.java:103-106 | the parent chain ends at the source and each cell is adjacent to the next |
| PathFinder.LineageRoute | src/programs/UnitTargetPathFinderImpl.java:103-108 | the reversed parent chain is a route from the source to the cell |
| PathFinder.FoundReachable | src/programs/UnitTargetPathFinderImpl.java:86-90 | every cell the search has found is reachable from the source, since its parent chain reversed is a route |
| PathFinder.BackChainReversed | src/programs/UnitTargetPathFinderImpl.java:108 | reversing a back-linked chain gives a forward route |
| PathFinder.ReconstructPath | src/programs/UnitTargetPathFinderImpl.java:99-110 | the reconstructed path is a route from the source to the destination with the destination's level + 1 cells |
| PathFinder.StandingOnTarget | src/programs/UnitTargetPathFinderImpl.java:66-74 | when source and target share a cell, the only shortest route is that single cell |
| PathFinder.GetTargetPath | src/programs/UnitTargetPathFinderImpl.java:28-36 | the path is empty iff the target cannot be reached avoiding other living units; otherwise it is a shortest such route from the attacker to the target; when the attacker stands on the target's cell it is that single cell |
| AttackTargets.LivingInRow | src/programs/SuitableForAttackUnitsFinderImpl.java:56-60 | the present, living entries of a row, in row order |
| AttackTargets.ActiveUnits | src/programs/SuitableForAttackUnitsFinderImpl.java:49-64 | the living units of the present rows, row after row |
| AttackTargets.OccupiedCells | src/programs/SuitableForAttackUnitsFinderImpl.java:30-47 | the cells of the active units |
| AttackTargets.Exposed | src/programs/SuitableForAttackUnitsFinderImpl.java:79-98 | no occupied cell of the unit's row at a smaller x (left army) or a larger x (right army) |
| AttackTargets.Accessible | src/programs/SuitableForAttackUnitsFinderImpl.java:66-77 | the exposed units of a list, in list order |
| AttackTargets.SuitableUnits | src/programs/SuitableForAttackUnitsFinderImpl.java:23-28 | the exposed active units of the rows |
| AttackTargets.LivingInRowSpec | src/programs/SuitableForAttackUnitsFinderImpl.java:56-60 | a unit is collected from a row iff it is a present, living entry of the row |
| AttackTargets.ActiveUnitsSpec | src/programs/SuitableForAttackUnitsFinderImpl.java:49-64 | a unit is active iff it is a living unit in some present row |
| AttackTargets.OccupiedCellsSpec | src/programs/SuitableForAttackUnitsFinderImpl.java:30-47 | a cell is occupied iff some living unit of a present row stands on it |
| AttackTargets.AccessibleSpec | src/programs/SuitableForAttackUnitsFinderImpl.java:66-77 | the filter keeps a subsequence of its input, and a unit is kept iff it is in the input and exposed |
| AttackTargets.SuitableUnitsSpec | src/programs/SuitableForAttackUnitsFinderImpl.java:23-28 | the result is an ordered subsequence of the active units; a unit is in it iff it is active and no occupied cell lies between it and its army's outer edge in its row; every such unit is alive |
| AttackTargets.EdgeUnitsSuitable | src/programs/SuitableForAttackUnitsFinderImpl.java:83-95 | a living unit on its army's outer column (x = 0 for the left army, x = 26 for the right) is always suitable |
| AttackTargets.CellsAppend | src/programs/SuitableForAttackUnitsFinderImpl.java:37-43 | helper of the BuildOccupiedPositionsMap loop: the cells of two unit lists together are the union of their cells |
| AttackTargets.ActiveUnitsStep | src/programs/SuitableForAttackUnitsFinderImpl.java:52-61 | reading one more row appends that row's living units |
| AttackTargets.LivingInRowStep | src/programs/SuitableForAttackUnitsFinderImpl.java:56-60 | reading one more row entry appends it iff it is present and alive |
| AttackTargets.BuildOccupiedPositionsMap | src/programs/SuitableForAttackUnitsFinderImpl.java:30-47 | the map is field sized and marks a cell iff a living unit stands there |
| AttackTargets.ExtractActiveUnits | src/programs/SuitableForAttackUnitsFinderImpl.java:49-64 | the result is the living units of the present rows, in row order |
| AttackTargets.CanBeAttacked | src/programs/SuitableForAttackUnitsFinderImpl.java:79-98 | true iff no cell of the unit's row is marked at a smaller x (left army) or a larger x (right army) |
| AttackTargets.FilterAccessibleUnits | src/programs/SuitableForAttackUnitsFinderImpl.java:66-77 | the result is the exposed units of the input, in input order |
| AttackTargets.GetSuitableUnits | src/programs/SuitableForAttackUnitsFinderImpl.java:22-28 | the result is the suitable units of the rows |
| BattleLoop.LivingActors | src/programs/SimulateBattleImpl.java:52 | the living units of an army, with their army and index, in list order |
| BattleLoop.NameLeq | src/programs/SimulateBattleImpl.java:34 | `String.compareTo` order: after the common prefix the first name ends or has the smaller character |
| BattleLoop.TurnBefore | src/programs/SimulateBattleImpl.java:32-35 | the comparator: higher base attack first, then the smaller name |
| BattleLoop.InsertTurn | src/programs/SimulateBattleImpl.java:32-35 | inserts a unit ahead of the first unit it may precede |
| BattleLoop.SortTurns | src/programs/SimulateBattleImpl.java:32-35 | the list sort with the comparator, a stable insertion sort |
| BattleLoop.OrderedLiving | src/programs/SimulateBattleImpl.java:51-59 | `getOrderedLivingUnits`: an army's living units, sorted |
| BattleLoop.TurnOrder | src/programs/SimulateBattleImpl.java:27-35 | a tick's order: the left army's ordered living units, then the right army's, sorted together |
| BattleLoop.TickRun | src/programs/SimulateBattleImpl.java:27-47 | one pass of the `while` body: the turn order is fixed when the tick begins, then followed from its first entry |
| BattleLoop.AnyAlive | src/programs/SimulateBattleImpl.java:71 | true iff some unit of the list is alive |
| BattleLoop.LivingActorsSpec | src/programs/SimulateBattleImpl.java:52 | the living-units filter keeps exactly the living units, each once, in list order |
| BattleLoop.CommonPrefix | src/programs/SimulateBattleImpl.java:34 | the longest common prefix of two names: both agree up to it, and after it one ends or they differ |
| BattleLoop.NameLeqTotal | src/programs/SimulateBattleImpl.java:34 | any two names are comparable in the compareTo order |
| BattleLoop.NameLeqTransitive | src/programs/SimulateBattleImpl.java:34 | the name order is transitive |
| BattleLoop.NameLeqAntisymmetric | src/programs/SimulateBattleImpl.java:34 | names that are each no greater than the other are equal |
| BattleLoop.TurnBeforeOrder | src/programs/SimulateBattleImpl.java:32-35 | the comparator (descending attack, then name) is a total preorder that ties only units of equal attack and name |
| BattleLoop.InsertTurnPermutes | src/programs/SimulateBattleImpl.java:32-35 | an insertion adds the element and loses none |
| BattleLoop.InsertTurnSorted | src/programs/SimulateBattleImpl.java:32-35 | inserting into a sorted list keeps it sorted |
| BattleLoop.InsertTurnDistinct | src/programs/SimulateBattleImpl.java:32-35 | inserting a new element keeps the list free of duplicates |
| BattleLoop.SortTurnsPermutes | src/programs/SimulateBattleImpl.java:32-35 | the sort is a permutation |
| BattleLoop.SortTurnsSorted | src/programs/SimulateBattleImpl.java:32-35 | the sorted list is ordered by the comparator |
| BattleLoop.SortTurnsDistinct | src/programs/SimulateBattleImpl.java:32-35 | sorting keeps a list free of duplicates |
| BattleLoop.SortTurnsSpec | src/programs/SimulateBattleImpl.java:32-35 | the sort yields a sorted permutation, without duplicates when its input has none |
| BattleLoop.OrderedLivingSpec | src/programs/SimulateBattleImpl.java:51-59 | one army's ordered living units are exactly its living units, each once, sorted by the comparator |
| BattleLoop.TurnOrderSpec | src/programs/SimulateBattleImpl.java:27-35 | a tick's turn order holds exactly the living units of both armies, each once, sorted by the comparator |
| BattleLoop.WeakenedTransitive | src/programs/SimulateBattleImpl.java:37-47 | health losses compose: weakened twice is weakened |
| BattleLoop.WeakenedStaysDefeated | src/programs/SimulateBattleImpl.java:26-38 | an army without living units stays without once its units only lose health |
| BattleLoop.Wound | src/programs/SimulateBattleImpl.java:62 | the target loses exactly the damage and every other unit is unchanged; a reference to no unit hurts nobody |
| BattleLoop.Strike | src/programs/SimulateBattleImpl.java:61-67 | an attack counts one call, only wounds, and adds a log line iff a target was returned |
| BattleLoop.TickFrom | src/programs/SimulateBattleImpl.java:37-47 | the rest of a tick from entry i of the turn order, checking both armies before each entry, skipping dead units and ending at an interruption |
| BattleLoop.TickSkips | src/programs/SimulateBattleImpl.java:42-44 | a dead unit in the order is skipped |
| BattleLoop.TickAttacks | src/programs/SimulateBattleImpl.java:46 | a living unit attacks, and the tick continues on the struck arena |
| BattleLoop.TickInterrupted | src/programs/SimulateBattleImpl.java:46 | an interrupted attack ends the tick with that attempt last |
| BattleLoop.AfterStep | src/programs/SimulateBattleImpl.java:37-47 | helper of the Tick loop invariant: moving one attempt from the remaining tick to the attempts already made leaves the whole tick unchanged |
| BattleLoop.AfterNothing | src/programs/SimulateBattleImpl.java:37 | helper of the Tick loop invariant: the invariant holds on entry, with no attempts made |
| BattleLoop.Attackers | src/programs/SimulateBattleImpl.java:46 | the attackers are the attempts' units, in order |
| BattleLoop.TickFromGuarded | src/programs/SimulateBattleImpl.java:38-46 | every attack of a tick is made while both armies have a living unit, by a unit alive at that moment |
| BattleLoop.TickFromFollowsOrder | src/programs/SimulateBattleImpl.java:37 | the attackers of a tick are a subsequence of the turn order: they act in that order, each at most once |
| BattleLoop.TickFromWeakens | src/programs/SimulateBattleImpl.java:37-47 | in a tick units only lose health, the log only grows, and it gains at most one line per attack |
| BattleLoop.TickRunSpec | src/programs/SimulateBattleImpl.java:27-47 | in a whole tick each unit attacks at most once, every attacker is a living unit of the armies as the tick began, and units only lose health |
| BattleLoop.TickWeakens | src/programs/SimulateBattleImpl.java:27-47 | a tick only lowers health |
| BattleLoop.Run | src/programs/SimulateBattleImpl.java:22-49 | a battle that finishes leaves an army without living units |
| BattleLoop.RunWeakens | src/programs/SimulateBattleImpl.java:22-49 | however the battle ends, units have only lost health |
| BattleLoop.RunTicks | src/programs/SimulateBattleImpl.java:26-48 | an interrupted tick ends the battle; a completed one leaves the rest of the battle to the next ticks |
| BattleLoop.DefeatIsFinal | src/programs/SimulateBattleImpl.java:26 | once an army has no living unit the battle is over and a further tick cannot revive it |
| BattleLoop.Battle.constructor | src/programs/SimulateBattleImpl.java:23-24 | the battle starts from the two armies with an empty log |
| BattleLoop.Battle.BothArmiesContainLivingUnits | src/programs/SimulateBattleImpl.java:70-72 | true iff both armies contain a living unit |
| BattleLoop.Battle.PerformAttack | src/programs/SimulateBattleImpl.java:61-68 | an interruption is passed on and changes nothing; otherwise the attack is applied and the result says whether a target was returned |
| BattleLoop.Battle.Tick | src/programs/SimulateBattleImpl.java:27-47 | the new state, the way the tick ended and its attempts are exactly TickRun of the old state |
| BattleLoop.Battle.Simulate | src/programs/SimulateBattleImpl.java:22-49 | state and outcome are Run of the old state; when finished, some army has no living unit |
| ArmyGenerator.MakeUnit | src/programs/GeneratePresetImpl.java:35-46 | the new unit: named type, a space and the copy number, with the template's type, health, attack, cost, attack type and bonus tables, at the drawn cell |
| ArmyGenerator.TotalCost | src/programs/GeneratePresetImpl.java:49 | the sum of the units' costs |
| ArmyGenerator.Cost | src/programs/GeneratePresetImpl.java:49 | the sum of the planned copies' costs |
| ArmyGenerator.Block | src/programs/GeneratePresetImpl.java:30-50 | the copies the inner loop makes of one type: one more while the cost fits the budget and fewer than eleven were made |
| ArmyGenerator.Spent | src/programs/GeneratePresetImpl.java:30-50 | the army's cost once the inner loop ends |
| ArmyGenerator.Rest | src/programs/GeneratePresetImpl.java:29-51 | the copies the outer loop makes from one ranked type on, each type starting from the cost the previous ones reached |
| ArmyGenerator.Roster | src/programs/GeneratePresetImpl.java:22-51 | the greedy plan: every copy `generate` makes, in order, starting from cost 0 |
| ArmyGenerator.NatToString | src/programs/GeneratePresetImpl.java:36 | the decimal numeral is non-empty, with two or more digits from 10 on |
| ArmyGenerator.DigitInjective | src/programs/GeneratePresetImpl.java:36 | different digits are different characters |
| ArmyGenerator.NatToStringInjective | src/programs/GeneratePresetImpl.java:36 | different numbers have different numerals |
| ArmyGenerator.CopyNamesDistinct | src/programs/GeneratePresetImpl.java:36 | the copies of one unit type get pairwise different names |
| ArmyGenerator.TotalCostAppend | src/programs/GeneratePresetImpl.java:49 | the cost of a concatenation is the sum of the costs |
| ArmyGenerator.CostAppend | src/programs/GeneratePresetImpl.java:49 | the planned cost of a concatenation is the sum of the planned costs |
| ArmyGenerator.ConcatWithinBudget | src/programs/GeneratePresetImpl.java:30 | two plans that each stay within budget from their starting cost stay within it together |
| ArmyGenerator.RealizedCost | src/programs/GeneratePresetImpl.java:40-49 | units realizing a plan cost what the plan costs |
| ArmyGenerator.BlockStep | src/programs/GeneratePresetImpl.java:30-49 | when the guard holds, the next copy is numbered added + 1 and the army then costs one more unit cost |
| ArmyGenerator.BlockDone | src/programs/GeneratePresetImpl.java:30 | when the guard fails, no more copies of the type are made |
| ArmyGenerator.RestStep | src/programs/GeneratePresetImpl.java:29 | the types are taken in ranking order, each starting from the cost the previous ones reached |
| ArmyGenerator.BlockCopies | src/programs/GeneratePresetImpl.java:30-36 | a type's copies are numbered added + 1, added + 2, … and number at most eleven |
| ArmyGenerator.BlockWithinBudget | src/programs/GeneratePresetImpl.java:30-49 | the cost reached is the start plus the copies' cost, and each copy was added within budget |
| ArmyGenerator.BlockStops | src/programs/GeneratePresetImpl.java:30 | a type stops at eleven copies or when one more would exceed the budget |
| ArmyGenerator.RestWithinBudget | src/programs/GeneratePresetImpl.java:29-51 | every copy of the remaining types is added within budget |
| ArmyGenerator.RosterWithinBudget | src/programs/GeneratePresetImpl.java:30-49 | every prefix of the greedy plan costs at most maxPoints, so each copy is added within budget |
| ArmyGenerator.BlockMembers | src/programs/GeneratePresetImpl.java:30-36 | every copy of a type is of that type, numbered 1 to 11 |
| ArmyGenerator.RestCopies | src/programs/GeneratePresetImpl.java:29-36 | every planned copy is of a ranked type, numbered 1 to 11 |
| ArmyGenerator.ZoneOrder | src/programs/GeneratePresetImpl.java:85-89 | definition: the pool's initial order, column by column and row by row within a column, as the nested loops fill it |
| ArmyGenerator.ZoneOrderSpec | src/programs/GeneratePresetImpl.java:85-89 | the initial pool holds each cell of the zone exactly once and nothing else |
| ArmyGenerator.TakeOut | src/programs/GeneratePresetImpl.java:101 | moving one available cell to the issued ones keeps the cells distinct and the same set |
| ArmyGenerator.PositionGenerator.constructor | src/programs/GeneratePresetImpl.java:82-90 | the pool is the 63 zone cells, column by column, and nothing has been issued |
| ArmyGenerator.PositionGenerator.GetNextPosition | src/programs/GeneratePresetImpl.java:96-102 | fails iff the pool is empty; otherwise it removes some available cell and returns it, a zone cell never issued before |
| ArmyGenerator.IssuedInZone | src/programs/GeneratePresetImpl.java:96-102 | the issued cells of a valid pool are distinct cells of the zone |
| ArmyGenerator.RealizesAppend | src/programs/GeneratePresetImpl.java:48 | helper of the PlaceCopies and PlaceRoster loops: units realizing two plans, concatenated, realize the concatenated plan |
| ArmyGenerator.StandOnAppend | src/programs/GeneratePresetImpl.java:31-45 | helper of the PlaceCopies loop: units standing on two cell lists, concatenated, stand on the concatenated list |
| ArmyGenerator.PlaceStep | src/programs/GeneratePresetImpl.java:30-50 | one inner-loop step adds the planned next copy and keeps the inner-loop invariant |
| ArmyGenerator.PlaceDue | src/programs/GeneratePresetImpl.java:30-31 | while the guard holds, the type's plan has a copy not yet placed |
| ArmyGenerator.PlaceDone | src/programs/GeneratePresetImpl.java:30 | when the guard fails, the type's copies are all placed |
| ArmyGenerator.PlaceCopies | src/programs/GeneratePresetImpl.java:30-51 | fails iff the type's copies need more cells than are available; otherwise it places exactly the planned copies on the cells it drew |
| ArmyGenerator.BuiltStep | src/programs/GeneratePresetImpl.java:29-51 | one outer-loop step keeps the outer-loop invariant |
| ArmyGenerator.BuiltOverflows | src/programs/GeneratePresetImpl.java:97-98 | running out of cells midway means the whole plan needs more than 63 cells |
| ArmyGenerator.BuiltDone | src/programs/GeneratePresetImpl.java:29-54 | after the last type the army realizes the whole plan, costs what it costs, and stands on the issued cells |
| ArmyGenerator.ArmyInZone | src/programs/GeneratePresetImpl.java:96-102 | units standing on issued cells have pairwise distinct positions inside the zone |
| ArmyGenerator.PlaceRoster | src/programs/GeneratePresetImpl.java:29-51 | fails iff the plan needs more than 63 cells; otherwise the units realize the plan, cost its sum and stand on the issued cells |
| ArmyGenerator.Generate | src/programs/GeneratePresetImpl.java:22-56 | fails iff the plan needs more than 63 cells; otherwise the army realizes the greedy plan, its points are its cost, within budget when non-empty, and positions are distinct zone cells |

## Left out

- **The attack program.** A unit's attack program (`getProgram().attack()`),
  the battle log printer and the library classes `Unit`, `Army` and `Edge` are
  not part of this model. The attack program is a function parameter: it sees
  the arena and the attacker, and returns a target with damage, or an
  interruption. Damage only lowers the target's health. The library's `isAlive`
  is taken to mean health > 0.
- **The battle log.** The log is a sequence of hit events instead of printed
  output.
- **Interruption.** `InterruptedException` becomes the outcome
  `InterruptedBattle` of `Simulate` and the `Failure` result of
  `PerformAttack`. An interrupted attack (`AttackOutcome.Interrupted`,
  `Battle.PerformAttack`) leaves the arena unchanged. This is a choice of the
  model: a Java `attack()` could change health before it throws. Damage done
  by earlier attacks of the same tick is kept, as in the Java loop.
- BattleLoop.Battle.Simulate: it runs for at most `maxTicks` ticks, and the
  outcome `OutOfTicks` stands for the bound being reached. The Java loop has no
  bound. With an attack program that never kills, it does not terminate.
- **Ordering by name.** `String.compareTo` is modelled as lexicographic order on
  characters, which compares UTF-16 code units in Java and characters here.
- **Sort stability.** The comparator ties two units with equal base attack and
  equal name. Such units can be different units, for example a unit of each
  army named "Archer 1": names are numbered per army. `SortTurns` is a stable
  insertion sort, so tied units keep their list order, with the left army
  first. That is the order Java's stable `List.sort` gives. The proofs state
  that the result is a sorted permutation. No lemma states the stability
  itself: which of two tied units acts first.
- **The ranking of unit types.** `getRangedUnitTypes` (GeneratePresetImpl.java
  lines 59-72) sorts by floating-point ratios. It is replaced by the parameter
  `ranked` of `Generate`, whose `requires` says only that it is a permutation of
  the unit list. Floating point is not modelled.
- **Randomness.** The random index of `getNextPosition` becomes a
  nondeterministic choice (`:|`). The contracts hold for every choice.
- **Exceptions.** The `IllegalStateException` of an empty pool becomes a
  `Failure` result, which `Generate` passes on.
- **32-bit arithmetic.** Costs, points, coordinates and health are unbounded
  integers. The model ignores Java's 32-bit overflow, which needs sums far
  beyond any game budget.
- **Index checks.** `CreateObstacleMap`, `BuildOccupiedPositionsMap` and
  `GetTargetPath` require that the units they index with stand on the field.
  On other inputs the Java code throws `ArrayIndexOutOfBoundsException`, and
  that exception is not modelled.
- AttackTargets.CanBeAttacked: it requires the unit to stand on the field, which
  is more than `canBeAttacked` needs. The Java method indexes nothing for a
  left-army unit at x = 0 or a right-army unit at x >= 26, whatever its y
  (SuitableForAttackUnitsFinderImpl.java lines 84 and 90). At its only call
  site the requirement holds anyway: `buildOccupiedPositionsMap` has already
  indexed the map with every unit, and thrown on one off the field. The same
  holds for AttackTargets.FilterAccessibleUnits.
- **Null entries.** In the attack-target filter, a missing row or a missing
  unit (`null` in Java) is an `Option`.
- **Null units elsewhere.** The unit lists of the path finder and of the battle
  simulation are taken to hold no `null`: the Java code calls `isAlive()` on
  each element (UnitTargetPathFinderImpl.java lines 41-42,
  SimulateBattleImpl.java lines 52 and 71) and would throw
  `NullPointerException` on one. A `seq<Unit>` has no null element.
- ArmyGenerator.CopyNamesDistinct: it proves that the names of one type's copies
  differ. Two entries of the unit list with the same type name produce equal
  names, as in the Java code.
- ArmyGenerator.PlaceCopies: this method is the inner `for` loop of `generate`,
  and ArmyGenerator.PlaceRoster is the outer loop. The model splits the one
  Java method in three.
- PathFinder.FindRoute: the proofs state what routes the search returns. They do
  not state which of several shortest routes it picks. That choice depends on
  the order of the movement offsets.
