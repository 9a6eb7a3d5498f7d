# Battlesnake rule engine, modelled in Dafny

This project models the game-rule core of a Battlesnake bot. Snakes move on a
rectangular board that also holds food and hazard cells. The model covers the
direction enumeration, coordinate arithmetic, a list-based board with a
one-turn move simulator and a base score, and an alternative board kept as a
flat integer array. The source files are snapshots from different Go packages.
Each one is its own Dafny module:

- `Directions` (direction.dfy): the `Direction` values, the `directions` array and `String`.
- `Coords` (coord.dfy): the `Coord` value with `AddDir` and Manhattan `Dist`. The class `CoordRef` is
  a `*Coord` whose fields `Add` and `AddDir` write, with receiver and argument allowed to be the same.
- `Snapshot` (snapshot.dfy): the `Battlesnake`, board and `GameState` records the core reads.
- `SnakeGrid` (grid.dfy): the grid of grid.go. It has occupancy and distance queries, `moveSnake`,
  `simulate`, `evalBase` and the cutoff of `eval`. The turn rules are stated over plain values
  (`Moved`, `MoveAll`, `Dies`, `Resolve`), so a contract can relate the state before and after a turn.
- `CellBoard` (board.dfy): the grid of board.go. It is an `array<int>` indexed by `X + Y * sizeX`.
- `Options` (options.dfy): `Option`, used where the source returns +Inf for "no such entity".

Behaviour of the code that the model keeps as written:

- `Length` is a field of the snake that the simulator never updates. It is not `|Body|`.
- Food is not consumed. Two snakes that reach the same food cell both grow.
- A head-to-head collision is judged only against lower-indexed snakes, dead ones included (see Findings).
- `headMinDist` counts dead snakes too.
- `Get` reports dead snakes' segments as occupied.
- `isPosDeadly` ignores heads and dead snakes.

## Model

| member | source | states |
|---|---|---|
| `Directions.String` | direction.go:15-28 | the four cardinal directions map to "up", "right", "down", "left" in `Names` order; any other value maps to "up" |
| `Directions.DirectionValues` | direction.go:5-11 | Up, Right, Down, Left, DirNull are 0, 1, 2, 3, 4; DirNull is not cardinal |
| `Directions.DirectionsArray` | direction.go:13 | `directions` has exactly four entries, Up, Right, Down, Left in that order; they are pairwise distinct and every cardinal direction is among them |
| `Directions.StringInjective` | direction.go:15-25 | distinct cardinal directions have distinct names |
| `Directions.StringFallback` | direction.go:27 | a non-cardinal value, DirNull included, gets the name of Up |
| `Coords.Coord.AddDir` | coord.go:16-29 | a cardinal direction moves one unit from `a`: Up y+1, Right x+1, Down y-1, Left x-1; any other value leaves the receiver as it was, not set to `a` |
| `Coords.Coord.Dist` | coord.go:31-33 | the distance is non-negative and zero exactly when the two coordinates are equal |
| `Coords.DistSymmetric` | coord.go:31-33 | `Dist` is symmetric |
| `Coords.DistTriangle` | coord.go:31-33 | `Dist` satisfies the triangle inequality |
| `Coords.UnitNeighbour` | coord.go:16-33 | a cardinal step lands at distance exactly 1 from its origin |
| `Coords.OppositeStepsCancel` | coord.go:16-26 | Up then Down, Down then Up, Left then Right and Right then Left return to the start |
| `Coords.CoordRef.constructor` | grid.go:135 | `Copy`: a fresh pointer holding the given coordinate |
| `Coords.CoordRef.Add` | coord.go:10-14 | the receiver becomes the componentwise sum of the old values of `a` and `b`, even when the receiver is `a` or `b` |
| `Coords.CoordRef.AddDir` | coord.go:16-29 | the receiver's new value is the `AddDir` of its old value and `a`'s old value, with aliasing allowed |
| `SnakeGrid.WalkLine` | grid.go:143-145 | k probe steps in a cardinal direction move k cells along that axis; a non-cardinal direction never moves the probe |
| `SnakeGrid.Moved` | grid.go:226-247 | a dead snake is unchanged. For a live one the head takes one `AddDir` step and `Body[0]` is the new head. `Body[k]` is old `Body[k-1]`. Health drops by 1, or becomes 100 on food. On food the body grows by exactly one copy of its last segment, otherwise its length is unchanged. Id, Length and Dead are unchanged |
| `SnakeGrid.HeadsAndDeadAreHarmless` | grid.go:104-117 | an in-bounds cell whose only segments are heads or parts of dead snakes is not deadly |
| `SnakeGrid.MoveAll` | grid.go:189-191 | every snake keeps its Id, Length and Dead flag. A snake without a direction, or a dead one, is unchanged. A live snake with a direction steps its head and has the new head as `Body[0]` |
| `SnakeGrid.Resolve` | grid.go:193-223 | the resolved list differs from the moved one only in the Dead flags. A snake's flag is set exactly when it was already set or the snake dies by the rules as written: health at most 0, a deadly head cell, or a lower-indexed head on the same cell with Length at least its own |
| `SnakeGrid.SafeTail` | grid.go:235-246 | a snake that did not eat vacates its old tail cell unless an earlier segment of it or its new head is there |
| `SnakeGrid.SafeTailNotDeadly` | grid.go:100-122 | when a snake with a unique tail moves without eating and without its head landing on that tail, and no other live snake has a non-head segment on the tail cell, that cell is not deadly after the move if it lies on the board |
| `SnakeGrid.HeadOnAsWritten` | grid.go:209-218 | as written, of two equal-length snakes whose heads meet only the later one dies. A shorter earlier snake and a longer later one both survive. Swapping the two changes who dies |
| `SnakeGrid.CorpseHeadAsWritten` | grid.go:209-218 | as written, a live snake whose head reaches the head cell of a dead snake of equal Length dies; under the intended rule it survives |
| `SnakeGrid.ResolveIntended` | grid.go:193-223 | the corrected resolution differs from its input only in the Dead flags. A flag is set exactly when it was already set, or health is at most 0, or the head cell is deadly, or some other live snake has its head on the same cell with Length at least this snake's |
| `SnakeGrid.HeadOnIntended` | grid.go:209-218 | with every other live snake compared, a snake whose head meets a live snake at least as long dies, and two live snakes of equal length both die |
| `SnakeGrid.HeadOnSurvivor` | grid.go:209-218 | under the intended rule, which skips dead snakes as grid.go:105-107 does, a snake that shares its head cell only with dead snakes or strictly shorter live ones dies exactly when it was dead, has health at most 0 or has a deadly head cell |
| `SnakeGrid.ResolveIntendedPermutes` | grid.go:188-223 | with every other snake compared, death resolution does not depend on the order of the snakes: resolving a permuted list gives the permuted result |
| `SnakeGrid.DeadCount` | grid.go:327-329 | the count is the number of indices whose snake is dead |
| `SnakeGrid.KillRaisesScore` | grid.go:319-336 | killing another living snake raises the controlled snake's base score by exactly 1000 plus the victim's Length |
| `SnakeGrid.LastIndexOf` | grid.go:40-44 | the result is the last index whose snake has the given identity; with no such snake it is the default |
| `SnakeGrid.Grid.constructor` | grid.go:12-20 | the zero-valued grid |
| `SnakeGrid.Grid.SetupFromState` | grid.go:31-47 | size, hazards and food are copied. Every snake is copied with Dead false. `you` is the last index whose Id matches `state.You`, and keeps its old value when none does |
| `SnakeGrid.Grid.Get` | grid.go:78-98 | off the board the result is OutOfBounds, whatever lies there. On the board it is Player+i for the lowest-index snake i, dead or alive, with a segment there. Otherwise it is Hazard on a hazard and Empty elsewhere; Empty exactly on free in-bounds cells |
| `SnakeGrid.Grid.IsPosDeadly` | grid.go:100-122 | true off the board; otherwise true iff a non-dead snake has a segment at index 1 or more on the cell |
| `SnakeGrid.Grid.IsFoodAt` | grid.go:124-132 | true iff the cell is in the food list |
| `SnakeGrid.Grid.Raycast` | grid.go:134-147 | for a cardinal direction, or for any direction from a start cell that is not Empty, the result is the number of consecutive Empty cells stepping from `pos`, and the cell after them is not Empty. It is 0 exactly when `pos` is not Empty, and at most the board's extent along the direction's axis |
| `SnakeGrid.Grid.HeadMinDist` | grid.go:149-166 | absent exactly when no snake other than `ignorePlayer` exists, and then the index is 0. Otherwise the result is the least head distance over the other snakes, dead ones included. The index is the first one attaining it |
| `SnakeGrid.Grid.FoodMinDist` | grid.go:168-180 | absent exactly when there is no food; otherwise the least distance from `pos` to a food cell, attained by some food |
| `SnakeGrid.Grid.MoveSnake` | grid.go:226-247 | the snake at the index becomes `Moved` of its old value after the in-place backward shift. No other snake and no other field changes |
| `SnakeGrid.Grid.Simulate` | grid.go:188-224 | first every snake with a direction moves. Then each snake gets `Dead` set when its health is at most 0, or its head is deadly, or a lower-indexed head is on the same cell with Length at least its own. All checks run on the moved snakes with the pre-turn flags. Only flags change |
| `SnakeGrid.Grid.CollectDeaths` | grid.go:193-219 | the collected list holds exactly the indices of the snakes that die by those rules, judged on the current flags |
| `SnakeGrid.Grid.EvalBase` | grid.go:319-336 | -10000 when `you` is dead. Otherwise Health plus 1000 per dead snake, plus `you`'s Length, minus the Lengths of the other living snakes |
| `SnakeGrid.Grid.Eval` | grid.go:249-256 | a dead controlled snake, or any base score below -1000, gives (-10000, Left). Otherwise depth 0 gives (base score, Left). Any other depth is the unmodelled search |
| `CellBoard.IndexInRange` | board.go:31 | an in-bounds coordinate's index X+Y·sizeX lies in [0, sizeX·sizeY) |
| `CellBoard.IndexInjective` | board.go:31 | coordinates whose X lies in [0, sizeX) share an index only when they are equal |
| `CellBoard.Painted` | board.go:15-19 | a cell written by some segment holds i+1 for the highest-index snake i writing it; a cell no segment writes holds 0 |
| `CellBoard.PaintedZeroIffFree` | board.go:13-26 | when every segment is on the board, an in-bounds cell is painted 0 exactly when no snake has a segment on it |
| `CellBoard.SafeIffFree` | board.go:13-28 | on a painted board whose snakes lie on it, `IsCoordSafe` holds exactly for in-bounds cells that no segment covers |
| `CellBoard.Grid.constructor` | board.go:3-7 | the zero-valued grid, whose nil board has no cells |
| `CellBoard.Grid.Set` | board.go:30-36 | only index X+Y·sizeX changes, and `Get` then reads the written value there. For an in-bounds coordinate on a valid board, every other in-bounds coordinate keeps its value |
| `CellBoard.Grid.Get` | board.go:34-36 | reads index X+Y·sizeX, which is what `Set` wrote there |
| `CellBoard.Grid.IsCoordSafe` | board.go:22-28 | false off the board without reading the array; on the board, true iff the cell holds 0 |
| `CellBoard.Grid.SetupFromState` | board.go:9-20 | the board is a fresh array of exactly Width·Height cells holding `Painted` of the snakes. When all segments are on the board, a cell is safe iff it is on the board and uncovered |
| `CellBoard.Grid.PaintBody` | board.go:16-18 | every cell written by a segment of the body holds the value; all other cells are unchanged |

## Left out

- server.go, main.go and main_test.go: HTTP transport, wall-clock timing and logging. `grid.Move()`, which main.go calls, is not part of this model.
- `Grid.Print` (grid.go:49-76) and `GetMove` (grid.go:182-186): console output and logging, together with the `totalDepth` constant they use.
- The depth > 0 search of `eval` (grid.go:258-315) is left out. It uses goroutines that write shared variables without a lock. It copies through an external deep-copy library and decodes joint moves with floating-point `Pow`/`Mod`. Its `j -= 1` rewrites the loop variable. `SnakeGrid.Grid.Eval` returns `None` there.
- The `state` field of the grid.go `Grid` is stored by `SetupFromState` and never read by the core, so it is not modelled.
- The Go declarations of `Battlesnake`, `GameState`, `Coord.Equals` and `Coord.Copy` are not part of this model. `Equals` is modelled as value equality and `Copy` as a fresh `CoordRef`.
- Slice aliasing is not modelled. In the source, `SetupFromState` shares the snapshot's snake slice, so `Dead` writes also reach the snapshot. An `append` may share a backing array. The model treats snakes and bodies as values.
- `float64` and `math.Inf`: every distance is an integer, and +Inf is the absent case of `Option`.
- The `*Coord` that `Add` and `AddDir` return is not modelled; every caller ignores it.
- `SnakeGrid.Grid.Raycast`: requires a cardinal direction or a start cell that is not Empty. With any other value the source never moves the probe, so on an Empty start cell it never returns.
- `SnakeGrid.Grid.Simulate`: requires at most one direction per snake, and a non-empty body for every live snake that is given a direction. Otherwise `moveSnake` indexes out of range and panics. A live snake with an empty body and no direction is never moved and is allowed.
- `SnakeGrid.Grid.MoveSnake`: requires the index to name a snake and a live snake to have a body. Otherwise grid.go:227 or grid.go:239 indexes out of range and panics.
- `SnakeGrid.Grid.EvalBase`: requires `you` to name a snake. grid.go:320 indexes `g.snakes[g.you]`, which panics on an empty list or an out-of-range index.
- `SnakeGrid.Grid.Eval`: requires `you` to name a snake, for the same reason, because it calls `evalBase` first.
- Go's 64-bit `int` wraps around, and the model uses unbounded integers throughout. This covers the index X+Y·sizeX at board.go:31, `Health -= 1` at grid.go:241 and the sums at grid.go:327-335. Board sizes, health and lengths of a real game stay far below 2^63.
- `CellBoard.Grid.IsCoordSafe`: requires the array to have sizeX·sizeY cells, which the zero grid and `SetupFromState` both establish.
- `CellBoard.Grid.Set` and `CellBoard.Grid.Get`: the source does no bounds check, so the index must lie inside the array, where the source would panic otherwise.
- `CellBoard.Grid.SetupFromState`: requires Width·Height to be at least 0, because `make` at board.go:13 panics on a negative length. It also requires every segment's index to lie inside the array, because `Set` at board.go:31 panics otherwise. The inner segment loop is the helper `PaintBody`.

## Findings

| source | as written | input that shows it | evidently intended | confidence | as-written member | corrected member |
|---|---|---|---|---|---|---|
| grid.go:209-218 | `continue Snakes` at `j == i` ends the comparison, so snake i is compared only with lower-indexed snakes | two healthy snakes of Length 3, each with three segments, with both heads on (1,1) of an 11×11 board: snake 0 survives and snake 1 dies, and listing them in the other order kills the other one | every other snake is compared: on a shared head cell the shorter snake dies, equal lengths both die, and the result does not depend on the order of the snakes | medium; not executed | `SnakeGrid.HeadOnAsWritten` | `SnakeGrid.ResolveIntendedPermutes` |
| grid.go:214 | the head-to-head test has no `Dead` check on snake j, while `isPosDeadly` skips dead snakes at grid.go:105-107 | snake 0 dead with Length 3, body (1,1), (1,0), (0,0); snake 1 alive with Length 3, its head moved onto (1,1), body (1,1), (2,1), (3,1): snake 1 dies | a dead snake's head is as harmless as the rest of its body, so only live snakes are compared | low; not executed | `SnakeGrid.CorpseHeadAsWritten` | `SnakeGrid.HeadOnSurvivor` |

The simulator `SnakeGrid.Grid.Simulate` keeps the behaviour as written. `SnakeGrid.ResolveIntended` is the corrected death resolution. It compares every other live snake. `SnakeGrid.HeadOnIntended`, `SnakeGrid.HeadOnSurvivor` and `SnakeGrid.ResolveIntendedPermutes` are proved about it.
