# Board generator of stalker-ai, modelled in Dafny

`GameBoardGenerator` lays walls on a rectangular game board held as a 2-D
integer array `boardData[x, y]`. A cell holding 0 is open. A positive value
is built. During a connectivity check, -1 marks a cell the flood has reached.
The generator keeps one invariant: after every wall it commits, the open
cells still form one 8-connected region (diagonals count).

The model has three modules:

- `Grids` (grids.dfy) is the value level.
  - A board is a `seq<seq<int>>` indexed `g[x][y]`; cells are `Coord(x, y)`.
  - `Near` is the 3x3 block around a cell, centre included.
  - `Reach` is a walk through open cells and `Connected` says every two open cells reach each other.
  - `OpenCells` is the set of open cells.
  - `IsWall` is a chain of distinct, 8-adjacent open cells, and `WallBuilt` is a board with a wall built.
  - `Growable(g, parent, depth)` says a wall of `depth` cells can be grown from `parent`, one cell at a time, each cell keeping the board connected. It is the backtracking search's own success condition, stated as a recursive predicate.
  - The lemmas about these definitions are here too.
- `Generator` (generator.dfy) is the class itself.
  - It has an `array2<int>` board and the cached root of the connectivity check.
  - Every method of the source is modelled with its loops, and each is proved against the value level.
  - `Snapshot(board)` is the board's value at a point in time.
- `Scenarios` (scenarios.dfy) replays the unit tests of `GameBoardTest.cs`. Each one sets up the same board, calls the generator and promises what the test asserts.

Main results:

- `IsGraphConnected` answers exactly `Connected` of the board it was given. On a board without stray marks, it leaves every cell as it found it.
- `MarkConnected` marks exactly the cells reached from the root.
- `Build(parent, depth)` succeeds exactly when a wall of `depth` cells can be grown from `parent` (`Growable`). This is both soundness and completeness of the backtracking search. On success it has built such a wall:
  - the wall starts at `parent`;
  - the board stays connected;
  - the open count drops by `depth`.

  On failure the board is exactly as before.
- `ChooseRandomSquare` returns (-1, -1) exactly when nothing is open. Otherwise it returns the open cell whose rank in x-then-y order is the drawn index.

## Model

| member | source | states |
|---|---|---|
| Generator.RandomRange | Assets/GameBoardGenerator.cs:85 | Unity's integer `Random.Range(min, max)` for min <= max: a value in [min, max), or min when max == min |
| Generator.RandomRangeCovers | Assets/GameBoardGenerator.cs:85 | every value of [min, max) is the outcome of some draw |
| Generator.SourceSquareIndex | Assets/GameBoardGenerator.cs:164 | the as-written draw `Random.Range(0, count - 1)`: index 0 for one open square, otherwise an index below count - 1 |
| Generator.LastOpenSquareNeverChosen | Assets/GameBoardGenerator.cs:164 | as written, with two or more open squares the index drawn is never the last one |
| Generator.SquareIndex | Assets/GameBoardGenerator.cs:164 | the corrected draw `Random.Range(0, count)` is a valid index of a non-empty list |
| Generator.EveryOpenSquareChosen | Assets/GameBoardGenerator.cs:164 | with the corrected draw, every index of the open-square list is drawn by some outcome |
| Generator.GameBoardGenerator.constructor | Assets/GameBoardGenerator.cs:10-13 | the generator works on the given board, and the cached root starts at (0, 0) |
| Generator.GameBoardGenerator.GetData | Assets/GameBoardGenerator.cs:172-178 | returns the cell's current value |
| Generator.GameBoardGenerator.SetData | Assets/GameBoardGenerator.cs:180-186 | the board afterwards is the old board with exactly that cell overwritten |
| Generator.GameBoardGenerator.IsGraphRootOpen | Assets/GameBoardGenerator.cs:63-65 | true exactly when the cached root cell holds 0 |
| Generator.GameBoardGenerator.GetNeighbors | Assets/GameBoardGenerator.cs:67-79 | the result holds exactly the open on-board cells of the 3x3 block around the square, centre included, in x-then-y order; off-board cells are skipped |
| Generator.GameBoardGenerator.GetNeighborsRandomOrder | Assets/GameBoardGenerator.cs:81-90 | the shuffle keeps exactly the same cells, each once, whatever indices are drawn |
| Generator.GameBoardGenerator.PickRoot | Assets/GameBoardGenerator.cs:92-109 | an open root is kept; otherwise the root moves to the first open cell in x-then-y order, or stays when nothing is open; it stays on the board |
| Generator.GameBoardGenerator.MarkConnected | Assets/GameBoardGenerator.cs:111-124 | the flood turns the root and exactly the open cells reached from it into -1 and changes nothing else |
| Generator.GameBoardGenerator.EnqueueMarked | Assets/GameBoardGenerator.cs:119-122 | every neighbour handed to the delegate is marked -1 and appended to the queue, in order |
| Generator.GameBoardGenerator.VerifyMarks | Assets/GameBoardGenerator.cs:126-135 | true exactly when no cell holds 0 |
| Generator.GameBoardGenerator.UnMark | Assets/GameBoardGenerator.cs:137-145 | every -1 becomes 0, and every other cell keeps its value |
| Generator.GameBoardGenerator.IsGraphConnected | Assets/GameBoardGenerator.cs:52-61 | the answer is true exactly when the open cells are 8-connected or there are none; a board free of marks is left unchanged; the root moves only as PickRoot moves it |
| Generator.GameBoardGenerator.Sweep | Assets/GameBoardGenerator.cs:57-60 | from an open root, flood, look for a leftover open cell and unmark: the verdict is connectivity, and a board free of marks comes back unchanged |
| Generator.GameBoardGenerator.SweepVerdict | Assets/GameBoardGenerator.cs:57-58 | after the flood, an open cell is left exactly when the board was not connected |
| Generator.GameBoardGenerator.SweepClears | Assets/GameBoardGenerator.cs:57-59 | the flood marked only open cells, so unmarking gives back the board, apart from marks it already held |
| Generator.GameBoardGenerator.Build | Assets/GameBoardGenerator.cs:26-50 | succeeds exactly when a wall of `depth` cells can be grown from parent. On success it built a wall of `depth` distinct 8-adjacent cells that starts at parent; the board stays connected and the open count drops by `depth`. On failure the board is unchanged |
| Generator.GameBoardGenerator.BuildIfConnected | Assets/GameBoardGenerator.cs:33-37 | the parent stays built exactly when building it keeps the board connected; otherwise the board is restored |
| Generator.GameBoardGenerator.BuildOnNeighbours | Assets/GameBoardGenerator.cs:41-49 | with parent built, success exactly when some open neighbour grows the rest of the wall; on failure parent is reopened and the board is as before the parent was built |
| Generator.GameBoardGenerator.BuildFromNeighbours | Assets/GameBoardGenerator.cs:42-47 | the loop over the shuffled neighbours fails exactly when none of them grows a wall one shorter, and then leaves the board unchanged; it succeeds with a wall from the first neighbour that grows one: no neighbour listed before it grows one |
| Generator.GameBoardGenerator.GetOpenSquares | Assets/GameBoardGenerator.cs:147-157 | the list holds exactly the open cells, in strictly increasing x-then-y order |
| Generator.GameBoardGenerator.CountOpenSquares | Assets/GameBoardGenerator.cs:167-170 | the count equals the number of open cells |
| Generator.GameBoardGenerator.OpenListCount | Assets/GameBoardGenerator.cs:168-169 | a list holding each open cell once is as long as the set of open cells |
| Generator.GameBoardGenerator.ChooseRandomSquare | Assets/GameBoardGenerator.cs:159-165 | (-1, -1) exactly when nothing is open; otherwise an open cell with exactly the drawn index of open cells before it |
| Generator.GameBoardGenerator.GenerateWall | Assets/GameBoardGenerator.cs:18-24 | a wall is built exactly when some cell is open and a wall of the given length grows from the drawn cell; the wall starts there, the board stays connected, and the open count drops by the length; otherwise nothing changes |
| Grids.ConnectedFromRoot | Assets/GameBoardGenerator.cs:52-61 | with an open root, the board is connected exactly when every open cell is reached from the root |
| Grids.NoOpenConnected | Assets/GameBoardGenerator.cs:54-55 | a board with no open cell counts as connected |
| Grids.FloodStep | Assets/GameBoardGenerator.cs:116-123 | one dequeue-and-mark round keeps the flood invariant: marked cells are reached, queued cells are marked, and a dequeued cell's open neighbours are marked. Each round leaves fewer unmarked open cells or a shorter queue |
| Grids.FloodDone | Assets/GameBoardGenerator.cs:116 | once the queue is empty, the marked cells are exactly those reached from the root |
| Grids.ReachSymmetric | Assets/GameBoardGenerator.cs:67-79 | between open cells, 8-adjacent reachability is symmetric |
| Grids.ReachTransitive | Assets/GameBoardGenerator.cs:67-79 | 8-adjacent reachability is transitive |
| Grids.SetBack | Assets/GameBoardGenerator.cs:35 | writing a cell and then its old value back gives the board back, which is why reverting to 0 restores an open cell |
| Grids.RowMajorRank | Assets/GameBoardGenerator.cs:164 | in a list in strictly increasing x-then-y order, the element at index k has exactly k listed cells before it |
| Grids.WallOpenCount | Assets/GameBoardGenerator.cs:26-50 | building a wall removes exactly its cells from the open cells, so the count drops by its length |
| Grids.WallFitsOpen | Assets/GameBoardGenerator.cs:26-50 | no wall is longer than the number of open cells |
| Grids.WallExtend | Assets/GameBoardGenerator.cs:41-45 | a wall grown from a neighbour on the board with parent built, with parent put in front, is a wall on the original board |
| Grids.WallStep | Assets/GameBoardGenerator.cs:41-45 | the successful recursive call extends to a wall from parent, built on the original board, with the open count down by depth |
| Grids.WallStart | Assets/GameBoardGenerator.cs:38-40 | building the parent alone is a one-cell wall and lowers the open count by one |
| Grids.NotGrowable | Assets/GameBoardGenerator.cs:27-37 | no wall grows with a depth below one, from a built cell, or from a cell whose building disconnects the board |
| Grids.GrowsAlone | Assets/GameBoardGenerator.cs:38-40 | a one-cell wall grows where building the cell keeps the board connected |
| Grids.GrowsFromNeighbour | Assets/GameBoardGenerator.cs:41-46 | a shorter wall from an open neighbour on the board with parent built gives a wall from parent |
| Grids.NoNeighbourGrows | Assets/GameBoardGenerator.cs:41-49 | when none of the open neighbours grows a shorter wall, no wall grows from parent |
| Grids.NoneGrowsExtend | Assets/GameBoardGenerator.cs:42-47 | one more failed neighbour extends the failed prefix of the loop |
| Grids.OpenRectConnected | Assets/Editor/GameBoardTest.cs:27-30 | a rectangular board with every cell open is connected |
| Grids.MiddleColumnDisconnects | Assets/Editor/GameBoardTest.cs:56-63 | on a 3 by 3 board whose middle column is built, the open cells are not connected |
| Scenarios.CornerBlockedConnected | Assets/Editor/GameBoardTest.cs:43-47 | an open rectangle with only the corner (0, 0) built is connected |
| Scenarios.TwoByTwoGrows | Assets/Editor/GameBoardTest.cs:95-136 | on an open 2 by 2 board, walls of 1 to 4 cells grow from the corner (0, 0) |
| Scenarios.TwoByThreeGrowsFive | Assets/Editor/GameBoardTest.cs:103-109 | on an open 2 by 3 board, a wall of 5 cells grows from the corner (0, 0) |
| Scenarios.StartConnected | Assets/Editor/GameBoardTest.cs:27-30 | the check reports a freshly opened board of any size as connected |
| Scenarios.StartRootOpen | Assets/Editor/GameBoardTest.cs:32-35 | the root of a freshly opened board is open |
| Scenarios.BlockRootRootClosed | Assets/Editor/GameBoardTest.cs:37-41 | after building cell (0, 0) the root is reported closed |
| Scenarios.BlockRootIsConnected | Assets/Editor/GameBoardTest.cs:43-47 | after building cell (0, 0) the board is still reported connected |
| Scenarios.BlockAllIsConnected | Assets/Editor/GameBoardTest.cs:49-54 | a 1 by 1 board whose only cell is built is reported connected |
| Scenarios.BlockLineIsNotConnected | Assets/Editor/GameBoardTest.cs:56-63 | a 3 by 3 board with the middle column built is reported not connected |
| Scenarios.EmptyMarkConnectedMarksAll | Assets/Editor/GameBoardTest.cs:65-73 | for every open square board of side 1 to 19, the flood leaves no open cell |
| Scenarios.BuildOnTwoByTwo | Assets/Editor/GameBoardTest.cs:95-136 | on an open 2 by 2 board, Build from (0, 0) with depth 1 to 4 leaves 4 - depth open cells and builds (0, 0) |
| Scenarios.BuildAlmostFull | Assets/Editor/GameBoardTest.cs:103-109 | on an open 2 by 3 board, Build from (0, 0) with depth 5 leaves one open cell |
| Scenarios.BuildTooMuch | Assets/Editor/GameBoardTest.cs:138-144 | on an open 2 by 2 board, Build with depth 5 builds nothing, and four cells stay open |

## Left out

- Randomness:
  - Both calls to Unity's `Random.Range` are modelled, not called.
  - The shuffle in `GetNeighborsRandomOrder` draws each index with `RandomRange(i, Count, draw)` from an arbitrary `draw`, so every proof holds for every shuffle.
  - `ChooseRandomSquare` and `GenerateWall` take the random outcome as a `draw` parameter.
- Generator.RandomRange: requires min <= max. Both call sites satisfy it (i < Count at line 85, Count >= 1 at line 164), and Unity's result for reversed bounds is not modelled.
- `GameBoard`, `IntVector2` and `GenerateDataModel` are not part of this model.
  - `GameBoard.cs` and `IntVector2.cs` are not part of this model. The board is an `array2<int>`, and a coordinate is the `Coord` datatype.
  - `GenerateDataModel` (Assets/GameBoardGenerator.cs:14-16) has an empty body.
  - The test `Construction` checks `GameBoard` only.
- Exceptions:
  - The `IndexOutOfRangeException` that `GetNeighbors` catches is modelled as a bounds test that skips the cell.
  - The other methods read the board at the coordinate they are given, or at the cached root, and would throw when it is off the board; the model requires an on-board one instead.
- Generator.GameBoardGenerator.IsGraphConnected: requires the cached root to lie on the board. The source throws otherwise. That happens on an empty board, or on a board replaced by a smaller one after the root has moved.
- Generator.GameBoardGenerator.PickRoot: requires the cached root to lie on the board, for the same reason.
- Generator.GameBoardGenerator.MarkConnected: requires the cached root to lie on the board, for the same reason.
- Generator.GameBoardGenerator.Build: requires no cell to hold a negative value. Build reverts a cell by writing 0, and the connectivity check turns stray -1 marks into 0. On a board holding marks, the source would therefore not restore the board after a failure. `IsGraphConnected` always clears its marks; only a direct call to `MarkConnected` leaves them, and a caller must clear them before `Build`.
- Generator.GameBoardGenerator.Build: also requires the parent and the cached root on the board on every path. The source completes some paths without reading them: it returns false for `depth <= 0` (Assets/GameBoardGenerator.cs:27-28) before reading parent, and for a built parent (lines 30-31) before the connectivity check reads the root. The model does not cover those calls with an off-board parent or root.
- Generator.GameBoardGenerator.GenerateWall: requires the cached root on the board even when nothing is open. The source then returns at lines 19-21 without reading the root, and the model does not cover that call with an off-board root.
- Generator.GameBoardGenerator.GenerateWall: the source returns nothing. `start`, `built` and `wall` are ghost outputs that exist only to state what happened.
- The tests `GenerateWall` and `GenerateManyWalls` (Assets/Editor/GameBoardTest.cs:75-93) are not replayed. Whether a wall of the requested length grows from the randomly drawn cell of a 10 by 20 board is not established here; `GenerateWall`'s contract states the result for either outcome.
- Integers are unbounded. Coordinates one off the board edge, as `GetNeighbors` forms them, are not checked for 32-bit overflow.
- The source's `Queue` and `List` are sequences. The FIFO order of the flood is kept, but the proofs do not depend on it.
- `ChooseRandomSquare` uses the corrected range `Random.Range(0, count)`; see Findings.
  - The as-written draw `Random.Range(0, count - 1)` is modelled by `Generator.SourceSquareIndex` and the lemma `Generator.LastOpenSquareNeverChosen`.

## Findings

| source | as written | input that shows it | evidently intended | confidence | as-written member | corrected member |
|---|---|---|---|---|---|---|
| Assets/GameBoardGenerator.cs:164 | the index is drawn with `Random.Range(0, openSquares.Count - 1)`, and the integer `Random.Range` excludes its upper bound | a board with exactly two open cells: every draw gives index 0, so the second open cell is never chosen | a uniform choice over all open cells, `Random.Range(0, openSquares.Count)` | high, not executed | Generator.LastOpenSquareNeverChosen | Generator.EveryOpenSquareChosen |
