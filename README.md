# Puzzle engines of a Tango / Sudoku / Minesweeper game collection

This project is a Dafny model of the rule logic behind three browser puzzle games, together with proofs about it.

- **Tango.** It is played on a 6×6 board of suns and moons.
  - The move validator forbids three equal symbols in a line and more than three of a symbol in a row or column. It also enforces "=" / "×" constraints between neighbouring cells.
  - The conflict finder reports which cells clash with a cell.
  - The generator has four parts:
    - a backtracking fill of a complete board;
    - constraints derived from that solution;
    - a capped solution counter;
    - the removal of cells, as long as the puzzle keeps exactly one completion.
- **Sudoku**, 9×9 with 3×3 boxes.
  - The move validator, conflict finder, completion checks and error count.
  - The generator: a backtracking fill of `this.grid`, a capped solution counter, and the removal of cells while the puzzle keeps a unique solution.
- **Minesweeper.**
  - The generator provides three things:
    - the difficulty table;
    - the empty grid;
    - mine placement outside the 3×3 safe zone around the first click, followed by neighbour counts.
  - The game store is a state machine covering the first reveal, losing on a mine, flood reveal of zero cells, flag toggling, pause and resume, the win check, and the flag / revealed / remaining-mines counts.
- **Score calculators** for Tango and Minesweeper: banded sub-scores and their weighted mean before rounding.

Modules follow the source files:

| module | models |
|---|---|
| `Common` | shared helpers: options, distinct sequences, the capped prefix of a solution list |
| `Shuffling` | the Fisher–Yates shuffles of both generators |
| `TangoTypes` | the Tango board and its counts |
| `TangoValidator`, `TangoGenerator` | the two Tango source files |
| `SudokuBoard` | the 9×9 geometry |
| `SudokuValidator` | the Sudoku validator |
| `SudokuGeneration` | the Sudoku generator, with its class `SudokuGenerator` |
| `MinesweeperTypes` | cells, configurations and counts |
| `MinesweeperGenerator` | the Minesweeper generator |
| `MinesweeperStore` | the store, as class `Game` |
| `TangoScore`, `MinesweeperScore` | the two score calculators |

Representation:

- **Boards.** Tango and Sudoku boards are flat row-major sequences of 36 and 81 cells. The backtracking searches work in place on an `array`, as the source works on its grid.
- **Minesweeper grid.** It is a sequence of rows and a field of `Game`. The store's methods reassign that field.
- **Randomness.** Every random choice (`shuffle`, `shuffleArray`, `Math.random` in `placeMines`) is read from a caller-supplied stream of draws `seq<nat>`. A draw `d` used to pick among `n` choices stands for `d % n`, and an exhausted stream draws 0.
- **Solution counting.** Its meaning is given by the ghost function `Enum(g)`, which lists every completion found by the source's depth-first search, in order.
  - `countSolutions` returns the capped prefix of that list.
  - Every listed grid is a full grid extending the puzzle. From a puzzle without clashes, every listed grid is a valid completion, and no grid is listed twice.
  - Every valid completion is listed.
  - `SearchExact` puts these together for a puzzle carved out of a valid solution: the list holds exactly the valid completions. So "exactly one solution was counted" means "the solution is the puzzle's only valid completion".

## Model

| member | source | states |
|---|---|---|
| TangoValidator.NoThreeHorizontal | src/utils/tangoValidator.ts:53-90 | the three horizontal run tests, with the cell as third, middle or first of three equal symbols; NoThreeHorizontalWindows gives their meaning |
| TangoValidator.NoThreeVertical | src/utils/tangoValidator.ts:95-132 | the same three tests down the column; NoThreeVerticalWindows gives their meaning |
| TangoValidator.NoThreeHorizontalWindows | src/utils/tangoValidator.ts:53-90 | the horizontal run check (all six neighbour tests) rejects a symbol exactly when it would complete three equal symbols, in any window of three inside the row that contains the cell |
| TangoValidator.NoThreeVerticalWindows | src/utils/tangoValidator.ts:95-132 | the same for the column |
| TangoValidator.CheckRowCount | src/utils/tangoValidator.ts:137-152 | passes iff one plus the number of other cells of the row that hold the symbol is at most 3 |
| TangoValidator.CheckColumnCount | src/utils/tangoValidator.ts:157-172 | the same for the column |
| TangoValidator.CheckPartner | src/utils/tangoValidator.ts:191-198 | an empty or off-grid partner imposes nothing; otherwise "equals" needs the same symbol and "not equals" a different one |
| TangoValidator.CheckConstraints | src/utils/tangoValidator.ts:177-251 | passes iff every constraint anchored at the cell, or ending at it, allows the symbol against its partner cell |
| TangoValidator.IsValidMove | src/utils/tangoValidator.ts:15-48 | true iff the two run checks, the two count checks and the constraint check all pass |
| TangoValidator.MoveIgnoresTargetCell | src/utils/tangoValidator.ts:15-48 | the verdict never depends on what the target cell currently holds |
| TangoValidator.IsFilled | src/utils/tangoValidator.ts:256-265 | true iff no cell is empty |
| TangoValidator.IsComplete | src/utils/tangoValidator.ts:270-284 | true iff the board is filled and equal to the solution, so it implies IsFilled; against a filled solution, true iff the boards are equal |
| TangoValidator.RunConflictsH | src/utils/tangoValidator.ts:302-328 | reports exactly the row cells that form a run of three equal symbols with the cell |
| TangoValidator.RunConflictsV | src/utils/tangoValidator.ts:330-356 | reports exactly the column cells that form a run of three equal symbols with the cell |
| TangoValidator.GetConflicts | src/utils/tangoValidator.ts:289-392 | an empty cell has no conflicts; otherwise a position is reported iff it is in a run with the cell or is the partner of a violated constraint anchored at the cell; every reported position is on the board and differs from the cell |
| TangoValidator.ArrivingConstraintNotReported | src/utils/tangoValidator.ts:359-389 | a board where a violated constraint ends at the cell: the move check rejects the symbol, yet the conflict finder reports nothing, because it looks only at constraints anchored at the cell |
| TangoTypes.RowCountSkip | src/utils/tangoValidator.ts:137-152 | counting a row while skipping one cell loses exactly that cell's contribution |
| TangoGenerator.ConstraintTarget | src/utils/tangoGenerator.ts:134-140 | 8 / 6 / 4 constraints for easy / medium / hard; always at least one and at most the 60 neighbour pairs of the board |
| TangoGenerator.RemovalTarget | src/utils/tangoGenerator.ts:199-205 | 18 / 24 / 30 cells removed for easy / medium / hard; always at least one and fewer than the 36 cells |
| TangoGenerator.IsValidPlacement | src/utils/tangoGenerator.ts:80-122 | the fill check on the board as it stands: no run of three ending at the cell from the left or from above, three of each symbol in a row once its last cell is placed, at most three of a symbol in the column, and three of each once the column's last cell is placed; PlacedBoardIsSolved and SolvedBoardIsPlaced give its meaning |
| TangoGenerator.FillGrid | src/utils/tangoGenerator.ts:49-75 | cells before (row, col) are never changed; on failure the grid is exactly as before; on success every cell from (row, col) on holds a symbol that passed the placement check against its predecessors |
| TangoGenerator.PlacedBoardIsSolved | src/utils/tangoGenerator.ts:80-122 | a board filled from (0, 0) that way is solved: no empty cell, three of each symbol in every row and column, and no three equal symbols in a line |
| TangoGenerator.SolvedBoardIsPlaced | src/utils/tangoGenerator.ts:80-122 | conversely, every cell of a solved board passes the fill check with the cells after it empty, so the check rejects no solved board |
| TangoGenerator.GenerateCompleteGrid | src/utils/tangoGenerator.ts:35-44 | a filled result is a solved board; otherwise the board is all empty |
| TangoGenerator.CandidatePool | src/utils/tangoGenerator.ts:144-176 | 60 distinct constraints: exactly each horizontal (column < 5) and vertical (row < 5) neighbour pair, with "equals" iff the solution's two cells are equal |
| TangoGenerator.CandidatesSatisfied | src/utils/tangoGenerator.ts:144-176 | every constraint drawn from the pool is satisfied by the solution |
| TangoGenerator.GenerateConstraints | src/utils/tangoGenerator.ts:127-185 | returns the difficulty's number of distinct constraints, all drawn from the pool |
| TangoGenerator.SolvedBoardPassesValidator | src/utils/tangoGenerator.ts:127-185 | each symbol of a solved board satisfying the constraints is a valid move for the validator |
| TangoGenerator.IsValidPlacementWithConstraints | src/utils/tangoGenerator.ts:297-451 | true iff the symbol stored at (row, col) passes the run, count and constraint checks |
| TangoGenerator.PlacementAgreesWithValidator | src/utils/tangoGenerator.ts:297-451 | for a non-empty stored symbol, the generator's own check agrees with the validator's isValidMove |
| TangoGenerator.SubGridPlacementOK | src/utils/tangoGenerator.ts:297-451 | every already-correct cell of a partial board of a constrained solution passes the placement check |
| TangoGenerator.EnumSound | src/utils/tangoGenerator.ts:253-292 | every completion the search lists is a filled board extending the puzzle |
| TangoGenerator.EnumComplete | src/utils/tangoGenerator.ts:253-292 | every valid completion (a solved board extending the puzzle and satisfying every constraint) is listed by the search |
| TangoGenerator.PlaceKeepsConsistent | src/utils/tangoGenerator.ts:282-290 | placing a symbol that passes the placement check into a clash-free partial board keeps it clash-free: no filled run of three, at most three of a symbol per line, no violated constraint between filled cells |
| TangoGenerator.EnumValid | src/utils/tangoGenerator.ts:253-292 | from a clash-free board, every listed completion is a valid completion |
| TangoGenerator.EnumDistinct | src/utils/tangoGenerator.ts:253-292 | the search never lists the same board twice |
| TangoGenerator.SearchExact | src/utils/tangoGenerator.ts:240-292 | for a puzzle carved out of a valid solution, a board is listed iff it is a valid completion; the list has one entry iff the solution is the only valid completion, and otherwise another valid completion exists |
| TangoGenerator.UniqueCompletion | src/utils/tangoGenerator.ts:240-248 | when the search lists one completion and the solution is valid, the solution is the only valid completion |
| TangoGenerator.FindFirstEmpty | src/utils/tangoGenerator.ts:262-274 | returns the first empty cell in row-major order, or (-1, -1) when there is none |
| TangoGenerator.CountSolutions | src/utils/tangoGenerator.ts:253-292 | the grid is restored; the solution list becomes the old list extended by the search's completions, never beyond the cap |
| TangoGenerator.HasUniqueSolution | src/utils/tangoGenerator.ts:240-248 | works on a copy; true iff the search finds exactly one completion |
| TangoGenerator.ShufflePositions | src/utils/tangoGenerator.ts:207-215 | the shuffled list holds each of the 36 cell positions exactly once |
| TangoGenerator.TryRemove | src/utils/tangoGenerator.ts:222-231 | a kept removal empties exactly that cell and leaves a puzzle with one completion; a rejected one restores the grid |
| TangoGenerator.CreatePuzzle | src/utils/tangoGenerator.ts:191-235 | every cell is empty or equals the solution; for a filled solution, at most the difficulty's number of empty cells and exactly one completion |
| TangoGenerator.Generate | src/utils/tangoGenerator.ts:15-30 | the puzzle extends to the solution; the constraints are distinct pool entries, the difficulty's number of them; a filled solution is solved, and it is the puzzle's only valid completion |
| Shuffling.Shuffle | src/utils/tangoGenerator.ts:456-463 | the result is a permutation of the input (also the Sudoku generator's shuffleArray) |
| Common.CappedAppend | src/utils/tangoGenerator.ts:259-291 | capping after two rounds of appending is capping once after appending both, so the search may stop early without changing the result |
| SudokuValidator.IsValidMove | src/utils/sudokuValidator.ts:7-36 | true iff no other cell of the row, column or 3×3 box holds the digit |
| SudokuValidator.MoveIgnoresOwnCell | src/utils/sudokuValidator.ts:7-36 | the verdict never depends on what the cell itself holds |
| SudokuValidator.GetConflicts | src/utils/sudokuValidator.ts:41-77 | for a blank cell, nothing; otherwise exactly the other cells of its row, column and box holding the same digit, each once |
| SudokuValidator.IsComplete | src/utils/sudokuValidator.ts:82-91 | true iff every cell holds the solution's digit, so it implies IsFilled |
| SudokuValidator.IsFilled | src/utils/sudokuValidator.ts:96-105 | true iff no cell is blank |
| SudokuValidator.CountErrors | src/utils/sudokuValidator.ts:110-120 | the number of cells with an error mark, at most 81 |
| SudokuValidator.ErrorCountZero | src/utils/sudokuValidator.ts:110-120 | the count is zero iff no cell carries an error mark |
| SudokuGeneration.CellsToRemove | src/utils/sudokuGenerator.ts:113-128 | 35 / 45 / 52 / 58 / 64 by difficulty, 40 otherwise |
| SudokuGeneration.IsValidInGrid | src/utils/sudokuGenerator.ts:168-189 | true iff the digit is absent from the row, column and box of the cell |
| SudokuGeneration.FreeAgreesWithValidator | src/utils/sudokuGenerator.ts:168-189 | on an empty cell, the generator's check agrees with the validator's isValidMove |
| SudokuGeneration.SudokuGenerator.IsValid | src/utils/sudokuGenerator.ts:46-67 | the same check on the generator's own grid |
| SudokuGeneration.SudokuGenerator.constructor | src/utils/sudokuGenerator.ts:6-8 | the grid starts as 81 zeros |
| SudokuGeneration.SudokuGenerator.FillGrid | src/utils/sudokuGenerator.ts:22-41 | on failure the grid is exactly as before; on success it is a solved grid extending the old one |
| SudokuGeneration.SolvedUnitsComplete | src/utils/sudokuGenerator.ts:22-41 | in a solved grid every row, column and box holds 1..9 exactly once |
| SudokuGeneration.SudokuGenerator.GenerateComplete | src/utils/sudokuGenerator.ts:13-17 | a full result is solved and has every unit complete; otherwise it is all zeros |
| SudokuGeneration.EnumSound | src/utils/sudokuGenerator.ts:143-163 | every completion the search lists is a full grid extending the puzzle |
| SudokuGeneration.EnumComplete | src/utils/sudokuGenerator.ts:143-163 | every valid completion (a solved grid extending the puzzle) is listed by the search |
| SudokuGeneration.PlaceKeepsConsistent | src/utils/sudokuGenerator.ts:149-153 | writing a digit the check allows into a partial grid where no two peers clash keeps it clash-free |
| SudokuGeneration.EnumValid | src/utils/sudokuGenerator.ts:143-163 | from a clash-free grid, every listed completion is a valid completion |
| SudokuGeneration.EnumDistinct | src/utils/sudokuGenerator.ts:143-163 | the search never lists the same grid twice |
| SudokuGeneration.SearchExact | src/utils/sudokuGenerator.ts:133-163 | for a puzzle carved out of a valid solution, a grid is listed iff it is a valid completion; the list has one entry iff the solution is the only valid completion, and otherwise another valid completion exists |
| SudokuGeneration.UniqueCompletion | src/utils/sudokuGenerator.ts:133-138 | when the search lists one completion and the solution is valid, it is the only valid completion |
| SudokuGeneration.FindFirstZero | src/utils/sudokuGenerator.ts:146-159 | returns the first zero cell in row-major order, or (-1, -1) when there is none |
| SudokuGeneration.SudokuGenerator.CountSolutions | src/utils/sudokuGenerator.ts:143-163 | the grid is restored; the solution list becomes the old list extended by the search's completions, never beyond the cap |
| SudokuGeneration.SudokuGenerator.HasUniqueSolution | src/utils/sudokuGenerator.ts:133-138 | works on a copy; true iff the search finds exactly one completion |
| SudokuGeneration.ShuffledPositions | src/utils/sudokuGenerator.ts:87-89 | the shuffled list holds each of the 81 cell positions exactly once |
| SudokuGeneration.SudokuGenerator.TryRemove | src/utils/sudokuGenerator.ts:95-104 | a kept removal zeroes exactly that cell and leaves one completion; a rejected one restores the cell |
| SudokuGeneration.SudokuGenerator.RemoveNumbers | src/utils/sudokuGenerator.ts:84-108 | every cell is zero or equals the solution; for a full solution, at most the difficulty's number of zeros and exactly one completion |
| SudokuGeneration.SudokuGenerator.Generate | src/utils/sudokuGenerator.ts:194-198 | the puzzle extends to the solution; a full solution has every unit complete, at most the difficulty's number of blanks, and is the puzzle's only valid completion |
| MinesweeperGenerator.GetConfig | src/utils/minesweeperGenerator.ts:9-21 | 9×9 with 10 mines, 16×16 with 40, 16×30 with 99; always fewer mines than cells outside a 3×3 zone |
| MinesweeperGenerator.CreateEmptyGrid | src/utils/minesweeperGenerator.ts:26-35 | rows×cols cells, each hidden, not a mine, with count 0 |
| MinesweeperGenerator.EmptyGridCounts | src/utils/minesweeperGenerator.ts:26-35 | an empty grid has no mine, no revealed or flagged cell, and rows×cols hidden cells |
| MinesweeperGenerator.ForbiddenZone | src/utils/minesweeperGenerator.ts:50-59 | the set holds exactly the in-bounds cells of the 3×3 block around the click |
| MinesweeperGenerator.DrawMines | src/utils/minesweeperGenerator.ts:61-71 | each step adds one mine outside the forbidden set and changes nothing else; while draws remain it places exactly the requested number |
| MinesweeperGenerator.NeighbourMinesZero | src/utils/minesweeperGenerator.ts:90-100 | the neighbour count is zero iff none of the eight surrounding cells is an in-bounds mine |
| MinesweeperGenerator.CountAdjacent | src/utils/minesweeperGenerator.ts:90-100 | the count of mines among the in-bounds neighbours (the cell itself excluded), at most 8 |
| MinesweeperGenerator.CalculateAdjacentMines | src/utils/minesweeperGenerator.ts:80-104 | each non-mine cell gets its neighbour count; mine cells' counts and all states are unchanged |
| MinesweeperGenerator.PlaceMines | src/utils/minesweeperGenerator.ts:41-75 | states and existing mines are kept, and no mine is added in the safe zone; at most `mines` new mines, exactly `mines` while draws remain; non-mine cells carry their neighbour counts |
| MinesweeperGenerator.FirstClickSafe | src/utils/minesweeperGenerator.ts:50-59 | the clicked cell is inside its own safe zone |
| MinesweeperStore.Game.constructor | src/stores/minesweeper.ts:88-104 | the configuration's empty grid, playing, not paused, waiting for the first click |
| MinesweeperStore.Game.Pause | src/stores/minesweeper.ts:121-124 | sets the paused flag and nothing else |
| MinesweeperStore.Game.Resume | src/stores/minesweeper.ts:126-133 | clears the paused flag and nothing else |
| MinesweeperStore.Game.FlagsPlaced | src/stores/minesweeper.ts:42-52 | the number of flagged cells |
| MinesweeperStore.Game.RevealedCount | src/stores/minesweeper.ts:58-68 | the number of revealed cells |
| MinesweeperStore.Game.RemainingMines | src/stores/minesweeper.ts:54-56 | the mine total minus the flags placed |
| MinesweeperStore.Toggled | src/stores/minesweeper.ts:210-217 | hidden and flagged swap at the cell, a revealed cell is kept, and every other cell is unchanged |
| MinesweeperStore.ToggleInvolution | src/stores/minesweeper.ts:202-221 | toggling twice is the identity |
| MinesweeperStore.ToggleFlagCount | src/stores/minesweeper.ts:202-221 | flagging raises the flag count by one, unflagging lowers it by one |
| MinesweeperStore.Game.ToggleFlag | src/stores/minesweeper.ts:202-221 | toggles the cell only while playing and not paused; otherwise nothing changes |
| MinesweeperStore.Game.FloodReveal | src/stores/minesweeper.ts:181-199 | the grid becomes the flood of the old grid from the cell (Flooded): only hidden non-mine cells are revealed, layout and counts are kept; a hidden non-mine target is revealed, otherwise nothing changes; a target showing a number reveals only itself; every cell revealed showing 0 ends with each in-bounds neighbour revealed, flagged or a mine; every revealed cell is reached from the target through cells revealed showing 0 |
| MinesweeperStore.Game.FloodNeighbours | src/stores/minesweeper.ts:187-197 | the neighbour pass of a zero cell: after flood revealing each in-bounds neighbour in turn, all eight neighbours are opened, and everything revealed is still reached from the cell through zero cells |
| MinesweeperStore.FloodedUnique | src/stores/minesweeper.ts:181-199 | two grids that are both floods of the same grid from the same cell are equal, so Flooded fixes the outcome of a flood reveal cell for cell |
| MinesweeperStore.GrowsKeepsPlayable | src/stores/minesweeper.ts:181-199 | revealing hidden non-mine cells never shows a mine and keeps every count correct |
| MinesweeperStore.ShowMinesEffect | src/stores/minesweeper.ts:240-249 | every mine becomes revealed and every non-mine cell is unchanged |
| MinesweeperStore.Game.RevealAllMines | src/stores/minesweeper.ts:240-249 | the grid becomes the grid with every mine revealed |
| MinesweeperStore.FlagMinesEffect | src/stores/minesweeper.ts:258-265 | after flagging, no mine is hidden, the revealed count is unchanged, and no mine is shown that was not before |
| MinesweeperStore.Game.CheckWin | src/stores/minesweeper.ts:252-278 | wins iff the revealed count equals rows×cols − mines (totalSafeCells), and then flags every hidden mine; otherwise nothing changes |
| MinesweeperStore.Game.RevealCell | src/stores/minesweeper.ts:136-178 | nothing changes unless playing, not paused, and the target is hidden and in bounds; otherwise the cell is revealed and the first click is over. A first click places the mines outside its safe zone and never loses. A later click keeps the mines, loses iff the cell is a mine, and then reveals all mines. If not lost, won iff every safe cell is revealed, and the grid is the flood from the cell of the grid as it was before the flood (the old grid, or the old grid with mines placed), with every hidden mine flagged on a win |
| MinesweeperStore.Game.PlaceFirst | src/stores/minesweeper.ts:148-151 | the first click's mine placement: no cell state changes, no mine in the safe zone, at most the configured mines (exactly that many while draws remain), every non-mine count right, and the first click is over |
| MinesweeperStore.Game.RevealPlaced | src/stores/minesweeper.ts:153-174 | revealing a hidden cell once mines exist: loss iff it is a mine, with all mines then shown; otherwise the grid is the flood of the old grid from the cell, with every hidden mine flagged iff the win check succeeds |
| TangoScore.ReferenceTime | src/utils/tangoScoreCalculator.ts:9-14 | 3, 6 and 10 minutes for easy, medium and hard |
| TangoScore.ErrorScore | src/utils/tangoScoreCalculator.ts:54-66 | in 0..10; 10 − errors for up to 3 errors; 0 above 30 |
| TangoScore.ErrorScoreMonotone | src/utils/tangoScoreCalculator.ts:54-66 | more errors never raise the score |
| TangoScore.HintScore | src/utils/tangoScoreCalculator.ts:72-82 | in 0..10; 10, 8, 6 for 0, 1, 2 hints; 0 above 15 |
| TangoScore.HintScoreMonotone | src/utils/tangoScoreCalculator.ts:72-82 | more hints never raise the score |
| TangoScore.TimeScore | src/utils/tangoScoreCalculator.ts:88-103 | in 0..10; 10 up to half the reference, 8 at the reference, 0 beyond four times it |
| TangoScore.TimeScoreMonotone | src/utils/tangoScoreCalculator.ts:88-103 | a slower finish never raises the score |
| TangoScore.PauseScore | src/utils/tangoScoreCalculator.ts:109-123 | in 0..10; 10 up to 30 s, 0 beyond 30 min |
| TangoScore.PauseScoreMonotone | src/utils/tangoScoreCalculator.ts:109-123 | more pausing never raises the score |
| TangoScore.WeightedScore | src/utils/tangoScoreCalculator.ts:26-48 | the 40/30/20/10 weighted mean lies in 0..10 and is 10 when every sub-score is 10 |
| TangoScore.WeightedScoreMonotone | src/utils/tangoScoreCalculator.ts:33-44 | more errors or more hints never raise the weighted score |
| MinesweeperScore.ReferenceTime | src/utils/minesweeperScoreCalculator.ts:9-13 | 2, 8 and 20 minutes for beginner, intermediate and expert |
| MinesweeperScore.TimeScore | src/utils/minesweeperScoreCalculator.ts:44-59 | in 0..10; 10 up to 0.3 of the reference, 7 at the reference, 0 beyond four times it |
| MinesweeperScore.TimeScoreMonotone | src/utils/minesweeperScoreCalculator.ts:44-59 | a slower finish never raises the score |
| MinesweeperScore.PauseScore | src/utils/minesweeperScoreCalculator.ts:61-75 | in 0..10; 10 up to 30 s, 0 beyond 30 min |
| MinesweeperScore.PauseScoreMonotone | src/utils/minesweeperScoreCalculator.ts:61-75 | more pausing never raises the score |
| MinesweeperScore.FlagScore | src/utils/minesweeperScoreCalculator.ts:77-88 | in 3..10, and 10 whenever there are mines and no more flags than mines |
| MinesweeperScore.FlagScoreMonotone | src/utils/minesweeperScoreCalculator.ts:77-88 | more flags never raise the score |
| MinesweeperScore.WeightedScore | src/utils/minesweeperScoreCalculator.ts:24-42 | the 60/20/20 weighted mean lies in 0.6..10, since the flag score is at least 3 |

## Left out

- Persistence: saving, loading and resetting games and the statistics managers are left out. This is browser storage I/O.
- Timers: the clock, elapsed time, pause bookkeeping and formatted times are left out. They are wall-clock side effects, so Pause and Resume model only the paused flag.
- UI state is left out:
  - cell selection and highlighting;
  - the flag mode and click dispatch (`handleCellClick`, `handleCellRightClick`, `toggleFlagMode`);
  - progress percentages;
  - the Minesweeper cell's highlight flag.
- The Sudoku and Tango stores are left out: outside the UI, they only call the validators.
- The 6×6 Sudoku variant is left out. The generator shown is hard-wired to 9×9 with 3×3 boxes.
- Score rounding (`Math.round(x * 10) / 10`) is left out. The weighted sums are real numbers before rounding.
- Randomness becomes a draw stream. Nothing is claimed about the distribution of the puzzles or mine layouts.
- Success of the backtracking fill is not proved. Both generators ignore its boolean result, so their properties are stated conditional on a full result.
- Search cost is not modelled.
- MinesweeperGenerator.PlaceMines: the source draws random cells until `mines` are placed. The model stops when its draws run out, so it promises exactly `mines` new mines only while draws remain, and at most `mines` otherwise.
- MinesweeperGenerator.PlaceMines: the caller's grid is returned updated as a value. The in-place update of shared cell objects is not modelled. In revealCell, the alias `cell` to the clicked cell is modelled by reading the cell again after placement, which is what the alias observes.
- The grid is updated as a value throughout. FloodReveal, ApplyToAll, CheckWin and RevealAllMines reassign the Game's grid field, so in-place aliasing of cell objects is not modelled.
- `totalSafeCells` has no member of its own. Its value rows×cols − mines appears inline in CheckWin's contract.
- Sudoku difficulties outside the table are represented by the single constructor `Unlisted`, which reaches the `default` branch (40 cells).
- Helper methods stand for parts of source functions:
  - `CountCells` and `ApplyToAll` are the shared whole-grid loops;
  - `PlaceFirst` and `RevealPlaced` are the first-click placement and the second half of revealCell;
  - `FloodNeighbours` is floodReveal's loop over the eight neighbours;
  - `DrawMines` is placeMines' loop;
  - `FindFirstEmpty` / `FindFirstZero` are the first-empty-cell scans;
  - `TryRemove` is one removal attempt;
  - `AllPositions`, `ShufflePositions` and `ShuffledPositions` build the shuffled position lists.
- Behaviour of the flag score when there are no mines: the source divides by zero, every comparison fails and the score is 3. The model keeps that value, and none of the configurations has zero mines.
