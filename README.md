# Sudoku solver and Game of Life step, in Dafny

This project models two small programs and proves what they compute.

- **Sudoku** (`homework02/sudoku.py`):
  - reading puzzle text into a 9×9 board (`group`, `create_grid`);
  - the row, column and block accessors;
  - the search for the first empty cell;
  - the candidate digits of a cell;
  - the backtracking solver `solve`;
  - the solution check `check_solution`.
- **Game of Life prototype** (`homework03/life_proto.py`):
  - the `GameOfLife` object and its fields;
  - the zero grid;
  - the clipped 3×3 neighbourhood of a cell;
  - one generation step under the survive-on-2-or-3 / born-on-3 rule.

There are four modules:

- `SudokuParse` (`sudoku_parse.dfy`): `group` is a loop over a sequence, specified by the `Chunks` function and the `IsGrouping` predicate. The puzzle-character filter is a recursive function.
- `SudokuGrid` (`sudoku_grid.dfy`): the board is a `seq<seq<char>>` with `'.'` for an empty cell.
  - `get_col`, `find_empty_positions` and `check_solution` are methods with the source's loops.
  - `get_row`, `get_block` and `find_possible_values` are functions.
  - A solved board is defined independently: every cell is filled, and no two cells sharing a row, column or block are equal.
- `SudokuSolver` (`sudoku_solver.dfy`): `solve` runs in place on an `array2<char>`, as the source mutates its list of lists. It recurses on the set of empty cells, which shrinks with each placement.
- `Life` (`life.dfy`): `GameOfLife` is a class whose `grid` field the methods reassign. `get_neighbours` and `get_next_generation` are methods with the source's nested loops. Each is proved against a specification function (`Neighbours` and `IsNextGeneration`).

Python's `//` is modelled by `Life.FloorDiv`, which rounds toward minus infinity, and not by Dafny's Euclidean `/`.

## Model

| member | source | states |
|---|---|---|
| SudokuParse.Group | homework02/sudoku.py:36-46 | For `n > 0`, the loop cuts `values` into consecutive chunks. The chunks concatenate back to `values`. Every chunk but the last has exactly `n` elements, and the last is non-empty with at most `n`. The result equals `Chunks(values, n)`. |
| SudokuParse.ChunksIsGrouping | homework02/sudoku.py:36-46 | The chunking function meets the grouping description: it loses and adds nothing, and its chunks have the right sizes. |
| SudokuParse.GroupingIsChunks | homework02/sudoku.py:36-46 | Only one grouping exists: any list of chunks that meets the description is the one `Chunks` computes. |
| SudokuParse.ChunksOfMultiple | homework02/sudoku.py:17 | When the input has `n * k` elements, grouping by `n` gives exactly `k` chunks of `n`. For 81 characters this is a 9×9 board. |
| SudokuParse.KeepPuzzleChars | homework02/sudoku.py:16 | The filtered text is no longer than the input. Text made only of digits and `.` is kept unchanged. |
| SudokuParse.KeepPuzzleCharsCounts | homework02/sudoku.py:16 | Every digit and `.` is kept as many times as it occurs in the input. Every other character is dropped. |
| SudokuParse.KeepPuzzleCharsAppend | homework02/sudoku.py:16 | Filtering `s + t` equals filtering `s` followed by filtering `t`, so the kept characters stay in their input order. |
| SudokuParse.CreateGrid | homework02/sudoku.py:15-18 | The board is the grouping into rows of 9 of the kept puzzle characters. When exactly 81 characters are kept, it is 9 rows of 9. |
| SudokuGrid.GetRow | homework02/sudoku.py:48-49 | The row of `pos` holds, cell for cell, row `pos[0]` of the board. |
| SudokuGrid.GetCol | homework02/sudoku.py:51-55 | The loop collects one cell per row: cell `i` of the result is cell `pos[1]` of row `i`. The result equals the `Column` function. |
| SudokuGrid.GetBlock | homework02/sudoku.py:58-71 | The threshold choice of the block origin (below 3, 3 to 5, 6 and above) is `pos / 3 * 3`. Entry `t` of the block is the cell `(origin.0 + t / 3, origin.1 + t % 3)`. |
| SudokuGrid.BlockHasCell | homework02/sudoku.py:58-71 | Every cell in the same 3×3 block as `pos` occurs in the block listing. |
| SudokuGrid.UsedIffPresent | homework02/sudoku.py:93-95 | A value is missing from the union of the row, column and block sets exactly when no cell sharing a row, column or block with `pos` holds it (both directions). |
| SudokuGrid.FindPossibleValues | homework02/sudoku.py:91-96 | The candidates are exactly the digits 1-9 found nowhere in the cell's row, column and block. `.` is never a candidate. |
| SudokuGrid.FindEmptyPositions | homework02/sudoku.py:74-87 | "No position" is returned exactly when no row holds a `.`. Otherwise the result is a `.` cell in the first row that holds one, and the first `.` in that row. |
| SudokuGrid.DistinctIffSetSize | homework02/sudoku.py:126 | A list has as many elements as its set exactly when no two of its entries are equal (both directions). |
| SudokuGrid.GroupsDistinctIffConsistent | homework02/sudoku.py:122-130 | On a filled board, the 27 groups tested (row `i`, column `i`, block `i`) are all duplicate-free exactly when no two cells sharing a row, column or block are equal. |
| SudokuGrid.RoundVerdict | homework02/sudoku.py:123-126 | The length-versus-set-size test of round `i` passes exactly when row `i`, column `i` and block `i` have no repeated value. |
| SudokuGrid.NoEmptyOfRows | homework02/sudoku.py:120-121 | A board whose rows contain no `.` has no empty cell. |
| SudokuGrid.CheckSolution | homework02/sudoku.py:119-130 | Returns true exactly when the board is solved: no `.` anywhere, and no value repeated in any row, column or 3×3 block. |
| SudokuSolver.Cells | homework02/sudoku.py:99 | The board view of the array is 9×9 and holds the array's cells. |
| SudokuSolver.Place | homework02/sudoku.py:105 | Writing `d` at `(r, c)` changes that cell and no other. |
| SudokuSolver.PlaceUndo | homework02/sudoku.py:105-110 | Writing a digit and then writing back the old `.` gives the original board. |
| SudokuSolver.SetCell | homework02/sudoku.py:105 | The array assignment changes the board exactly as `Place` does. |
| SudokuSolver.EmptyCellsShrink | homework02/sudoku.py:100-106 | Filling an empty cell strictly shrinks the set of empty cells, so the recursion ends. |
| SudokuSolver.PlaceKeepsConsistent | homework02/sudoku.py:102-105 | Writing a candidate digit into an empty cell of a board with no conflicting peers creates no conflict. |
| SudokuSolver.CompletionPicksCandidate | homework02/sudoku.py:102-104 | Every solution of the puzzle puts one of the candidate digits into the empty cell, so trying only candidates loses no solution. |
| SudokuSolver.CompletionOfPlace | homework02/sudoku.py:105-106 | A solution with digit `d` at the cell also solves the board with `d` placed there. |
| SudokuSolver.FillsThroughPlace | homework02/sudoku.py:105-108 | A board that fills the puzzle after a placement also fills the puzzle before it. |
| SudokuSolver.SolvedThroughPlace | homework02/sudoku.py:105-108 | A solution found below a placed candidate fills the original puzzle. It solves that puzzle whenever the puzzle had no conflict. |
| SudokuSolver.FailedDigit | homework02/sudoku.py:104-110 | After a candidate's subtree fails, every solution of the puzzle uses one of the candidates not yet tried. |
| SudokuSolver.Solve | homework02/sudoku.py:99-115 | On failure, the array is back to its input state and the puzzle has no solution. On success, the array has no `.` and keeps every given cell. If the input had no conflict, the array is a solution. A board with no `.` is returned unchanged as a success. |
| Life.FloorDiv | homework03/life_proto.py:27-28 | Python's `//`: for a positive divisor the quotient is the largest `q` with `q * b <= a`. For a negative divisor it is rounded toward minus infinity. |
| Life.NeighbourPositionsMembers | homework03/life_proto.py:84-88 | The positions visited are exactly the in-grid positions at most one row and one column away from the cell, excluding the cell itself. There is no wrap-around. |
| Life.NeighbourPositionsOrder | homework03/life_proto.py:86-88 | The positions are visited in strictly increasing row-major order, and there are at most 8 of them. |
| Life.ScanIsWindow | homework03/life_proto.py:86-89 | Scanning rows `lo .. i` collects the values of the window positions over those rows, in order. |
| Life.NeighbourSumBounds | homework03/life_proto.py:97 | On a grid of 0s and 1s, the neighbour sum of any cell lies between 0 and 8. |
| Life.NextGenerationUnique | homework03/life_proto.py:92-106 | The next-generation conditions leave no freedom: two grids that meet them for the same current grid are equal. |
| Life.GameOfLife.constructor | homework03/life_proto.py:14-31 | Keeps width, height, cell size and speed. The numbers of cells across and down are width and height floor-divided by the cell size. |
| Life.GameOfLife.CreateGrid | homework03/life_proto.py:57-63 | `create_grid(False)` is `cell_height` rows of `cell_width` zeros (no rows or columns for a negative count). |
| Life.GameOfLife.Seed | homework03/life_proto.py:44 | The grid becomes the given 0/1 grid of `cell_height` rows by `cell_width` columns. |
| Life.GameOfLife.GetNeighbours | homework03/life_proto.py:82-90 | The nested loops return the values of the neighbour positions in row-major order. That is, `Neighbours(grid, cell)`, whose positions are described by `NeighbourPositionsMembers` and `NeighbourPositionsOrder`. |
| Life.GameOfLife.GetNextGeneration | homework03/life_proto.py:92-106 | The new grid is `cell_height` × `cell_width` and holds only 0 and 1. A live cell stays alive exactly with 2 or 3 live neighbours, and a dead cell becomes alive exactly with 3. Counts are read from the current grid only. Cells outside the current grid are 0. |
| Life.GameOfLife.Advance | homework03/life_proto.py:51 | The grid is replaced by its next generation, which is rectangular with `cell_height` rows. |

## Left out

- `read_sudoku`, `display`, `generate_sudoku` and the `__main__` blocks: file I/O, printing and randomness. `generate_sudoku` is not part of this model.
- `GameOfLife.draw_lines`, `draw_grid`, the `pygame` window (`screen`, `screen_size`), and the event, clock and frame loop of `run`: graphics and timing. Only the two grid assignments of `run` are modelled, as `Seed` and `Advance`.
- `create_grid(True)`: the random 0/1 cells become the argument of `Life.GameOfLife.Seed`.
- `Life.GameOfLife.constructor`: sets `grid` to the empty grid; the source creates the attribute only in `run`. It requires a non-zero cell size: with `cell_size == 0` the source raises a division error after opening the window, and that error path is not modelled. The default arguments (width 640, height 480, cell size 10, speed 10) are not modelled either, since Dafny constructors take every argument; a call such as `GameOfLife(320, 240, 20)` corresponds to passing speed 10 explicitly.
- `SudokuParse.Group`: requires `n > 0`. In the source, `n == 0` raises a division error on non-empty input, and a negative `n` is never used.
- `SudokuParse.CreateGrid`: a count of kept characters other than 81 gives, as in the source, a board that is not 9×9: a short last row, fewer than 9 rows, or more than 9 rows (90 characters give 10 full rows). Only the 81 case is shown to give 9×9.
- `SudokuGrid.FindEmptyPositions`: requires a non-empty board. For an empty list the source fails on `grid[-1]`.
- Board size: `get_block`, `find_possible_values`, `check_solution` and `solve` are modelled on 9×9 boards only. On other shapes the source may raise an index error, build short groups (slices of short rows), test only the first 9 groups, or test the wrong block (on a 10×10 board the thresholds send cell (9, 9) to the block at (6, 6)); none of that is modelled.
- `SudokuSolver.Solve`: the order in which candidate digits are tried (Python set iteration order) is left open. The contract holds for every order.
- `SudokuSolver.Solve`: it returns a flag, and the solved board is the array itself. The source returns the same list object, `False`, or `None`.
- `SudokuSolver.Solve`: validity of the result is promised only for puzzles whose given digits do not already conflict. The source does not check the givens, and neither does the model: a full board with a repeated digit (say two 5s in row 0) is returned as solved, which the last `ensures` of `SudokuSolver.Solve` states.
- `Life.GameOfLife.GetNeighbours`: requires a rectangular grid. On a ragged grid, the source's column bound from the first row can index past a shorter row.
- `Life.GameOfLife.GetNextGeneration`: requires the grid to fit inside `cell_height` × `cell_width`. For a larger grid, the source raises an index error as soon as a cell outside the zero grid is live or has exactly 3 live neighbours; otherwise it returns the `cell_height` × `cell_width` result and silently ignores the extra cells. Neither case is modelled; every grid `run` builds fits.
