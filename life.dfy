/** One generation step of the Game of Life prototype in homework03/life_proto.py: the
    `GameOfLife` grid state, the zero grid, the clipped 3×3 neighbourhood of a cell and the
    survive-on-2-or-3 / born-on-3 rule. */
module Life {

  /** A (row, column) position. */
  type Cell = (int, int)

  /** A grid of cell values, row by row; 0 is dead, anything else is alive. */
  type Grid = seq<seq<int>>

  function Max(a: int, b: int): int { if a < b then b else a }

  function Min(a: int, b: int): int { if a < b then a else b }

  /** Python's `//`: division rounding toward minus infinity. */
  function FloorDiv(a: int, b: int): (q: int)
    requires b != 0
    ensures b > 0 ==> q * b <= a < q * b + b
    ensures b < 0 ==> q * b + b < a <= q * b
  {
    if b > 0 then a / b else (-a) / (-b)
  }

  /** The width the neighbourhood scan takes from the first row. */
  function Cols(g: Grid): nat
  {
    if |g| > 0 then |g[0]| else 0
  }

  /** Every row is as long as the first one. */
  predicate IsRect(g: Grid)
  {
    forall i :: 0 <= i < |g| ==> |g[i]| == Cols(g)
  }

  /** Row-major order on positions. */
  predicate Before(p: Cell, q: Cell)
  {
    p.0 < q.0 || (p.0 == q.0 && p.1 < q.1)
  }

  /** The positions are listed in strictly increasing row-major order. */
  predicate RowMajor(ps: seq<Cell>)
  {
    forall x, y :: 0 <= x < y < |ps| ==> Before(ps[x], ps[y])
  }

  /** The positions `(i, j)` for `j` in `[loJ, hiJ)`, leaving out `cell`, left to right. */
  function RowPart(i: int, loJ: int, hiJ: int, cell: Cell): seq<Cell>
    decreases hiJ - loJ
  {
    if hiJ <= loJ then []
    else RowPart(i, loJ, hiJ - 1, cell) + (if (i, hiJ - 1) != cell then [(i, hiJ - 1)] else [])
  }

  /** The row part holds exactly the positions of row `i` in the column range, but `cell`. */
  lemma {:induction false} RowPartMembers(i: int, loJ: int, hiJ: int, cell: Cell)
    ensures forall p :: p in RowPart(i, loJ, hiJ, cell) <==> p.0 == i && loJ <= p.1 < hiJ && p != cell
    decreases hiJ - loJ
  {
    if hiJ > loJ {
      RowPartMembers(i, loJ, hiJ - 1, cell);
    }
  }

  lemma {:induction false} RowPartRowMajor(i: int, loJ: int, hiJ: int, cell: Cell)
    ensures RowMajor(RowPart(i, loJ, hiJ, cell))
    decreases hiJ - loJ
  {
    if hiJ > loJ {
      RowPartRowMajor(i, loJ, hiJ - 1, cell);
      RowPartMembers(i, loJ, hiJ - 1, cell);
      var front := RowPart(i, loJ, hiJ - 1, cell);
      var ps := RowPart(i, loJ, hiJ, cell);
      assert ps == front + (if (i, hiJ - 1) != cell then [(i, hiJ - 1)] else []);
      forall x, y | 0 <= x < y < |ps| ensures Before(ps[x], ps[y]) {
        if y < |front| {
          assert ps[x] == front[x] && ps[y] == front[y];
          assert Before(front[x], front[y]);
        } else {
          assert ps[x] == front[x] && front[x] in front;
          assert ps[y] == (i, hiJ - 1);
          assert ps[x].0 == i && ps[x].1 < hiJ - 1;
        }
      }
    }
  }

  lemma {:induction false} RowPartSize(i: int, loJ: int, hiJ: int, cell: Cell)
    requires loJ <= hiJ
    ensures |RowPart(i, loJ, hiJ, cell)| == (hiJ - loJ) - Inside(i, i + 1, loJ, hiJ, cell)
    decreases hiJ - loJ
  {
    if hiJ > loJ {
      RowPartSize(i, loJ, hiJ - 1, cell);
    }
  }

  /** The positions of the rows `[loI, hiI)` and columns `[loJ, hiJ)`, leaving out `cell`,
      in row-major order. */
  function Window(loI: int, hiI: int, loJ: int, hiJ: int, cell: Cell): seq<Cell>
    decreases hiI - loI
  {
    if hiI <= loI then []
    else Window(loI, hiI - 1, loJ, hiJ, cell) + RowPart(hiI - 1, loJ, hiJ, cell)
  }

  /** The window holds exactly the positions in its row and column ranges, but `cell`. */
  lemma {:induction false} WindowMembers(loI: int, hiI: int, loJ: int, hiJ: int, cell: Cell)
    ensures forall p :: p in Window(loI, hiI, loJ, hiJ, cell) <==>
      loI <= p.0 < hiI && loJ <= p.1 < hiJ && p != cell
    decreases hiI - loI
  {
    if hiI > loI {
      WindowMembers(loI, hiI - 1, loJ, hiJ, cell);
      RowPartMembers(hiI - 1, loJ, hiJ, cell);
    }
  }

  /** The window lists its positions in strictly increasing row-major order. */
  lemma {:induction false} WindowRowMajor(loI: int, hiI: int, loJ: int, hiJ: int, cell: Cell)
    ensures RowMajor(Window(loI, hiI, loJ, hiJ, cell))
    decreases hiI - loI
  {
    if hiI > loI {
      WindowRowMajor(loI, hiI - 1, loJ, hiJ, cell);
      RowPartRowMajor(hiI - 1, loJ, hiJ, cell);
      WindowMembers(loI, hiI - 1, loJ, hiJ, cell);
      RowPartMembers(hiI - 1, loJ, hiJ, cell);
      RowMajorAppend(Window(loI, hiI - 1, loJ, hiJ, cell), RowPart(hiI - 1, loJ, hiJ, cell), hiI - 1);
    }
  }

  /** Positions of earlier rows followed by positions of row `r` stay in row-major order. */
  lemma RowMajorAppend(front: seq<Cell>, back: seq<Cell>, r: int)
    requires RowMajor(front) && RowMajor(back)
    requires forall p :: p in front ==> p.0 < r
    requires forall p :: p in back ==> p.0 == r
    ensures RowMajor(front + back)
  {
    var ps := front + back;
    forall x, y | 0 <= x < y < |ps| ensures Before(ps[x], ps[y]) {
      if y < |front| {
        assert ps[x] == front[x] && ps[y] == front[y];
      } else if x >= |front| {
        assert ps[x] == back[x - |front|] && ps[y] == back[y - |front|];
      } else {
        assert ps[x] == front[x] && front[x] in front;
        assert ps[y] == back[y - |front|] && back[y - |front|] in back;
      }
    }
  }

  lemma {:induction false} WindowSize(loI: int, hiI: int, loJ: int, hiJ: int, cell: Cell)
    requires loI <= hiI && loJ <= hiJ
    ensures |Window(loI, hiI, loJ, hiJ, cell)| == Area(hiI - loI, hiJ - loJ) - Inside(loI, hiI, loJ, hiJ, cell)
    decreases hiI - loI
  {
    if hiI > loI {
      var front, back := Window(loI, hiI - 1, loJ, hiJ, cell), RowPart(hiI - 1, loJ, hiJ, cell);
      WindowSize(loI, hiI - 1, loJ, hiJ, cell);
      RowPartSize(hiI - 1, loJ, hiJ, cell);
      assert Window(loI, hiI, loJ, hiJ, cell) == front + back;
      var inF, inB := Inside(loI, hiI - 1, loJ, hiJ, cell), Inside(hiI - 1, hiI, loJ, hiJ, cell);
      assert Inside(loI, hiI, loJ, hiJ, cell) == inF + inB;
      assert Area(hiI - loI, hiJ - loJ) == Area(hiI - 1 - loI, hiJ - loJ) + (hiJ - loJ);
    }
  }

  /** `rows` rows of `cols` positions. */
  function Area(rows: int, cols: int): int
    decreases rows
  {
    if rows <= 0 then 0 else Area(rows - 1, cols) + cols
  }

  /** 1 when `cell` lies in the rows `[loI, hiI)` and columns `[loJ, hiJ)`, else 0. */
  function Inside(loI: int, hiI: int, loJ: int, hiJ: int, cell: Cell): int
  {
    if loI <= cell.0 < hiI && loJ <= cell.1 < hiJ then 1 else 0
  }

  /** The positions `get_neighbours` visits: the 3×3 window around `cell`, clipped to the
      grid (no wrap-around), without `cell` itself. */
  function NeighbourPositions(g: Grid, cell: Cell): seq<Cell>
  {
    Window(Max(0, cell.0 - 1), Min(|g|, cell.0 + 2), Max(0, cell.1 - 1), Min(Cols(g), cell.1 + 2), cell)
  }

  /** Exactly the in-grid positions at distance at most 1 in each coordinate, other than the
      cell itself. */
  lemma NeighbourPositionsMembers(g: Grid, cell: Cell)
    ensures forall p :: p in NeighbourPositions(g, cell) <==>
      && 0 <= p.0 < |g| && 0 <= p.1 < Cols(g)
      && -1 <= p.0 - cell.0 <= 1 && -1 <= p.1 - cell.1 <= 1
      && p != cell
  {
    WindowMembers(Max(0, cell.0 - 1), Min(|g|, cell.0 + 2), Max(0, cell.1 - 1), Min(Cols(g), cell.1 + 2), cell);
  }

  /** They come in row-major order, and there are at most 8 of them. */
  lemma NeighbourPositionsOrder(g: Grid, cell: Cell)
    ensures RowMajor(NeighbourPositions(g, cell))
    ensures |NeighbourPositions(g, cell)| <= 8
  {
    var loI, hiI := Max(0, cell.0 - 1), Min(|g|, cell.0 + 2);
    var loJ, hiJ := Max(0, cell.1 - 1), Min(Cols(g), cell.1 + 2);
    var ps := NeighbourPositions(g, cell);
    assert ps == Window(loI, hiI, loJ, hiJ, cell);
    WindowRowMajor(loI, hiI, loJ, hiJ, cell);
    if loI <= hiI && loJ <= hiJ {
      WindowSize(loI, hiI, loJ, hiJ, cell);
      var rows, cols := hiI - loI, hiJ - loJ;
      if loI <= cell.0 < hiI && loJ <= cell.1 < hiJ {
        AreaBound(rows, cols);
      } else {
        assert rows <= 1 || cols <= 1;
        AreaBound(rows, cols);
      }
    } else {
      WindowEmpty(loI, hiI, loJ, hiJ, cell);
    }
  }

  lemma {:induction false} WindowEmpty(loI: int, hiI: int, loJ: int, hiJ: int, cell: Cell)
    requires hiI <= loI || hiJ <= loJ
    ensures Window(loI, hiI, loJ, hiJ, cell) == []
    decreases hiI - loI
  {
    if hiI > loI {
      WindowEmpty(loI, hiI - 1, loJ, hiJ, cell);
    }
  }

  lemma AreaBound(rows: int, cols: int)
    requires 0 <= rows <= 3 && 0 <= cols <= 3
    ensures Area(rows, cols) <= 9
    ensures rows <= 1 || cols <= 1 ==> Area(rows, cols) <= 3
  {
    assert Area(0, cols) == 0;
    assert Area(3, cols) == Area(2, cols) + cols == Area(1, cols) + 2 * cols;
  }

  /** The value at `p`; every position the model looks up lies in the grid, so the 0 for
      other positions is never used. */
  function At(g: Grid, p: Cell): int
  {
    if 0 <= p.0 < |g| && 0 <= p.1 < |g[p.0]| then g[p.0][p.1] else 0
  }

  /** The values at the positions `ps`, in that order. */
  function ValuesAt(g: Grid, ps: seq<Cell>): seq<int>
  {
    seq(|ps|, k requires 0 <= k < |ps| => At(g, ps[k]))
  }

  /** A finished scan of the rows has visited the whole window. */
  lemma WindowDone(loI: int, i: int, hiI: int, loJ: int, hiJ: int, cell: Cell)
    requires (i == loI || loI < i <= hiI) && hiI <= i
    ensures Window(loI, i, loJ, hiJ, cell) == Window(loI, hiI, loJ, hiJ, cell)
  {
    if hiI <= loI {
      WindowEmpty(loI, hiI, loJ, hiJ, cell);
    }
  }

  lemma ValuesAtSnoc(g: Grid, ps: seq<Cell>, p: Cell)
    ensures ValuesAt(g, ps + [p]) == ValuesAt(g, ps) + [At(g, p)]
  {
  }

  /** The values the scan has collected once rows `[loI, i)` are done. */
  function ScanRows(g: Grid, cell: Cell, loI: int, loJ: int, hiJ: int, i: int): seq<int>
    requires loI <= i
    decreases i - loI, Max(loJ, hiJ) - loJ + 1
  {
    if i <= loI then [] else Scan(g, cell, loI, loJ, hiJ, i - 1, Max(loJ, hiJ))
  }

  /** The values the scan has collected in row `i` up to column `j`, after the rows before. */
  function Scan(g: Grid, cell: Cell, loI: int, loJ: int, hiJ: int, i: int, j: int): seq<int>
    requires loI <= i
    decreases i - loI + 1, j - loJ
  {
    if j <= loJ then ScanRows(g, cell, loI, loJ, hiJ, i)
    else Scan(g, cell, loI, loJ, hiJ, i, j - 1) + (if (i, j - 1) != cell then [At(g, (i, j - 1))] else [])
  }

  lemma ValuesAtAppend(g: Grid, a: seq<Cell>, b: seq<Cell>)
    ensures ValuesAt(g, a + b) == ValuesAt(g, a) + ValuesAt(g, b)
  {
  }

  /** Part way along row `i`, the scan has the earlier rows followed by the row part so far. */
  lemma {:induction false} ScanRow(g: Grid, cell: Cell, loI: int, loJ: int, hiJ: int, i: int, j: int)
    requires loI <= i && loJ <= j
    ensures Scan(g, cell, loI, loJ, hiJ, i, j) ==
      ScanRows(g, cell, loI, loJ, hiJ, i) + ValuesAt(g, RowPart(i, loJ, j, cell))
    decreases j - loJ
  {
    if j > loJ {
      ScanRow(g, cell, loI, loJ, hiJ, i, j - 1);
      var front := RowPart(i, loJ, j - 1, cell);
      if (i, j - 1) != cell {
        assert RowPart(i, loJ, j, cell) == front + [(i, j - 1)];
        ValuesAtSnoc(g, front, (i, j - 1));
      } else {
        assert RowPart(i, loJ, j, cell) == front;
      }
    }
  }

  /** The scan of rows `[loI, i)` gives the values of the window over those rows. */
  lemma {:induction false} ScanIsWindow(g: Grid, cell: Cell, loI: int, i: int, loJ: int, hiJ: int)
    requires loI <= i
    ensures ScanRows(g, cell, loI, loJ, hiJ, i) == ValuesAt(g, Window(loI, i, loJ, hiJ, cell))
    decreases i - loI
  {
    if i > loI {
      ScanIsWindow(g, cell, loI, i - 1, loJ, hiJ);
      var w := Window(loI, i - 1, loJ, hiJ, cell);
      if hiJ <= loJ {
        WindowEmpty(i - 1, i, loJ, hiJ, cell);
        assert RowPart(i - 1, loJ, hiJ, cell) == [];
        assert Window(loI, i, loJ, hiJ, cell) == w + [];
      } else {
        ScanRow(g, cell, loI, loJ, hiJ, i - 1, hiJ);
        ValuesAtAppend(g, w, RowPart(i - 1, loJ, hiJ, cell));
      }
    }
  }

  /** What `get_neighbours(cell)` returns. */
  function Neighbours(g: Grid, cell: Cell): seq<int>
  {
    ValuesAt(g, NeighbourPositions(g, cell))
  }

  function Sum(s: seq<int>): int
  {
    if s == [] then 0 else Sum(s[..|s| - 1]) + s[|s| - 1]
  }

  /** The neighbour count of `get_next_generation`: the total of the neighbour values. */
  function NeighbourSum(g: Grid, cell: Cell): int
  {
    Sum(Neighbours(g, cell))
  }

  lemma {:induction false} SumBounds(s: seq<int>)
    requires forall k :: 0 <= k < |s| ==> s[k] == 0 || s[k] == 1
    ensures 0 <= Sum(s) <= |s|
  {
    if s != [] {
      SumBounds(s[..|s| - 1]);
    }
  }

  /** On a grid of zeros and ones, a cell has between 0 and 8 live neighbours. */
  lemma NeighbourSumBounds(g: Grid, cell: Cell)
    requires forall i, j :: 0 <= i < |g| && 0 <= j < |g[i]| ==> g[i][j] == 0 || g[i][j] == 1
    ensures 0 <= NeighbourSum(g, cell) <= 8
  {
    NeighbourPositionsOrder(g, cell);
    SumBounds(Neighbours(g, cell));
  }

  /** The state of a cell in the next generation, from its state and its neighbour sum. */
  function Rule(alive: int, neighbours: int): int
  {
    if alive != 0 then (if neighbours != 2 && neighbours != 3 then 0 else 1)
    else if neighbours == 3 then 1 else 0
  }

  /** What `get_next_generation` computes for position `(x, y)` of the new grid: the rule
      for cells of the old grid, 0 for the rest of the zero grid. */
  function NextState(g: Grid, x: int, y: int): int
    requires IsRect(g) && 0 <= x && 0 <= y
  {
    if x < |g| && y < |g[x]| then Rule(g[x][y], NeighbourSum(g, (x, y))) else 0
  }

  /** `next` is the generation after `g` on an `h` × `w` board: every cell of `g` obeys the
      survival and birth rules, reading only `g`, and every other cell is 0. */
  ghost predicate IsNextGeneration(g: Grid, next: Grid, h: int, w: int)
    requires IsRect(g) && |g| <= h && Cols(g) <= w
  {
    && |next| == h
    && (forall x :: 0 <= x < h ==> |next[x]| == w)
    && (forall x, y :: 0 <= x < h && 0 <= y < w ==> next[x][y] == 0 || next[x][y] == 1)
    && (forall x, y :: 0 <= x < |g| && 0 <= y < |g[x]| && g[x][y] != 0 ==>
          (next[x][y] == 1 <==> NeighbourSum(g, (x, y)) == 2 || NeighbourSum(g, (x, y)) == 3))
    && (forall x, y :: 0 <= x < |g| && 0 <= y < |g[x]| && g[x][y] == 0 ==>
          (next[x][y] == 1 <==> NeighbourSum(g, (x, y)) == 3))
    && (forall x, y :: 0 <= x < h && 0 <= y < w && !(x < |g| && y < |g[x]|) ==> next[x][y] == 0)
  }

  /** The rules leave no freedom: there is only one next generation. */
  lemma NextGenerationUnique(g: Grid, n1: Grid, n2: Grid, h: int, w: int)
    requires IsRect(g) && |g| <= h && Cols(g) <= w
    requires IsNextGeneration(g, n1, h, w) && IsNextGeneration(g, n2, h, w)
    ensures n1 == n2
  {
    forall x | 0 <= x < h ensures n1[x] == n2[x] {
      forall y | 0 <= y < w ensures n1[x][y] == n2[x][y] {
        if x < |g| && y < |g[x]| {
          assert n1[x][y] == 1 <==> n2[x][y] == 1;
        }
      }
    }
  }

  class GameOfLife {
    var width: int
    var height: int
    var cellSize: int
    var speed: int
    /** Number of cells across and down. */
    var cellWidth: int
    var cellHeight: int
    var grid: Grid

    /** `__init__`: keeps the window size and the cell size and derives the number of cells
        with floor division. */
    constructor (width: int, height: int, cellSize: int, speed: int)
      requires cellSize != 0
      ensures this.width == width && this.height == height
      ensures this.cellSize == cellSize && this.speed == speed
      ensures cellWidth == FloorDiv(width, cellSize) && cellHeight == FloorDiv(height, cellSize)
      ensures grid == []
    {
      this.width := width;
      this.height := height;
      this.cellSize := cellSize;
      this.speed := speed;
      cellWidth := FloorDiv(width, cellSize);
      cellHeight := FloorDiv(height, cellSize);
      grid := [];
    }

    /** `create_grid(False)`: `cell_height` rows of `cell_width` zeros (none when a count is
        negative, as `range` gives nothing). */
    function CreateGrid(): (g: Grid)
      reads this
      ensures |g| == Max(0, cellHeight)
      ensures forall i :: 0 <= i < |g| ==> |g[i]| == Max(0, cellWidth)
      ensures forall i, j :: 0 <= i < |g| && 0 <= j < |g[i]| ==> g[i][j] == 0
    {
      var h, w := Max(0, cellHeight), Max(0, cellWidth);
      seq(h, _ => seq(w, _ => 0))
    }

    /** The step of `run` that stores a randomly filled grid in `grid`, with the random cells
        given as an argument. */
    method Seed(cells: Grid)
      requires |cells| == Max(0, cellHeight)
      requires forall i :: 0 <= i < |cells| ==> |cells[i]| == Max(0, cellWidth)
      requires forall i, j :: 0 <= i < |cells| && 0 <= j < |cells[i]| ==> cells[i][j] == 0 || cells[i][j] == 1
      modifies this`grid
      ensures grid == cells
    {
      grid := cells;
    }

    /** `get_neighbours(cell)`: scans rows `max(0, r-1) .. min(rows, r+2)` and, in each, columns
        `max(0, c-1) .. min(cols, c+2)`, appending every value but the cell's own. */
    method GetNeighbours(cell: Cell) returns (neighbours: seq<int>)
      requires IsRect(grid)
      ensures neighbours == Neighbours(grid, cell)
    {
      var g := grid;
      neighbours := [];
      var rows := |g|;
      var cols := if rows > 0 then |g[0]| else 0;
      var loI, hiI := Max(0, cell.0 - 1), Min(rows, cell.0 + 2);
      var loJ, hiJ := Max(0, cell.1 - 1), Min(cols, cell.1 + 2);
      var i := loI;
      while i < hiI
        invariant i == loI || loI < i <= hiI
        invariant neighbours == ScanRows(g, cell, loI, loJ, hiJ, i)
      {
        var j := loJ;
        while j < hiJ
          invariant j == loJ || loJ < j <= hiJ
          invariant neighbours == Scan(g, cell, loI, loJ, hiJ, i, j)
        {
          if (i, j) != cell {
            assert g[i][j] == At(g, (i, j));
            neighbours := neighbours + [g[i][j]];
          }
          j := j + 1;
        }
        i := i + 1;
      }
      ScanIsWindow(g, cell, loI, i, loJ, hiJ);
      WindowDone(loI, i, hiI, loJ, hiJ, cell);
    }

    /** `get_next_generation()`: starts from the zero grid and, for every cell of the current
        grid, writes 1 or 0 by the rule, reading neighbour counts from the current grid only. */
    method GetNextGeneration() returns (newGrid: Grid)
      requires IsRect(grid) && |grid| <= Max(0, cellHeight) && Cols(grid) <= Max(0, cellWidth)
      ensures IsNextGeneration(grid, newGrid, Max(0, cellHeight), Max(0, cellWidth))
    {
      newGrid := CreateGrid();
      var h, w := Max(0, cellHeight), Max(0, cellWidth);
      for x := 0 to |grid|
        invariant |newGrid| == h && forall i :: 0 <= i < h ==> |newGrid[i]| == w
        invariant forall i, j :: 0 <= i < h && 0 <= j < w ==>
          newGrid[i][j] == if i < x then NextState(grid, i, j) else 0
      {
        var row := grid[x];
        for y := 0 to |row|
          invariant |newGrid| == h && forall i :: 0 <= i < h ==> |newGrid[i]| == w
          invariant forall i, j :: 0 <= i < h && 0 <= j < w ==>
            newGrid[i][j] == if i < x || (i == x && j < y) then NextState(grid, i, j) else 0
        {
          var col := row[y];
          var found := GetNeighbours((x, y));
          var neigh := Sum(found);
          if col != 0 {
            if neigh != 2 && neigh != 3 {
              newGrid := newGrid[x := newGrid[x][y := 0]];
            } else {
              newGrid := newGrid[x := newGrid[x][y := 1]];
            }
          } else {
            if neigh == 3 {
              newGrid := newGrid[x := newGrid[x][y := 1]];
            }
          }
        }
      }
    }

    /** The step of `run` that replaces `grid` by its next generation. */
    method Advance()
      requires IsRect(grid) && |grid| <= Max(0, cellHeight) && Cols(grid) <= Max(0, cellWidth)
      modifies this`grid
      ensures IsNextGeneration(old(grid), grid, Max(0, cellHeight), Max(0, cellWidth))
      ensures IsRect(grid) && |grid| == Max(0, cellHeight) && Cols(grid) <= Max(0, cellWidth)
    {
      grid := GetNextGeneration();
    }
  }
}
