/** The depth-first backtracking search `solve` of homework02/sudoku.py, run in place on a
    9×9 array of cells. */
module SudokuSolver {
  import opened SudokuGrid

  /** The board held by the array, as a list of rows. */
  function Cells(a: array2<char>): (g: Grid)
    reads a
    requires a.Length0 == 9 && a.Length1 == 9
    ensures IsGrid(g)
    ensures forall i, j :: 0 <= i < 9 && 0 <= j < 9 ==> g[i][j] == a[i, j]
  {
    seq(9, i requires 0 <= i < 9 reads a => seq(9, j requires 0 <= j < 9 reads a => a[i, j]))
  }

  /** The board `g` with `d` written at `(r, c)`. */
  function Place(g: Grid, r: int, c: int, d: char): (h: Grid)
    requires IsGrid(g) && InRange((r, c))
    ensures IsGrid(h) && h[r][c] == d
    ensures forall i, j :: InRange((i, j)) && (i, j) != (r, c) ==> h[i][j] == g[i][j]
  {
    g[r := g[r][c := d]]
  }

  lemma SameCells(g: Grid, h: Grid)
    requires IsGrid(g) && IsGrid(h)
    requires forall i, j :: 0 <= i < 9 && 0 <= j < 9 ==> g[i][j] == h[i][j]
    ensures g == h
  {
    forall i | 0 <= i < 9 ensures g[i] == h[i] {
      assert forall j :: 0 <= j < 9 ==> g[i][j] == h[i][j];
    }
  }

  /** Writing a cell and then putting back what it held gives the board back. */
  lemma PlaceUndo(g: Grid, r: int, c: int, d: char)
    requires IsGrid(g) && InRange((r, c))
    ensures Place(Place(g, r, c, d), r, c, g[r][c]) == g
  {
    SameCells(Place(Place(g, r, c, d), r, c, g[r][c]), g);
  }

  /** The assignment `grid[r][c] = d`. */
  method SetCell(a: array2<char>, r: int, c: int, d: char)
    requires a.Length0 == 9 && a.Length1 == 9 && InRange((r, c))
    modifies a
    ensures Cells(a) == Place(old(Cells(a)), r, c, d)
  {
    a[r, c] := d;
    SameCells(Cells(a), Place(old(Cells(a)), r, c, d));
  }

  /** The empty cells of a board; the search ends because each level fills one of them. */
  ghost function EmptyCells(g: Grid): set<Pos>
    requires IsGrid(g)
  {
    set i, j | 0 <= i < 9 && 0 <= j < 9 && g[i][j] == Empty :: (i, j)
  }

  /** `s` keeps every filled cell of `g` and puts a digit in each of its empty cells. */
  ghost predicate Fills(g: Grid, s: Grid)
    requires IsGrid(g) && IsGrid(s)
  {
    forall i, j :: 0 <= i < 9 && 0 <= j < 9 ==>
      if g[i][j] == Empty then s[i][j] in Digits else s[i][j] == g[i][j]
  }

  /** `s` is a solution of the puzzle `g`. */
  ghost predicate IsCompletion(g: Grid, s: Grid)
    requires IsGrid(g)
  {
    IsSolution(s) && Fills(g, s)
  }

  lemma EmptyCellsShrink(g: Grid, r: int, c: int, d: char)
    requires IsGrid(g) && InRange((r, c)) && g[r][c] == Empty && d != Empty
    ensures EmptyCells(Place(g, r, c, d)) < EmptyCells(g)
  {
    var h := Place(g, r, c, d);
    assert (r, c) in EmptyCells(g) && (r, c) !in EmptyCells(h);
    forall p | p in EmptyCells(h) ensures p in EmptyCells(g) {
      var (i, j) := p;
      assert h[i][j] == Empty;
    }
  }

  /** Writing a candidate digit into an empty cell keeps a consistent board consistent: the
      digit differs from every value in its row, column and block. */
  lemma PlaceKeepsConsistent(g: Grid, r: int, c: int, d: char)
    requires IsGrid(g) && InRange((r, c)) && g[r][c] == Empty
    requires Consistent(g) && d in FindPossibleValues(g, (r, c))
    ensures Consistent(Place(g, r, c, d))
  {
    var h := Place(g, r, c, d);
    assert Absent(g, (r, c), d);
    forall i, j, k, l | InRange((i, j)) && InRange((k, l)) && Peers((i, j), (k, l)) && h[i][j] != Empty
      ensures h[i][j] != h[k][l]
    {
      if (i, j) == (r, c) {
        assert g[k][l] != d;
      } else if (k, l) == (r, c) {
        assert Peers((k, l), (i, j));
        assert g[i][j] != d;
      } else {
        assert g[i][j] != g[k][l];
      }
    }
  }

  /** The digit a solution puts in an empty cell is among that cell's candidates. */
  lemma CompletionPicksCandidate(g: Grid, s: Grid, r: int, c: int)
    requires IsGrid(g) && InRange((r, c)) && g[r][c] == Empty && IsCompletion(g, s)
    ensures s[r][c] in FindPossibleValues(g, (r, c))
  {
    var d := s[r][c];
    forall i, j | InRange((i, j)) && (i == r || j == c || SameBlock((i, j), (r, c)))
      ensures g[i][j] != d
    {
      if g[i][j] != Empty && (i, j) != (r, c) {
        assert Peers((r, c), (i, j));
        assert s[i][j] == g[i][j];
      }
    }
    assert Absent(g, (r, c), d);
  }

  /** A solution of `g` that has `d` at `(r, c)` is a solution of `g` with `d` placed there. */
  lemma CompletionOfPlace(g: Grid, s: Grid, r: int, c: int)
    requires IsGrid(g) && InRange((r, c)) && g[r][c] == Empty && IsCompletion(g, s)
    ensures IsCompletion(Place(g, r, c, s[r][c]), s)
  {
  }

  /** What fills the board after a placement fills the board before it. */
  lemma FillsThroughPlace(g: Grid, s: Grid, r: int, c: int, d: char)
    requires IsGrid(g) && IsGrid(s) && InRange((r, c)) && g[r][c] == Empty && d in Digits
    requires Fills(Place(g, r, c, d), s)
    ensures Fills(g, s)
  {
    var h := Place(g, r, c, d);
    forall i, j | 0 <= i < 9 && 0 <= j < 9
      ensures if g[i][j] == Empty then s[i][j] in Digits else s[i][j] == g[i][j]
    {
      if (i, j) != (r, c) {
        assert h[i][j] == g[i][j];
      }
    }
  }

  /** A solution found after placing a candidate digit solves the board before the placement. */
  lemma SolvedThroughPlace(g: Grid, h: Grid, r: int, c: int, d: char)
    requires IsGrid(g) && IsGrid(h) && InRange((r, c)) && g[r][c] == Empty
    requires d in FindPossibleValues(g, (r, c))
    requires NoEmpty(h) && Fills(Place(g, r, c, d), h)
    requires Consistent(Place(g, r, c, d)) ==> IsSolution(h)
    ensures NoEmpty(h) && Fills(g, h)
    ensures Consistent(g) ==> IsSolution(h)
  {
    FillsThroughPlace(g, h, r, c, d);
    if Consistent(g) {
      PlaceKeepsConsistent(g, r, c, d);
    }
  }

  /** When the search below a placed digit fails, no solution of the board uses that digit. */
  lemma FailedDigit(g: Grid, r: int, c: int, d: char, remaining: set<char>)
    requires IsGrid(g) && InRange((r, c)) && g[r][c] == Empty
    requires forall s :: IsCompletion(g, s) ==> s[r][c] in remaining + {d}
    requires forall s :: !IsCompletion(Place(g, r, c, d), s)
    ensures forall s :: IsCompletion(g, s) ==> s[r][c] in remaining
  {
    forall s | IsCompletion(g, s) ensures s[r][c] in remaining {
      if s[r][c] == d {
        CompletionOfPlace(g, s, r, c);
      }
    }
  }

  /** `solve(grid)`: find the first empty cell; with none, the board is returned as it is.
      Otherwise try each candidate digit there in turn, recursing after each placement;
      the first success is returned, a failed try puts '.' back, and when every candidate
      fails (or there is none) the search reports failure. The order in which candidates are
      tried is left open. */
  method Solve(a: array2<char>) returns (solved: bool)
    requires a.Length0 == 9 && a.Length1 == 9
    modifies a
    ensures !solved ==> Cells(a) == old(Cells(a))
    ensures !solved ==> forall s :: !IsCompletion(old(Cells(a)), s)
    ensures solved ==> NoEmpty(Cells(a)) && Fills(old(Cells(a)), Cells(a))
    ensures solved && Consistent(old(Cells(a))) ==> IsSolution(Cells(a))
    ensures NoEmpty(old(Cells(a))) ==> solved && Cells(a) == old(Cells(a))
    decreases EmptyCells(Cells(a))
  {
    var g := Cells(a);
    var d := FindEmptyPositions(g);
    if d.None? {
      NoEmptyOfRows(g);
      assert Fills(g, g);
      return true;
    }
    var (r, c) := d.value;
    var v := FindPossibleValues(g, (r, c));
    if |v| == 0 {
      forall s | IsCompletion(g, s) ensures false {
        CompletionPicksCandidate(g, s, r, c);
      }
      return false;
    }
    var remaining := v;
    while remaining != {}
      invariant remaining <= v
      invariant Cells(a) == g
      invariant forall s :: IsCompletion(g, s) ==> s[r][c] in remaining
      decreases remaining
    {
      var digit :| digit in remaining;
      remaining := remaining - {digit};
      SetCell(a, r, c, digit);
      EmptyCellsShrink(g, r, c, digit);
      solved := Solve(a);
      if solved {
        SolvedThroughPlace(g, Cells(a), r, c, digit);
        return;
      }
      SetCell(a, r, c, Empty);
      PlaceUndo(g, r, c, digit);
      FailedDigit(g, r, c, digit, remaining);
    }
    forall s | IsCompletion(g, s) ensures false {
    }
    solved := false;
  }
}
