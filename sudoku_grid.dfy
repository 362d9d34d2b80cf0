/** The 9×9 Sudoku board of homework02/sudoku.py and the functions that read it:
    the row, column and block accessors, the first-empty-cell search, the candidate
    digits of a cell and the solution check. */
module SudokuGrid {

  datatype Option<T> = None | Some(value: T)

  /** A board: a list of rows, each a list of one-character cells. */
  type Grid = seq<seq<char>>

  /** A (row, column) position. */
  type Pos = (int, int)

  /** The mark of an empty cell. */
  const Empty: char := '.'

  /** The digits a cell may take. */
  const Digits: set<char> := {'1', '2', '3', '4', '5', '6', '7', '8', '9'}

  predicate IsGrid(g: Grid)
  {
    |g| == 9 && forall r :: 0 <= r < 9 ==> |g[r]| == 9
  }

  predicate InRange(pos: Pos)
  {
    0 <= pos.0 < 9 && 0 <= pos.1 < 9
  }

  /** The two positions lie in the same 3×3 block. */
  predicate SameBlock(p: Pos, q: Pos)
  {
    p.0 / 3 == q.0 / 3 && p.1 / 3 == q.1 / 3
  }

  /** Two different cells that share a row, a column or a block. */
  predicate Peers(p: Pos, q: Pos)
  {
    p != q && (p.0 == q.0 || p.1 == q.1 || SameBlock(p, q))
  }

  predicate NoEmpty(g: Grid)
    requires IsGrid(g)
  {
    forall i, j :: 0 <= i < 9 && 0 <= j < 9 ==> g[i][j] != Empty
  }

  /** No filled cell repeats the value of one of its peers. */
  ghost predicate Consistent(g: Grid)
    requires IsGrid(g)
  {
    forall i, j, k, l ::
      InRange((i, j)) && InRange((k, l)) && Peers((i, j), (k, l)) && g[i][j] != Empty ==>
        g[i][j] != g[k][l]
  }

  /** A solved board: every cell filled and no two peers equal. */
  ghost predicate IsSolution(g: Grid)
  {
    IsGrid(g) && NoEmpty(g) && Consistent(g)
  }

  /** `get_row(grid, pos)`: the row of `pos`. */
  function GetRow(g: Grid, pos: Pos): (row: seq<char>)
    requires 0 <= pos.0 < |g|
    ensures |row| == |g[pos.0]|
    ensures forall j :: 0 <= j < |row| ==> row[j] == g[pos.0][j]
  {
    g[pos.0]
  }

  /** The column `col`, top to bottom: the value that `get_col` builds. */
  function Column(g: Grid, col: int): seq<char>
    requires 0 <= col && forall i :: 0 <= i < |g| ==> col < |g[i]|
  {
    seq(|g|, i requires 0 <= i < |g| => g[i][col])
  }

  /** `get_col(grid, pos)`: appends the `pos[1]`-th cell of every row in turn. */
  method GetCol(g: Grid, pos: Pos) returns (c: seq<char>)
    requires 0 <= pos.1 && forall i :: 0 <= i < |g| ==> pos.1 < |g[i]|
    ensures |c| == |g|
    ensures forall i :: 0 <= i < |g| ==> c[i] == g[i][pos.1]
    ensures c == Column(g, pos.1)
  {
    c := [];
    for i := 0 to |g|
      invariant |c| == i
      invariant forall k :: 0 <= k < i ==> c[k] == g[k][pos.1]
    {
      c := c + [g[i][pos.1]];
    }
  }

  /** `get_block(grid, pos)`: the nine cells of the block of `pos`, row by row. The block
      origin is chosen by comparing each coordinate with 3 and 6. */
  function GetBlock(g: Grid, pos: Pos): (block: seq<char>)
    requires IsGrid(g) && InRange(pos)
    ensures |block| == 9
    ensures forall t :: 0 <= t < 9 ==>
      block[t] == g[pos.0 / 3 * 3 + t / 3][pos.1 / 3 * 3 + t % 3]
  {
    var a := if pos.0 < 3 then 0 else if 3 <= pos.0 < 6 then 3 else 6;
    var b := if pos.1 < 3 then 0 else if 3 <= pos.1 < 6 then 3 else 6;
    assert a == pos.0 / 3 * 3 && b == pos.1 / 3 * 3;
    BlockSlices(g, a, b);
    g[a][b..b + 3] + g[a + 1][b..b + 3] + g[a + 2][b..b + 3]
  }

  /** The three slices of length 3 taken from rows `a`, `a + 1`, `a + 2` list the block with
      origin `(a, b)` row by row. */
  lemma BlockSlices(g: Grid, a: int, b: int)
    requires IsGrid(g) && 0 <= a <= 6 && 0 <= b <= 6
    ensures var block := g[a][b..b + 3] + g[a + 1][b..b + 3] + g[a + 2][b..b + 3];
      |block| == 9 && forall t :: 0 <= t < 9 ==> block[t] == g[a + t / 3][b + t % 3]
  {
    var r0, r1, r2 := g[a][b..b + 3], g[a + 1][b..b + 3], g[a + 2][b..b + 3];
    forall t | 0 <= t < 9 ensures (r0 + r1 + r2)[t] == g[a + t / 3][b + t % 3] {
      ThreeRows(r0, r1, r2, t);
      if t < 3 {
        assert t / 3 == 0 && t % 3 == t && r0[t] == g[a][b + t];
      } else if t < 6 {
        assert t / 3 == 1 && t % 3 == t - 3 && r1[t - 3] == g[a + 1][b + t - 3];
      } else {
        assert t / 3 == 2 && t % 3 == t - 6 && r2[t - 6] == g[a + 2][b + t - 6];
      }
    }
  }

  lemma ThreeRows(r0: seq<char>, r1: seq<char>, r2: seq<char>, t: int)
    requires |r0| == 3 && |r1| == 3 && |r2| == 3 && 0 <= t < 9
    ensures (r0 + r1 + r2)[t] == if t < 3 then r0[t] else if t < 6 then r1[t - 3] else r2[t - 6]
  {
  }

  /** Position `t` of a block listing is the cell `(t / 3, t % 3)` steps from its origin. */
  lemma BlockOffset(a: int, t: int)
    requires a % 3 == 0 && 0 <= t < 9
    ensures (a + t / 3) / 3 == a / 3
  {
    assert 0 <= t / 3 < 3;
  }

  /** The listing index of cell `(i, j)` inside its block. */
  lemma BlockIndex(i: int, j: int)
    requires InRange((i, j))
    ensures var t := i % 3 * 3 + j % 3;
      0 <= t < 9 && i / 3 * 3 + t / 3 == i && j / 3 * 3 + t % 3 == j
  {
    var t := i % 3 * 3 + j % 3;
    assert t / 3 == i % 3 && t % 3 == j % 3;
  }

  /** Every cell of the block of `pos` occurs in `GetBlock(g, pos)`. */
  lemma BlockHasCell(g: Grid, pos: Pos, i: int, j: int)
    requires IsGrid(g) && InRange(pos) && InRange((i, j)) && SameBlock((i, j), pos)
    ensures g[i][j] in GetBlock(g, pos)
  {
    BlockIndex(i, j);
    var t := i % 3 * 3 + j % 3;
    assert GetBlock(g, pos)[t] == g[i][j];
  }

  /** Every element of `GetBlock(g, pos)` lies in the block of `pos`. */
  lemma BlockCellInBlock(pos: Pos, t: int)
    requires InRange(pos) && 0 <= t < 9
    ensures var p := (pos.0 / 3 * 3 + t / 3, pos.1 / 3 * 3 + t % 3);
      InRange(p) && SameBlock(p, pos)
  {
    BlockOffset(pos.0 / 3 * 3, t);
    BlockOffset(pos.1 / 3 * 3, t);
  }

  /** The value `d` occurs in no cell that shares a row, a column or a block with `pos`
      (nor in `pos` itself). */
  ghost predicate Absent(g: Grid, pos: Pos, d: char)
    requires IsGrid(g)
  {
    forall i, j :: InRange((i, j)) && (i == pos.0 || j == pos.1 || SameBlock((i, j), pos)) ==>
      g[i][j] != d
  }

  /** The values `find_possible_values` takes away: those of the row, column and block. */
  function Used(g: Grid, pos: Pos): set<char>
    requires IsGrid(g) && InRange(pos)
  {
    (set x | x in GetRow(g, pos)) + (set x | x in Column(g, pos.1)) + (set x | x in GetBlock(g, pos))
  }

  lemma UsedIffPresent(g: Grid, pos: Pos, d: char)
    requires IsGrid(g) && InRange(pos)
    ensures d !in Used(g, pos) <==> Absent(g, pos, d)
  {
    if d !in Used(g, pos) {
      UnusedIsAbsent(g, pos, d);
    }
    if Absent(g, pos, d) {
      AbsentIsUnused(g, pos, d);
    }
  }

  lemma UnusedIsAbsent(g: Grid, pos: Pos, d: char)
    requires IsGrid(g) && InRange(pos) && d !in Used(g, pos)
    ensures Absent(g, pos, d)
  {
    forall i, j | InRange((i, j)) && (i == pos.0 || j == pos.1 || SameBlock((i, j), pos))
      ensures g[i][j] != d
    {
      if i == pos.0 {
        assert g[i][j] == GetRow(g, pos)[j];
      } else if j == pos.1 {
        assert g[i][j] == Column(g, pos.1)[i];
      } else {
        BlockHasCell(g, pos, i, j);
      }
    }
  }

  lemma AbsentIsUnused(g: Grid, pos: Pos, d: char)
    requires IsGrid(g) && InRange(pos) && Absent(g, pos, d)
    ensures d !in Used(g, pos)
  {
    var row, col, block := GetRow(g, pos), Column(g, pos.1), GetBlock(g, pos);
    forall t | 0 <= t < 9 ensures row[t] != d && col[t] != d && block[t] != d {
      BlockCellInBlock(pos, t);
      assert row[t] == g[pos.0][t];
      assert col[t] == g[t][pos.1];
    }
  }

  /** `find_possible_values(grid, pos)`: the digits minus everything in the row, the column
      and the block of `pos`. */
  function FindPossibleValues(g: Grid, pos: Pos): (values: set<char>)
    requires IsGrid(g) && InRange(pos)
    ensures values <= Digits && Empty !in values
    ensures forall d :: d in values <==> d in Digits && Absent(g, pos, d)
  {
    var values := Digits - Used(g, pos);
    assert forall d :: d in values <==> d in Digits && Absent(g, pos, d) by {
      forall d ensures d in values <==> d in Digits && Absent(g, pos, d) {
        UsedIffPresent(g, pos, d);
      }
    }
    values
  }

  /** `find_empty_positions(grid)`: the first row holding a '.', then the first '.' in it.
      When there is none, the column scan runs over the last row (`grid[-1]`) and finds
      nothing, and the answer is "no position". */
  method FindEmptyPositions(g: Grid) returns (found: Option<Pos>)
    requires |g| > 0
    ensures found.None? <==> forall i :: 0 <= i < |g| ==> Empty !in g[i]
    ensures found.Some? ==>
      var (r, c) := found.value;
      && 0 <= r < |g| && 0 <= c < |g[r]| && g[r][c] == Empty
      && (forall i :: 0 <= i < r ==> Empty !in g[i])
      && (forall j :: 0 <= j < c ==> g[r][j] != Empty)
  {
    var a := -1;
    var i := 0;
    while i < |g|
      invariant 0 <= i <= |g|
      invariant forall k :: 0 <= k < i ==> Empty !in g[k]
    {
      if Empty in g[i] {
        a := i;
        break;
      }
      i := i + 1;
    }
    assert a != -1 ==> 0 <= a < |g| && Empty in g[a] && forall k :: 0 <= k < a ==> Empty !in g[k];
    assert a == -1 ==> forall k :: 0 <= k < |g| ==> Empty !in g[k];
    var row := if a == -1 then |g| - 1 else a;
    var b := -1;
    var j := 0;
    while j < |g[row]|
      invariant 0 <= j <= |g[row]|
      invariant forall k :: 0 <= k < j ==> g[row][k] != Empty
    {
      if g[row][j] == Empty {
        b := j;
        break;
      }
      j := j + 1;
    }
    if a == -1 {
      found := None;
    } else {
      found := Some((a, b));
    }
  }

  /** The pairwise-distinct test of `check_solution`: a list is duplicate-free exactly when
      it has as many elements as the set of its elements. */
  predicate Distinct(s: seq<char>)
  {
    forall x, y :: 0 <= x < y < |s| ==> s[x] != s[y]
  }

  lemma {:induction false} DistinctIffSetSize(s: seq<char>)
    ensures |s| == |set x | x in s| <==> Distinct(s)
  {
    if s == [] {
      assert (set x | x in s) == {};
    } else {
      var t := s[1..];
      DistinctIffSetSize(t);
      SetSizeAtMost(t);
      assert (set x | x in s) == {s[0]} + (set x | x in t);
      if s[0] in t {
        assert (set x | x in s) == (set x | x in t);
        var y :| 0 <= y < |t| && t[y] == s[0];
        assert s[0] == s[y + 1];
      } else {
        assert |set x | x in s| == 1 + |set x | x in t|;
        if Distinct(t) {
          forall x, y | 0 <= x < y < |s| ensures s[x] != s[y] {
            if x > 0 { assert s[x] == t[x - 1] && s[y] == t[y - 1]; }
            else { assert s[y] in t; }
          }
        } else {
          var x, y :| 0 <= x < y < |t| && t[x] == t[y];
          assert s[x + 1] == s[y + 1];
        }
      }
    }
  }

  lemma {:induction false} SetSizeAtMost(s: seq<char>)
    ensures |set x | x in s| <= |s|
  {
    if s != [] {
      SetSizeAtMost(s[1..]);
      assert (set x | x in s) == {s[0]} + (set x | x in s[1..]);
    }
  }

  /** Row `k`, column `k` and block `k` (origin `(k / 3 * 3, k % 3 * 3)`) have no repeat. */
  predicate GroupDistinct(g: Grid, k: int)
    requires IsGrid(g) && 0 <= k < 9
  {
    && Distinct(GetRow(g, (k, 0)))
    && Distinct(Column(g, k))
    && Distinct(GetBlock(g, (k / 3 * 3, k % 3 * 3)))
  }

  /** Block `b` of `check_solution` lists the cells `(b / 3 * 3 + t / 3, b % 3 * 3 + t % 3)`. */
  lemma BlockListing(g: Grid, b: int, t: int)
    requires IsGrid(g) && 0 <= b < 9 && 0 <= t < 9
    ensures GetBlock(g, (b / 3 * 3, b % 3 * 3))[t] == g[b / 3 * 3 + t / 3][b % 3 * 3 + t % 3]
  {
    assert (b / 3 * 3) / 3 * 3 == b / 3 * 3;
    assert (b % 3 * 3) / 3 * 3 == b % 3 * 3;
  }

  /** The number of the block holding cell `(i, j)`. */
  lemma CellBlock(i: int, j: int)
    requires InRange((i, j))
    ensures var b := i / 3 * 3 + j / 3;
      0 <= b < 9 && b / 3 * 3 == i / 3 * 3 && b % 3 * 3 == j / 3 * 3
  {
    var b := i / 3 * 3 + j / 3;
    assert b / 3 == i / 3 && b % 3 == j / 3;
  }

  /** A distinct list differs at any two different indices. */
  lemma DistinctAt(s: seq<char>, x: int, y: int)
    requires Distinct(s) && 0 <= x < |s| && 0 <= y < |s| && x != y
    ensures s[x] != s[y]
  {
    if x > y { assert s[y] != s[x]; }
  }

  /** Cell `(k, l)` of the block of `(i, j)` sits at index `k % 3 * 3 + l % 3` of that
      block's listing. */
  lemma BlockOfCell(g: Grid, i: int, j: int, k: int, l: int)
    requires IsGrid(g) && 0 <= i < 9 && 0 <= j < 9 && 0 <= k < 9 && 0 <= l < 9
    requires i / 3 == k / 3 && j / 3 == l / 3
    ensures var t := k % 3 * 3 + l % 3;
      0 <= t < 9 && GetBlock(g, (i / 3 * 3, j / 3 * 3))[t] == g[k][l]
  {
    BlockIndex(k, l);
    var a, b := i / 3 * 3, j / 3 * 3;
    assert a / 3 == k / 3 && b / 3 == l / 3;
  }

  lemma BlockPeersDiffer(g: Grid, i: int, j: int, k: int, l: int)
    requires IsGrid(g) && 0 <= i < 9 && 0 <= j < 9 && 0 <= k < 9 && 0 <= l < 9
    requires (i != k || j != l) && i / 3 == k / 3 && j / 3 == l / 3
    requires Distinct(GetBlock(g, (i / 3 * 3, j / 3 * 3)))
    ensures g[i][j] != g[k][l]
  {
    var block := GetBlock(g, (i / 3 * 3, j / 3 * 3));
    var t, u := i % 3 * 3 + j % 3, k % 3 * 3 + l % 3;
    BlockOfCell(g, i, j, i, j);
    BlockOfCell(g, i, j, k, l);
    BlockIndexInjective(i, j, k, l);
    DistinctAt(block, t, u);
  }

  /** Two different cells of one block have different listing indices. */
  lemma BlockIndexInjective(i: int, j: int, k: int, l: int)
    requires 0 <= i < 9 && 0 <= j < 9 && 0 <= k < 9 && 0 <= l < 9
    requires (i != k || j != l) && i / 3 == k / 3 && j / 3 == l / 3
    ensures i % 3 * 3 + j % 3 != k % 3 * 3 + l % 3
  {
    assert i == i / 3 * 3 + i % 3 && k == k / 3 * 3 + k % 3;
    assert j == j / 3 * 3 + j % 3 && l == l / 3 * 3 + l % 3;
  }

  /** When all 27 groups are distinct, two peers never hold the same value. */
  lemma PeersDiffer(g: Grid, i: int, j: int, k: int, l: int)
    requires IsGrid(g) && forall b :: 0 <= b < 9 ==> GroupDistinct(g, b)
    requires InRange((i, j)) && InRange((k, l)) && Peers((i, j), (k, l))
    ensures g[i][j] != g[k][l]
  {
    if i == k {
      assert GroupDistinct(g, i);
      DistinctAt(GetRow(g, (i, 0)), j, l);
    } else if j == l {
      assert GroupDistinct(g, j);
      DistinctAt(Column(g, j), i, k);
    } else {
      var b := i / 3 * 3 + j / 3;
      CellBlock(i, j);
      assert GroupDistinct(g, b);
      BlockPeersDiffer(g, i, j, k, l);
    }
  }

  /** Two different listing indices of one block name two different cells of that block. */
  lemma BlockListingPeers(b: int, x: int, y: int)
    requires 0 <= b < 9 && 0 <= x < 9 && 0 <= y < 9 && x != y
    ensures var p := (b / 3 * 3 + x / 3, b % 3 * 3 + x % 3);
      var q := (b / 3 * 3 + y / 3, b % 3 * 3 + y % 3);
      InRange(p) && InRange(q) && Peers(p, q)
  {
    BlockOffset(b / 3 * 3, x);
    BlockOffset(b / 3 * 3, y);
    BlockOffset(b % 3 * 3, x);
    BlockOffset(b % 3 * 3, y);
  }

  lemma ConsistentAt(g: Grid, p: Pos, q: Pos)
    requires IsGrid(g) && Consistent(g) && InRange(p) && InRange(q) && Peers(p, q)
    requires g[p.0][p.1] != Empty
    ensures g[p.0][p.1] != g[q.0][q.1]
  {
  }

  lemma BlockDistinctOfConsistent(g: Grid, b: int)
    requires IsGrid(g) && Consistent(g) && NoEmpty(g) && 0 <= b < 9
    ensures Distinct(GetBlock(g, (b / 3 * 3, b % 3 * 3)))
  {
    var block := GetBlock(g, (b / 3 * 3, b % 3 * 3));
    forall x, y | 0 <= x < y < 9 ensures block[x] != block[y] {
      BlockListing(g, b, x);
      BlockListing(g, b, y);
      BlockListingPeers(b, x, y);
      ConsistentAt(g, (b / 3 * 3 + x / 3, b % 3 * 3 + x % 3), (b / 3 * 3 + y / 3, b % 3 * 3 + y % 3));
    }
  }

  /** On a board with no two equal peers, each of the 27 groups is distinct. */
  lemma GroupDistinctOfConsistent(g: Grid, b: int)
    requires IsGrid(g) && Consistent(g) && NoEmpty(g) && 0 <= b < 9
    ensures GroupDistinct(g, b)
  {
    var row := GetRow(g, (b, 0));
    forall x, y | 0 <= x < y < 9 ensures row[x] != row[y] {
      assert Peers((b, x), (b, y));
    }
    var col := Column(g, b);
    forall x, y | 0 <= x < y < 9 ensures col[x] != col[y] {
      assert Peers((x, b), (y, b));
    }
    BlockDistinctOfConsistent(g, b);
  }

  /** On a filled board, the 27 group tests of `check_solution` say exactly that no two
      peers are equal. */
  lemma GroupsDistinctIffConsistent(g: Grid)
    requires IsGrid(g) && NoEmpty(g)
    ensures (forall k :: 0 <= k < 9 ==> GroupDistinct(g, k)) <==> Consistent(g)
  {
    if forall k :: 0 <= k < 9 ==> GroupDistinct(g, k) {
      forall i, j, k, l | InRange((i, j)) && InRange((k, l)) && Peers((i, j), (k, l))
        ensures g[i][j] != g[k][l]
      {
        PeersDiffer(g, i, j, k, l);
      }
    }
    if Consistent(g) {
      forall b | 0 <= b < 9 ensures GroupDistinct(g, b) {
        GroupDistinctOfConsistent(g, b);
      }
    }
  }

  /** Round `i` of `check_solution` passes exactly when row, column and block `i` have no
      repeated value. */
  lemma RoundVerdict(g: Grid, i: int, a: seq<char>, b: seq<char>, c: seq<char>)
    requires IsGrid(g) && 0 <= i < 9
    requires a == GetRow(g, (i, 0)) && b == Column(g, i) && c == GetBlock(g, (i / 3 * 3, i % 3 * 3))
    ensures (|a| == |set x | x in a| && |b| == |set x | x in b| && |c| == |set x | x in c|) <==> GroupDistinct(g, i)
  {
    DistinctIffSetSize(a);
    DistinctIffSetSize(b);
    DistinctIffSetSize(c);
  }

  /** A board whose rows hold no '.' has no empty cell. */
  lemma NoEmptyOfRows(g: Grid)
    requires IsGrid(g) && forall i :: 0 <= i < |g| ==> Empty !in g[i]
    ensures NoEmpty(g)
  {
    forall i, j | 0 <= i < 9 && 0 <= j < 9 ensures g[i][j] != Empty {
      assert g[i][j] in g[i];
    }
  }

  /** One failed round is enough to reject the board. */
  lemma RoundFails(g: Grid, i: int)
    requires IsGrid(g) && NoEmpty(g) && 0 <= i < 9 && !GroupDistinct(g, i)
    ensures !IsSolution(g)
  {
    GroupsDistinctIffConsistent(g);
  }

  /** Rounds `0 .. n - 1` of `check_solution` have passed. */
  predicate RoundsPassed(g: Grid, n: int)
    requires IsGrid(g) && 0 <= n <= 9
    decreases n
  {
    n == 0 || (RoundsPassed(g, n - 1) && GroupDistinct(g, n - 1))
  }

  lemma {:induction false} RoundsPassedAll(g: Grid, n: int)
    requires IsGrid(g) && 0 <= n <= 9 && RoundsPassed(g, n)
    ensures forall k :: 0 <= k < n ==> GroupDistinct(g, k)
    decreases n
  {
    if n > 0 {
      RoundsPassedAll(g, n - 1);
    }
  }

  /** Nine passed rounds accept the board. */
  lemma RoundsPass(g: Grid)
    requires IsGrid(g) && NoEmpty(g) && RoundsPassed(g, 9)
    ensures IsSolution(g)
  {
    RoundsPassedAll(g, 9);
    GroupsDistinctIffConsistent(g);
  }

  /** `check_solution(solution)`: rejects a board with an empty cell, then tests the rows,
      columns and blocks in nine rounds, stopping at the first one with a repeated value. */
  method CheckSolution(solution: Grid) returns (ok: bool)
    requires IsGrid(solution)
    ensures ok <==> IsSolution(solution)
  {
    var empty := FindEmptyPositions(solution);
    if empty.Some? {
      assert solution[empty.value.0][empty.value.1] == Empty;
      return false;
    }
    NoEmptyOfRows(solution);
    for i := 0 to 9
      invariant RoundsPassed(solution, i)
    {
      var a := GetRow(solution, (i, 0));
      var b := GetCol(solution, (0, i));
      var c := GetBlock(solution, (i / 3 * 3, i % 3 * 3));
      RoundVerdict(solution, i, a, b, c);
      if |a| == |set x | x in a| && |b| == |set x | x in b| && |c| == |set x | x in c| {
      } else {
        RoundFails(solution, i);
        return false;
      }
    }
    RoundsPass(solution);
    return true;
  }
}
