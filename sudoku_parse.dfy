/** Turning puzzle text into a grid: `group` and `create_grid` of homework02/sudoku.py. */
module SudokuParse {

  /** The concatenation of a list of chunks, first chunk first. */
  function Flatten<T>(chunks: seq<seq<T>>): seq<T>
  {
    if |chunks| == 0 then [] else chunks[0] + Flatten(chunks[1..])
  }

  lemma {:induction false} FlattenAppend<T>(chunks: seq<seq<T>>, m: seq<T>)
    ensures Flatten(chunks + [m]) == Flatten(chunks) + m
  {
    if chunks == [] {
      assert [m][1..] == [];
    } else {
      assert (chunks + [m])[1..] == chunks[1..] + [m];
      FlattenAppend(chunks[1..], m);
    }
  }

  /** `chunks` cuts `values` into pieces of `n`: every piece but the last has exactly `n`
      elements and the last one is non-empty and has at most `n`. */
  ghost predicate IsGrouping<T>(values: seq<T>, n: int, chunks: seq<seq<T>>)
  {
    && Flatten(chunks) == values
    && (forall k :: 0 <= k < |chunks| - 1 ==> |chunks[k]| == n)
    && (chunks != [] ==> 0 < |chunks[|chunks| - 1]| <= n)
  }

  /** The chunks of `values`, `n` at a time, as a function. */
  function Chunks<T>(values: seq<T>, n: int): seq<seq<T>>
    requires n > 0
    decreases |values|
  {
    if |values| == 0 then []
    else if |values| <= n then [values]
    else [values[..n]] + Chunks(values[n..], n)
  }

  lemma {:induction false} ChunksIsGrouping<T>(values: seq<T>, n: int)
    requires n > 0
    ensures IsGrouping(values, n, Chunks(values, n))
    decreases |values|
  {
    if values == [] {
    } else if |values| <= n {
      assert Flatten([values]) == values + Flatten([values][1..]);
      assert [values][1..] == [];
    } else {
      var rest := values[n..];
      var tail := Chunks(rest, n);
      ChunksIsGrouping(rest, n);
      var cs := Chunks(values, n);
      assert cs == [values[..n]] + tail;
      assert cs[1..] == tail;
      assert tail != [] by {
        assert Flatten(tail) == rest;
      }
      assert Flatten(cs) == values[..n] + rest;
      assert values[..n] + rest == values;
    }
  }

  /** Any grouping of `values` into pieces of `n` is the one `Chunks` computes. */
  lemma {:induction false} GroupingIsChunks<T>(values: seq<T>, n: int, chunks: seq<seq<T>>)
    requires n > 0
    requires IsGrouping(values, n, chunks)
    ensures chunks == Chunks(values, n)
    decreases |values|
  {
    if chunks == [] {
      assert values == [];
    } else {
      var first, rest := chunks[0], chunks[1..];
      assert Flatten(chunks) == first + Flatten(rest);
      if |chunks| == 1 {
        assert rest == [];
        assert values == first;
      } else {
        assert |first| == n;
        assert |Flatten(rest)| > 0 by {
          assert Flatten(rest) == rest[0] + Flatten(rest[1..]);
          assert rest[0] == chunks[1];
        }
        assert values[..n] == first;
        assert values[n..] == Flatten(rest);
        assert IsGrouping(values[n..], n, rest) by {
          forall k | 0 <= k < |rest| - 1 ensures |rest[k]| == n {
            assert rest[k] == chunks[k + 1];
          }
          assert rest[|rest| - 1] == chunks[|chunks| - 1];
        }
        GroupingIsChunks(values[n..], n, rest);
        assert chunks == [first] + rest;
      }
    }
  }

  /** The state of `group` after reading `idx` elements: the closed chunks `c` followed by
      the open chunk `m` spell out the prefix read so far; closed chunks are full except
      possibly the very last one of the input, and the open chunk holds `idx % n` elements. */
  ghost predicate GroupState<T>(values: seq<T>, n: int, idx: int, c: seq<seq<T>>, m: seq<T>)
  {
    && n > 0
    && 0 <= idx <= |values|
    && Flatten(c) + m == values[..idx]
    && (forall k :: 0 <= k < |c| - 1 ==> |c[k]| == n)
    && (c != [] ==> 0 < |c[|c| - 1]| <= n)
    && (idx < |values| ==> |m| == idx % n && (c != [] ==> |c[|c| - 1]| == n))
    && (idx == |values| ==> m == [])
  }

  /** Reading one more element keeps the state, whether or not it closes the chunk. */
  lemma GroupStep<T>(values: seq<T>, n: int, idx: int, c: seq<seq<T>>, m: seq<T>)
    requires n > 0 && idx < |values| && GroupState(values, n, idx, c, m)
    ensures var m' := m + [values[idx]];
      if (idx + 1) % n == 0 || idx + 1 == |values| then GroupState(values, n, idx + 1, c + [m'], [])
      else GroupState(values, n, idx + 1, c, m')
  {
    var m' := m + [values[idx]];
    assert Flatten(c) + m' == values[..idx + 1] by {
      assert values[..idx + 1] == values[..idx] + [values[idx]];
    }
    ModSuccessor(idx, n);
    if (idx + 1) % n == 0 || idx + 1 == |values| {
      FlattenAppend(c, m');
      assert Flatten(c + [m']) + [] == values[..idx + 1];
      assert |m'| <= n;
    } else {
      assert |m'| == (idx + 1) % n;
    }
  }

  /** `group(values, n)`: walks `values` once, counting elements in `b`, and closes the
      current chunk when `b` is a multiple of `n` or the last element has been taken. */
  method Group<T>(values: seq<T>, n: int) returns (c: seq<seq<T>>)
    requires n > 0
    ensures IsGrouping(values, n, c)
    ensures c == Chunks(values, n)
  {
    c := [];
    var m: seq<T> := [];
    var b := 0;
    for idx := 0 to |values|
      invariant b == idx
      invariant GroupState(values, n, idx, c, m)
    {
      GroupStep(values, n, idx, c, m);
      var x := values[idx];
      b := b + 1;
      m := m + [x];
      if b % n == 0 || b == |values| {
        c := c + [m];
        m := [];
      }
    }
    assert values[..|values|] == values;
    GroupingIsChunks(values, n, c);
  }

  lemma ModSuccessor(b: int, n: int)
    requires b >= 0 && n > 0
    ensures (b + 1) % n == if b % n + 1 == n then 0 else b % n + 1
  {
    var q := b / n;
    assert b == q * n + b % n;
    if b % n + 1 == n {
      assert b + 1 == (q + 1) * n + 0;
      ModUnique(b + 1, n, q + 1, 0);
    } else {
      ModUnique(b + 1, n, q, b % n + 1);
    }
  }

  /** Euclidean remainders are unique. */
  lemma ModUnique(x: int, n: int, q: int, r: int)
    requires n > 0 && 0 <= r < n && x == q * n + r
    ensures x % n == r
  {
    var d := q - x / n;
    assert x == (x / n) * n + x % n;
    assert d * n == x % n - r;
  }

  /** Every multiple of `n` elements splits into that many full chunks. */
  lemma {:induction false} ChunksOfMultiple<T>(values: seq<T>, n: int, k: nat)
    requires n > 0 && |values| == n * k
    ensures |Chunks(values, n)| == k
    ensures forall i :: 0 <= i < k ==> |Chunks(values, n)[i]| == n
    decreases k
  {
    if k == 0 {
    } else if k == 1 {
    } else {
      assert |values[n..]| == n * (k - 1);
      ChunksOfMultiple(values[n..], n, k - 1);
      var cs := Chunks(values, n);
      assert cs == [values[..n]] + Chunks(values[n..], n);
    }
  }

  /** The characters a puzzle file may use: the nine digits and `.` for an empty cell. */
  const PuzzleChars: string := "123456789."

  /** The characters of `puzzle` that are digits 1-9 or `.`, in their original order. */
  function KeepPuzzleChars(puzzle: string): (kept: string)
    ensures |kept| <= |puzzle|
    ensures (forall i :: 0 <= i < |puzzle| ==> puzzle[i] in PuzzleChars) ==> kept == puzzle
  {
    if puzzle == [] then []
    else (if puzzle[0] in PuzzleChars then [puzzle[0]] else []) + KeepPuzzleChars(puzzle[1..])
  }

  /** Each puzzle character is kept as often as it occurs, and every other character is
      dropped. */
  lemma {:induction false} KeepPuzzleCharsCounts(puzzle: string, ch: char)
    ensures multiset(KeepPuzzleChars(puzzle))[ch] == if ch in PuzzleChars then multiset(puzzle)[ch] else 0
  {
    if puzzle != [] {
      assert puzzle == [puzzle[0]] + puzzle[1..];
      KeepPuzzleCharsCounts(puzzle[1..], ch);
    }
  }

  /** Filtering text piece by piece gives the same as filtering it whole: the kept
      characters keep their order. */
  lemma {:induction false} KeepPuzzleCharsAppend(s: string, t: string)
    ensures KeepPuzzleChars(s + t) == KeepPuzzleChars(s) + KeepPuzzleChars(t)
  {
    if s == [] {
      assert s + t == t;
    } else {
      var r := s[1..];
      assert s == [s[0]] + r;
      assert s + t == [s[0]] + (r + t);
      KeepPuzzleCharsCons(s[0], r);
      KeepPuzzleCharsCons(s[0], r + t);
      KeepPuzzleCharsAppend(r, t);
    }
  }

  lemma KeepPuzzleCharsCons(c: char, rest: string)
    ensures KeepPuzzleChars([c] + rest) == (if c in PuzzleChars then [c] else []) + KeepPuzzleChars(rest)
  {
    assert ([c] + rest)[1..] == rest;
  }

  /** `create_grid(puzzle)`: keep the puzzle characters and cut them into rows of 9. */
  function CreateGrid(puzzle: string): (grid: seq<seq<char>>)
    ensures IsGrouping(KeepPuzzleChars(puzzle), 9, grid)
    ensures |KeepPuzzleChars(puzzle)| == 81 ==>
      |grid| == 9 && forall r :: 0 <= r < 9 ==> |grid[r]| == 9
  {
    var digits := KeepPuzzleChars(puzzle);
    ChunksIsGrouping(digits, 9);
    if |digits| == 81 then ChunksOfMultiple(digits, 9, 9); Chunks(digits, 9)
    else Chunks(digits, 9)
  }
}
