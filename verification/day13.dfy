/** Day 13: mirrors in patterns of ash and rocks. A line between two rows is a
    reflection line when the rows mirrored around it differ in exactly the expected number
    of cells: 0 for part one, 1 (the smudge) for part two. */
module Day13 {
  import opened Wrappers
  import opened Text

  type Grid = seq<seq<char>>

  function Min(a: nat, b: nat): nat {
    if a < b then a else b
  }

  /** `distance`: the positions, over the zipped length, where two rows differ. */
  function Distance(a: seq<char>, b: seq<char>): nat {
    if |a| == 0 || |b| == 0 then 0
    else (if a[0] != b[0] then 1 else 0) + Distance(a[1..], b[1..])
  }

  /** The distance counts the differing positions: it is 0 exactly when the rows agree
      on their common length, and it never exceeds that length. */
  lemma {:induction false} DistanceSpec(a: seq<char>, b: seq<char>)
    ensures Distance(a, b) <= Min(|a|, |b|)
    ensures Distance(a, b) == 0 <==> a[..Min(|a|, |b|)] == b[..Min(|a|, |b|)]
  {
    if |a| > 0 && |b| > 0 {
      DistanceSpec(a[1..], b[1..]);
      var m := Min(|a|, |b|);
      assert a[1..][..m - 1] == a[1..m] && b[1..][..m - 1] == b[1..m];
      if a[..m] == b[..m] {
        assert a[0] == a[..m][0] && b[0] == b[..m][0];
        assert a[1..m] == a[..m][1..] && b[1..m] == b[..m][1..];
      }
      if a[0] == b[0] && a[1..m] == b[1..m] {
        assert a[..m] == [a[0]] + a[1..m] && b[..m] == [b[0]] + b[1..m];
      }
    }
  }

  /** The distance does not depend on the order of the rows. */
  lemma {:induction false} DistanceSymmetric(a: seq<char>, b: seq<char>)
    ensures Distance(a, b) == Distance(b, a)
  {
    if |a| > 0 && |b| > 0 {
      DistanceSymmetric(a[1..], b[1..]);
    }
  }

  /** The summed distances of the row pairs mirrored around `line`, nearest first
      (`rev` on the rows before, `zip` with the rows after). */
  function MirrorSum(grid: Grid, line: nat, k: nat): nat
    requires line <= |grid|
    decreases Min(line, |grid| - line) - k
  {
    if k >= Min(line, |grid| - line) then 0
    else Distance(grid[line - 1 - k], grid[line + k]) + MirrorSum(grid, line, k + 1)
  }

  /** `is_reflection_line`. Slicing `map[0..line]` demands `line <= len`. */
  predicate IsReflectionLine(grid: Grid, line: nat, expected: nat)
    requires line <= |grid|
  {
    MirrorSum(grid, line, 0) == expected
  }

  /** The row pair at distance `k` from `line` agrees on its common length. */
  predicate PairAgrees(grid: Grid, line: nat, k: nat)
    requires k < line <= |grid| && line + k < |grid|
  {
    Distance(grid[line - 1 - k], grid[line + k]) == 0
  }

  /** A perfect reflection line (distance 0) is a mirror: every row pair mirrored around
      it agrees on its common length. */
  lemma PerfectReflection(grid: Grid, line: nat)
    requires line <= |grid|
    ensures IsReflectionLine(grid, line, 0) <==>
              forall k :: 0 <= k < Min(line, |grid| - line) ==> PairAgrees(grid, line, k)
  {
    MirrorSumZero(grid, line, 0);
  }

  lemma {:induction false} MirrorSumZero(grid: Grid, line: nat, from: nat)
    requires line <= |grid|
    ensures MirrorSum(grid, line, from) == 0 <==>
              forall k :: from <= k < Min(line, |grid| - line) ==> PairAgrees(grid, line, k)
    decreases Min(line, |grid| - line) - from
  {
    if from < Min(line, |grid| - line) {
      MirrorSumZero(grid, line, from + 1);
      assert PairAgrees(grid, line, from) <==> Distance(grid[line - 1 - from], grid[line + from]) == 0;
    }
  }

  /** The first line in `[from, end)` that is a reflection line, if any (`find`). */
  function FindLine(grid: Grid, from: nat, end: nat, expected: nat): (r: Option<nat>)
    requires end <= |grid|
    decreases end - from
  {
    if from >= end then None
    else if IsReflectionLine(grid, from, expected) then Some(from)
    else FindLine(grid, from + 1, end, expected)
  }

  /** `l` is the least reflection line in `[from, end)`. */
  predicate IsFirstLine(grid: Grid, from: nat, end: nat, expected: nat, l: nat)
    requires end <= |grid|
  {
    && from <= l < end
    && IsReflectionLine(grid, l, expected)
    && forall l' :: from <= l' < l ==> !IsReflectionLine(grid, l', expected)
  }

  /** No line in `[from, end)` is a reflection line. */
  predicate NoLine(grid: Grid, from: nat, end: nat, expected: nat)
    requires end <= |grid|
  {
    forall l :: from <= l < end ==> !IsReflectionLine(grid, l, expected)
  }

  /** `find` returns the least reflection line of the range, and `None` only when the
      range has none. */
  lemma {:induction false} FindLineSpec(grid: Grid, from: nat, end: nat, expected: nat)
    requires end <= |grid|
    ensures var r := FindLine(grid, from, end, expected);
            && (r.Some? ==> IsFirstLine(grid, from, end, expected, r.value))
            && (r.None? <==> NoLine(grid, from, end, expected))
    decreases end - from
  {
    if from < end && !IsReflectionLine(grid, from, expected) {
      FindLineSpec(grid, from + 1, end, expected);
    }
  }

  /** Every row is at least as long as the first, so that `map[y][x]` exists for every
      column `x` of the first row. */
  predicate WideRows(grid: Grid) {
    |grid| >= 1 && forall y :: 0 <= y < |grid| ==> |grid[y]| >= |grid[0]|
  }

  /** `transposed`: column `x` of the grid, for every `x` of the first row. */
  function Transposed(grid: Grid): (t: Grid)
    requires WideRows(grid)
    ensures |t| == |grid[0]|
    ensures forall x :: 0 <= x < |t| ==> |t[x]| == |grid|
    ensures forall x, y :: 0 <= x < |t| && 0 <= y < |grid| ==> t[x][y] == grid[y][x]
  {
    seq(|grid[0]|, x requires 0 <= x < |grid[0]| => seq(|grid|, y requires 0 <= y < |grid| => grid[y][x]))
  }

  predicate Rectangular(grid: Grid) {
    |grid| >= 1 && |grid[0]| >= 1 && forall y :: 0 <= y < |grid| ==> |grid[y]| == |grid[0]|
  }

  /** On a rectangular grid, transposing twice gives the grid back. */
  lemma TransposedInvolution(grid: Grid)
    requires Rectangular(grid)
    ensures WideRows(Transposed(grid)) && Transposed(Transposed(grid)) == grid
  {
    var t := Transposed(grid);
    var tt := Transposed(t);
    assert |tt| == |grid|;
    forall y | 0 <= y < |grid| ensures tt[y] == grid[y] {
      assert |tt[y]| == |grid[y]|;
    }
  }

  /** `value`: 100 times the first horizontal reflection line, otherwise the first
      reflection line of the transposed grid; `None` where the source panics (no grid
      row to transpose, or no line at all). */
  function Value(grid: Grid, expected: nat): (r: Option<nat>)
  {
    match FindLine(grid, 1, |grid|, expected)
    case Some(row) => Some(100 * row)
    case None =>
      if !WideRows(grid) then None
      else
        var t := Transposed(grid);
        FindLine(t, 1, |t|, expected)
  }

  /** What `value` promises: 100 times the least horizontal line; when there is none,
      the least vertical line; when there is neither, a panic. */
  lemma ValueSpec(grid: Grid, expected: nat)
    requires WideRows(grid)
    ensures var r := Value(grid, expected);
            var t := Transposed(grid);
            && (forall row: nat :: IsFirstLine(grid, 1, |grid|, expected, row) ==> r == Some(100 * row))
            && (NoLine(grid, 1, |grid|, expected) ==>
                  && (forall col: nat :: IsFirstLine(t, 1, |t|, expected, col) ==> r == Some(col))
                  && (r.None? <==> NoLine(t, 1, |t|, expected)))
  {
    FindLineSpec(grid, 1, |grid|, expected);
    var t := Transposed(grid);
    FindLineSpec(t, 1, |t|, expected);
    forall row: nat | IsFirstLine(grid, 1, |grid|, expected, row)
      ensures FindLine(grid, 1, |grid|, expected) == Some(row)
    {
      FirstLineUnique(grid, 1, |grid|, expected, row);
    }
    forall col: nat | IsFirstLine(t, 1, |t|, expected, col)
      ensures FindLine(t, 1, |t|, expected) == Some(col)
    {
      FirstLineUnique(t, 1, |t|, expected, col);
    }
  }

  /** The least reflection line is the one `find` returns. */
  lemma FirstLineUnique(grid: Grid, from: nat, end: nat, expected: nat, l: nat)
    requires end <= |grid|
    requires IsFirstLine(grid, from, end, expected, l)
    ensures FindLine(grid, from, end, expected) == Some(l)
  {
    FindLineSpec(grid, from, end, expected);
  }

  /** `get_solution`: the values summed over the grids, part `p` expecting distance
      `p - 1`; a panic for one grid is a panic for all. */
  function Solution(grids: seq<Grid>, part: nat): (r: Option<nat>)
    requires part >= 1
  {
    if |grids| == 0 then Some(0)
    else match (Value(grids[0], part - 1), Solution(grids[1..], part))
      case (Some(v), Some(rest)) => Some(v + rest)
      case _ => None
  }

  /** `parse_input`: grids separated by blank lines, each a list of rows. */
  function ParseInput(input: string): (grids: seq<Grid>)
    ensures |grids| >= 1
  {
    var blocks := Split(input, "\n\n");
    seq(|blocks|, k requires 0 <= k < |blocks| => Lines(blocks[k]))
  }

  /** Maps of non-empty rows, written one row per line with a blank line between maps,
      are read back as themselves. */
  lemma ParseInputRendered(grids: seq<Grid>)
    requires |grids| >= 1 && forall k :: 0 <= k < |grids| ==> |grids[k]| >= 1
    requires forall k, y :: 0 <= k < |grids| && 0 <= y < |grids[k]| ==>
      |grids[k][y]| > 0 && '\n' !in grids[k][y]
    ensures ParseInput(Paragraphs(grids)) == grids
  {
    ParagraphsRendered(grids);
  }

  function ExampleGrid2(): Grid {
    [ "#...##..#",
      "#....#..#",
      "..##..###",
      "#####.##.",
      "#####.##.",
      "..##..###",
      "#....#..#" ]
  }

  /** The second example grid reflects perfectly across the line after its fourth row,
      worth 400. */
  lemma ExampleReflection()
    ensures IsReflectionLine(ExampleGrid2(), 4, 0)
  {
  }

  /** The lines after its first three rows are no reflection lines. */
  lemma ExampleNoEarlierReflection()
    ensures !IsReflectionLine(ExampleGrid2(), 1, 0)
    ensures !IsReflectionLine(ExampleGrid2(), 2, 0)
    ensures !IsReflectionLine(ExampleGrid2(), 3, 0)
  {
  }

  lemma ExampleValue2()
    ensures Value(ExampleGrid2(), 0) == Some(400)
  {
    var g := ExampleGrid2();
    ExampleNoEarlierReflection();
    ExampleReflection();
    assert FindLine(g, 1, 7, 0) == Some(4);
  }

  /** With one smudge, the second example grid reflects across the line after its first
      row, worth 100. */
  lemma ExampleSmudge2()
    ensures Value(ExampleGrid2(), 1) == Some(100)
  {
    assert IsReflectionLine(ExampleGrid2(), 1, 1);
  }
}
