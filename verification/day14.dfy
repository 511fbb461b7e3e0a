/** Day 14: a platform of round rocks (`O`), cube rocks (`#`) and empty ground (`.`),
    tilted north. Each round rock, visited row by row from the top, rolls up through empty
    ground until it meets something else or the north edge. The columns do not interact,
    so the model states the tilt one column at a time. */
module Day14 {
  import opened Wrappers
  import opened Text

  type Grid = seq<seq<char>>

  /** Cells a round rock can leave or enter; everything else stays put. */
  predicate IsMovable(ch: char) {
    ch == 'O' || ch == '.'
  }

  /** The `while` loop of `roll_north`: from `p`, climb while the cell above is empty. */
  function Slide(col: seq<char>, p: nat): (top: nat)
    requires p <= |col|
    ensures top <= p
    ensures forall q :: top <= q < p ==> col[q] == '.'
    ensures top == 0 || col[top - 1] != '.'
  {
    if p > 0 && col[p - 1] == '.' then Slide(col, p - 1) else p
  }

  /** The body of `roll_north` for the cell at row `y` of one column. */
  function Step(col: seq<char>, y: nat): seq<char>
    requires y < |col|
  {
    if col[y] == 'O' then
      var lifted := col[y := '.'];
      lifted[Slide(lifted, y) := 'O']
    else col
  }

  /** The column after the cells of its first `n` rows have been visited. */
  function State(col: seq<char>, n: nat): (s: seq<char>)
    requires n <= |col|
    ensures |s| == |col|
  {
    if n == 0 then col else Step(State(col, n - 1), n - 1)
  }

  /** One column tilted north. */
  function Roll(col: seq<char>): (r: seq<char>)
    ensures |r| == |col|
  {
    State(col, |col|)
  }

  /** No round rock among the first `n` cells has empty ground right above it. */
  predicate SettledUpTo(col: seq<char>, n: nat)
    requires n <= |col|
  {
    forall i :: 1 <= i < n ==> !(col[i] == 'O' && col[i - 1] == '.')
  }

  /** No round rock can roll any further. */
  predicate Settled(col: seq<char>) {
    SettledUpTo(col, |col|)
  }

  /** Visiting row `y` keeps the rows below untouched, settles one more row, moves rocks
      only by exchanging them with empty ground, and leaves every other cell alone. */
  lemma StepSpec(col: seq<char>, y: nat)
    requires y < |col| && SettledUpTo(col, y)
    ensures var e := Step(col, y);
            && |e| == |col|
            && e[y + 1..] == col[y + 1..]
            && SettledUpTo(e, y + 1)
            && multiset(e) == multiset(col)
            && (forall i :: 0 <= i < |col| && !IsMovable(col[i]) ==> e[i] == col[i])
            && (forall i :: 0 <= i < |col| ==> (IsMovable(e[i]) <==> IsMovable(col[i])))
  {
    if col[y] == 'O' {
      var lifted := col[y := '.'];
      var p := Slide(lifted, y);
      var e := lifted[p := 'O'];
      assert Step(col, y) == e;
      if p == y {
        assert e == col;
      } else {
        assert lifted[p] == '.';
        SwapKeepsMultiset(col, p, y);
        StepSettles(col, y, p);
      }
    }
  }

  /** Exchanging two cells keeps the multiset of cells. */
  lemma SwapKeepsMultiset(s: seq<char>, i: nat, j: nat)
    requires i < j < |s|
    ensures multiset(s[j := s[i]][i := s[j]]) == multiset(s)
  {
    var t := s[j := s[i]];
    assert multiset(t) == multiset(s) - multiset{s[j]} + multiset{s[i]};
    assert t[i] == s[i];
    assert multiset(t[i := s[j]]) == multiset(t) - multiset{s[i]} + multiset{s[j]};
  }

  /** A rock lifted from `y` to the top `p` of the empty run above it settles one more row. */
  lemma StepSettles(col: seq<char>, y: nat, p: nat)
    requires y < |col| && SettledUpTo(col, y) && col[y] == 'O'
    requires p == Slide(col[y := '.'], y) && p < y
    ensures SettledUpTo(col[y := '.'][p := 'O'], y + 1)
  {
    var lifted := col[y := '.'];
    var e := lifted[p := 'O'];
    forall i | 1 <= i < y + 1
      ensures !(e[i] == 'O' && e[i - 1] == '.')
    {
      if i < p {
        assert e[i] == col[i] && e[i - 1] == col[i - 1];
      } else if i > p {
        assert e[i] == '.';
      }
    }
  }

  /** What holds after the first `n` rows of a column have been visited. */
  lemma {:induction false} StateSpec(col: seq<char>, n: nat)
    requires n <= |col|
    ensures var s := State(col, n);
            && s[n..] == col[n..]
            && SettledUpTo(s, n)
            && multiset(s) == multiset(col)
            && (forall i :: 0 <= i < |col| && !IsMovable(col[i]) ==> s[i] == col[i])
            && (forall i :: 0 <= i < |col| ==> (IsMovable(s[i]) <==> IsMovable(col[i])))
  {
    if n > 0 {
      StateUnfold(col, n);
      hide *;
      StateSpec(col, n - 1);
      var s := State(col, n - 1);
      StepSpec(s, n - 1);
      assert s[n..] == s[n - 1..][1..];
      assert col[n..] == col[n - 1..][1..];
    }
  }

  lemma StateUnfold(col: seq<char>, n: nat)
    requires 0 < n <= |col|
    ensures State(col, n) == Step(State(col, n - 1), n - 1)
  {
  }

  /** A tilted column has no round rock above empty ground, holds the same tiles, and
      has its cube rocks exactly where they were. */
  lemma RollSpec(col: seq<char>)
    ensures Settled(Roll(col))
    ensures multiset(Roll(col)) == multiset(col)
    ensures forall i :: 0 <= i < |col| && !IsMovable(col[i]) ==> Roll(col)[i] == col[i]
    ensures forall i :: 0 <= i < |col| ==> (IsMovable(Roll(col)[i]) <==> IsMovable(col[i]))
  {
    StateSpec(col, |col|);
  }

  /** On a settled column every visit leaves the column as it is. */
  lemma {:induction false} SettledStays(col: seq<char>, n: nat)
    requires n <= |col| && Settled(col)
    ensures State(col, n) == col
  {
    if n > 0 {
      SettledStays(col, n - 1);
      var y := n - 1;
      if col[y] == 'O' {
        var lifted := col[y := '.'];
        assert y == 0 || lifted[y - 1] == col[y - 1];
        assert Slide(lifted, y) == y;
        assert lifted[y := 'O'] == col;
      }
    }
  }

  /** Tilting a second time changes nothing. */
  lemma RollIdempotent(col: seq<char>)
    ensures Roll(Roll(col)) == Roll(col)
  {
    RollSpec(col);
    SettledStays(Roll(col), |col|);
  }

  /** Every row reaches at least as far as the first row, whose length `roll_north` uses
      as the width. */
  predicate WideRows(grid: Grid) {
    forall y :: 0 <= y < |grid| ==> |grid[y]| >= |grid[0]|
  }

  function Width(grid: Grid): nat {
    if |grid| == 0 then 0 else |grid[0]|
  }

  /** Column `x` read from top to bottom. */
  function Column(grid: Grid, x: nat): (col: seq<char>)
    requires forall y :: 0 <= y < |grid| ==> x < |grid[y]|
    ensures |col| == |grid|
    ensures forall y :: 0 <= y < |grid| ==> col[y] == grid[y][x]
  {
    seq(|grid|, y requires 0 <= y < |grid| => grid[y][x])
  }

  /** The same shape: as many rows, each as long. */
  predicate SameShape(a: Grid, b: Grid) {
    |a| == |b| && forall y :: 0 <= y < |a| ==> |a[y]| == |b[y]|
  }

  /** `roll_north` applied to the cell at row `y` and column `x`. */
  method RollCell(grid: Grid, y: nat, x: nat) returns (result: Grid)
    requires y < |grid| && forall y' :: 0 <= y' < |grid| ==> x < |grid[y']|
    ensures SameShape(result, grid)
    ensures Column(result, x) == Step(Column(grid, x), y)
    ensures forall y', x' :: 0 <= y' < |grid| && 0 <= x' < |grid[y']| && x' != x ==> result[y'][x'] == grid[y'][x']
  {
    result := grid;
    if result[y][x] == 'O' {
      result := result[y := result[y][x := '.']];
      ghost var lifted := Column(result, x);
      assert lifted == Column(grid, x)[y := '.'];
      var p := y;
      while p > 0 && result[p - 1][x] == '.'
        invariant p <= y
        invariant Slide(lifted, p) == Slide(lifted, y)
      {
        p := p - 1;
      }
      result := result[p := result[p][x := 'O']];
      assert Column(result, x) == lifted[p := 'O'];
    }
  }

  /** `roll_north`: the rows visited from the top, each from the left, up to the width of
      the first row. It panics (`None`) exactly when a row is shorter than the first, at
      that row's first missing cell; rows above it were all wide enough. */
  method RollNorth(grid: Grid) returns (result: Option<Grid>)
    ensures result.None? <==> !WideRows(grid)
    ensures result.Some? ==> SameShape(result.value, grid)
    ensures result.Some? ==> forall x :: 0 <= x < Width(grid) ==> Column(result.value, x) == Roll(Column(grid, x))
    ensures result.Some? ==> forall y, x :: 0 <= y < |grid| && Width(grid) <= x < |grid[y]| ==> result.value[y][x] == grid[y][x]
  {
    if !WideRows(grid) {
      return None;
    }
    var rolled := RollWide(grid);
    return Some(rolled);
  }

  /** `roll_north` on a map whose rows are all at least as wide as the first. Every
      column of the width is tilted on its own; cells of longer rows beyond the width
      stay. */
  method RollWide(grid: Grid) returns (result: Grid)
    requires WideRows(grid)
    ensures SameShape(result, grid)
    ensures forall x :: 0 <= x < Width(grid) ==> Column(result, x) == Roll(Column(grid, x))
    ensures forall y, x :: 0 <= y < |grid| && Width(grid) <= x < |grid[y]| ==> result[y][x] == grid[y][x]
  {
    result := grid;
    var w := Width(grid);
    for y := 0 to |grid|
      invariant SameShape(result, grid)
      invariant forall x :: 0 <= x < w ==> Column(result, x) == State(Column(grid, x), y)
      invariant forall y', x :: 0 <= y' < |grid| && w <= x < |grid[y']| ==> result[y'][x] == grid[y'][x]
    {
      result := RollRow(grid, result, y);
    }
  }

  /** One row of `roll_north`: every cell of the width, from the left. Each column takes
      one more visit; cells beyond the width stay. */
  method RollRow(grid: Grid, current: Grid, y: nat) returns (result: Grid)
    requires WideRows(grid) && y < |grid| && SameShape(current, grid)
    requires forall x :: 0 <= x < Width(grid) ==> Column(current, x) == State(Column(grid, x), y)
    requires forall y', x :: 0 <= y' < |grid| && Width(grid) <= x < |grid[y']| ==> current[y'][x] == grid[y'][x]
    ensures SameShape(result, grid)
    ensures forall x :: 0 <= x < Width(grid) ==> Column(result, x) == State(Column(grid, x), y + 1)
    ensures forall y', x :: 0 <= y' < |grid| && Width(grid) <= x < |grid[y']| ==> result[y'][x] == grid[y'][x]
  {
    result := current;
    var w := Width(grid);
    for x := 0 to w
      invariant SameShape(result, grid)
      invariant forall x' :: 0 <= x' < x ==> Column(result, x') == State(Column(grid, x'), y + 1)
      invariant forall x' :: x <= x' < w ==> Column(result, x') == State(Column(grid, x'), y)
      invariant forall y', x' :: 0 <= y' < |grid| && w <= x' < |grid[y']| ==> result[y'][x'] == grid[y'][x']
    {
      StateUnfold(Column(grid, x), y + 1);
      hide State, Step, Roll;
      var next := RollCell(result, y, x);
      forall x' | 0 <= x' < w && x' != x
        ensures Column(next, x') == Column(result, x')
      {
        ColumnOther(next, result, x, x');
      }
      result := next;
    }
  }

  /** Cells outside column `x` unchanged: every other column unchanged. */
  lemma ColumnOther(a: Grid, b: Grid, x: nat, x': nat)
    requires SameShape(a, b) && x' != x
    requires forall y :: 0 <= y < |b| ==> x' < |b[y]|
    requires forall y, z :: 0 <= y < |b| && 0 <= z < |b[y]| && z != x ==> a[y][z] == b[y][z]
    ensures Column(a, x') == Column(b, x')
  {
  }

  /** `score`: each round rock weighs its distance from the south edge. */
  function Score(grid: Grid): nat {
    ScoreFrom(grid, 0)
  }

  function ScoreFrom(grid: Grid, y: nat): nat
    decreases |grid| - y
  {
    if y >= |grid| then 0 else RowScore(grid[y], |grid| - y) + ScoreFrom(grid, y + 1)
  }

  function RowScore(row: seq<char>, weight: nat): nat {
    if |row| == 0 then 0 else (if row[0] == 'O' then weight else 0) + RowScore(row[1..], weight)
  }

  /** The number of round rocks in a row. */
  function Rocks(row: seq<char>): nat {
    multiset(row)['O']
  }

  /** A row scores its number of round rocks times its weight. */
  lemma {:induction false} RowScoreCountsRocks(row: seq<char>, weight: nat)
    ensures RowScore(row, weight) == Rocks(row) * weight
  {
    if |row| > 0 {
      RowScoreCountsRocks(row[1..], weight);
      RocksCons(row);
      var rest := Rocks(row[1..]);
      hide Rocks;
      if row[0] == 'O' {
        assert (rest + 1) * weight == rest * weight + weight;
      }
    }
  }

  lemma RocksCons(row: seq<char>)
    requires |row| > 0
    ensures Rocks(row) == Rocks(row[1..]) + (if row[0] == 'O' then 1 else 0)
  {
    assert row == [row[0]] + row[1..];
    assert multiset(row) == multiset{row[0]} + multiset(row[1..]);
  }

  /** `part1`: the load after tilting north. */
  method Part1(grid: Grid) returns (load: Option<nat>)
    ensures load.None? <==> !WideRows(grid)
    ensures load.Some? ==>
      exists rolled :: SameShape(rolled, grid)
        && (forall x :: 0 <= x < Width(grid) ==> Column(rolled, x) == Roll(Column(grid, x)))
        && load.value == Score(rolled)
  {
    var rolled := RollNorth(grid);
    if rolled.None? {
      return None;
    }
    load := Some(Score(rolled.value));
  }

  /** `parse_input`: the lines of the input are already rows of characters. */
  function ParseInput(input: string): Grid {
    Lines(input)
  }
}
