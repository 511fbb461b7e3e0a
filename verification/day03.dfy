/** Day 3: the engine schematic. Every maximal run of digits in a row is a number; it is
    a part number when a symbol (neither digit nor `.`) touches it, diagonals included.
    The source scans each row once, left to right, deciding adjacency column by column;
    the model proves that scan equal to the run-by-run reading. */
module Day03 {
  import opened Text

  type Grid = seq<seq<char>>

  /** `is_symbol`. */
  predicate IsSymbol(c: char) {
    !IsDigit(c) && c != '.'
  }

  /** All rows as long as the first: the source indexes the rows above and below at the
      columns of the current row. */
  predicate Rectangular(grid: Grid) {
    forall y :: 0 <= y < |grid| ==> |grid[y]| == |grid[0]|
  }

  /** Column `c` holds a symbol in row `y` or in one of its neighbours. */
  predicate ColumnHasSymbol(grid: Grid, y: nat, c: nat)
    requires Rectangular(grid) && y < |grid| && c < |grid[y]|
  {
    || (y > 0 && IsSymbol(grid[y - 1][c]))
    || IsSymbol(grid[y][c])
    || (y + 1 < |grid| && IsSymbol(grid[y + 1][c]))
  }

  /** Some column in `[lo, hi]` (clipped at 0) holds a symbol next to row `y`. */
  predicate BandHasSymbol(grid: Grid, y: nat, lo: int, hi: int)
    requires Rectangular(grid) && y < |grid| && hi < |grid[y]|
    decreases hi - lo
  {
    if hi < 0 || hi < lo then false
    else ColumnHasSymbol(grid, y, hi) || BandHasSymbol(grid, y, lo, hi - 1)
  }

  lemma {:induction false} BandHasSymbolSpec(grid: Grid, y: nat, lo: int, hi: int)
    requires Rectangular(grid) && y < |grid| && hi < |grid[y]|
    ensures BandHasSymbol(grid, y, lo, hi) <==>
              exists c: nat :: lo <= c <= hi && ColumnHasSymbol(grid, y, c)
    decreases hi - lo
  {
    if hi >= 0 && hi >= lo {
      BandHasSymbolSpec(grid, y, lo, hi - 1);
    }
  }

  /** `has_symbol_left_to((x, y))`: nothing left of column 0; otherwise column `x - 1`
      in the rows `y - 1 ..= y + 1` that exist. */
  function HasSymbolLeftTo(grid: Grid, x: nat, y: nat): (r: bool)
    requires Rectangular(grid) && y < |grid| && x <= |grid[y]|
    ensures r <==> x > 0 && BandHasSymbol(grid, y, x - 1, x - 1)
  {
    if x == 0 then false
    else (y > 0 && IsSymbol(grid[y - 1][x - 1])) || IsSymbol(grid[y][x - 1])
         || (y < |grid| - 1 && IsSymbol(grid[y + 1][x - 1]))
  }

  /** The end of the run of digits that starts at `x`. */
  function RunEnd(row: seq<char>, x: nat): (e: nat)
    requires x <= |row|
    ensures x <= e <= |row|
    ensures forall k :: x <= k < e ==> IsDigit(row[k])
    ensures e == |row| || !IsDigit(row[e])
    decreases |row| - x
  {
    if x < |row| && IsDigit(row[x]) then RunEnd(row, x + 1) else x
  }

  /** A run `[s, e)` counts when its value is not 0 and a symbol lies between one column
      left of it and one column right of it (clipped to the row). */
  function RunContribution(grid: Grid, y: nat, s: nat, e: nat): nat
    requires Rectangular(grid) && y < |grid| && s < e <= |grid[y]|
    requires forall k :: s <= k < e ==> IsDigit(grid[y][k])
  {
    var value := DigitsValue(grid[y][s..e]);
    var hi := if e < |grid[y]| then e else e - 1;
    if value != 0 && BandHasSymbol(grid, y, s - 1, hi) then value else 0
  }

  /** The part numbers of row `y` from column `x` on, where `x` is not inside a run. */
  function RowSum(grid: Grid, y: nat, x: nat): nat
    requires Rectangular(grid) && y < |grid| && x <= |grid[y]|
    decreases |grid[y]| - x
  {
    if x == |grid[y]| then 0
    else if !IsDigit(grid[y][x]) then RowSum(grid, y, x + 1)
    else
      var e := RunEnd(grid[y], x);
      RunContribution(grid, y, x, e) + RowSum(grid, y, e)
  }

  /** The part numbers of the rows from `y` on. */
  function GridSum(grid: Grid, y: nat): nat
    requires Rectangular(grid)
    decreases |grid| - y
  {
    if y >= |grid| then 0 else RowSum(grid, y, 0) + GridSum(grid, y + 1)
  }

  /** One row of `part1`: digits accumulate into `current` and each digit checks the
      column left of it; a non-digit checks its own column and the one left of it, adds
      a finished part number and resets the state; the row end checks the last column. */
  method RowTotal(grid: Grid, y: nat) returns (total: nat)
    requires Rectangular(grid) && y < |grid|
    ensures total == RowSum(grid, y, 0)
  {
    var row := grid[y];
    total := 0;
    var current: nat := 0;
    var isPart := false;
    ghost var s: nat := 0;
    for x := 0 to |row|
      invariant s <= x
      invariant forall k :: s <= k < x ==> IsDigit(row[k])
      invariant s == 0 || !IsDigit(row[s - 1])
      invariant current == DigitsValue(row[s..x])
      invariant isPart == (s < x && BandHasSymbol(grid, y, s as int - 1, x as int - 2))
      invariant total + RowSum(grid, y, s) == RowSum(grid, y, 0)
    {
      hide RowSum, BandHasSymbol, DigitsValue, HasSymbolLeftTo;
      if IsDigit(row[x]) {
        RowDigitStep(grid, y, s, x, isPart);
        current := current * 10 + DigitValue(row[x]);
        if !isPart {
          isPart := HasSymbolLeftTo(grid, x, y);
        }
      } else {
        RowSkip(grid, y, x);
        if s < x {
          RowSumRun(grid, y, s, x, current, isPart);
        }
        if !isPart {
          isPart := HasSymbolLeftTo(grid, x, y) || HasSymbolLeftTo(grid, x + 1, y);
        }
        if current != 0 && isPart {
          total := total + current;
        }
        current := 0;
        isPart := false;
        s := x + 1;
      }
    }
    RowEnd(grid, y, s, current, isPart);
    if current != 0 && (isPart || HasSymbolLeftTo(grid, |row|, y)) {
      total := total + current;
    }
  }

  /** One more digit at `x` extends the run's value and its band of columns. */
  lemma RowDigitStep(grid: Grid, y: nat, s: nat, x: nat, wasPart: bool)
    requires Rectangular(grid) && y < |grid| && s <= x < |grid[y]|
    requires forall k :: s <= k <= x ==> IsDigit(grid[y][k])
    requires wasPart == (s < x && BandHasSymbol(grid, y, s as int - 1, x as int - 2))
    ensures DigitsValue(grid[y][s..x + 1]) == DigitsValue(grid[y][s..x]) * 10 + DigitValue(grid[y][x])
    ensures (wasPart || HasSymbolLeftTo(grid, x, y)) == BandHasSymbol(grid, y, s as int - 1, x as int - 1)
  {
    assert grid[y][s..x + 1][..x - s] == grid[y][s..x];
  }

  /** At the end of the row, an open run counts with the band up to the last column. */
  lemma RowEnd(grid: Grid, y: nat, s: nat, current: nat, wasPart: bool)
    requires Rectangular(grid) && y < |grid| && s <= |grid[y]|
    requires forall k :: s <= k < |grid[y]| ==> IsDigit(grid[y][k])
    requires current == DigitsValue(grid[y][s..|grid[y]|])
    requires wasPart == (s < |grid[y]| && BandHasSymbol(grid, y, s as int - 1, |grid[y]| as int - 2))
    ensures RowSum(grid, y, s) ==
      (if current != 0 && (wasPart || HasSymbolLeftTo(grid, |grid[y]|, y)) then current else 0)
  {
    if s < |grid[y]| {
      RunEndAt(grid[y], s, |grid[y]|);
    }
  }

  /** A non-digit at `x` adds nothing, and no digits are an empty run. */
  lemma RowSkip(grid: Grid, y: nat, x: nat)
    requires Rectangular(grid) && y < |grid| && x < |grid[y]| && !IsDigit(grid[y][x])
    ensures RowSum(grid, y, x) == RowSum(grid, y, x + 1)
    ensures DigitsValue(grid[y][x..x]) == 0 && DigitsValue(grid[y][x + 1..x + 1]) == 0
  {
  }

  /** A run `[s, x)` closed by a non-digit at `x`: what the loop adds there is the run's
      contribution, and the rest of the row starts after `x`. */
  lemma RowSumRun(grid: Grid, y: nat, s: nat, x: nat, current: nat, wasPart: bool)
    requires Rectangular(grid) && y < |grid| && s < x < |grid[y]|
    requires forall k :: s <= k < x ==> IsDigit(grid[y][k])
    requires !IsDigit(grid[y][x])
    requires current == DigitsValue(grid[y][s..x])
    requires wasPart == BandHasSymbol(grid, y, s as int - 1, x as int - 2)
    ensures RowSum(grid, y, s) == RowSum(grid, y, x + 1) +
      (if current != 0 && (wasPart || HasSymbolLeftTo(grid, x, y) || HasSymbolLeftTo(grid, x + 1, y)) then current else 0)
  {
    RunEndAt(grid[y], s, x);
    assert BandHasSymbol(grid, y, s as int - 1, x) ==
      (wasPart || HasSymbolLeftTo(grid, x, y) || HasSymbolLeftTo(grid, x + 1, y));
  }

  /** A run of digits from `s` that stops at `x` ends at `x`. */
  lemma {:induction false} RunEndAt(row: seq<char>, s: nat, x: nat)
    requires s <= x <= |row|
    requires forall k :: s <= k < x ==> IsDigit(row[k])
    requires x == |row| || !IsDigit(row[x])
    ensures RunEnd(row, s) == x
    decreases x - s
  {
    if s < x {
      RunEndAt(row, s + 1, x);
    }
  }

  /** `part1`: the sum of all part numbers, row by row. */
  method Part1(grid: Grid) returns (result: nat)
    requires Rectangular(grid)
    ensures result == GridSum(grid, 0)
  {
    result := 0;
    for y := 0 to |grid|
      invariant result + GridSum(grid, y) == GridSum(grid, 0)
    {
      var rowTotal := RowTotal(grid, y);
      result := result + rowTotal;
    }
  }

  /** A run counts exactly when its value is not 0 and some column from one left of it
      to one right of it, inside the row, has a symbol in the row or a neighbouring row. */
  lemma RunContributionSpec(grid: Grid, y: nat, s: nat, e: nat)
    requires Rectangular(grid) && y < |grid| && s < e <= |grid[y]|
    requires forall k :: s <= k < e ==> IsDigit(grid[y][k])
    ensures var value := DigitsValue(grid[y][s..e]);
            RunContribution(grid, y, s, e) == value <==>
              value == 0 || exists c: nat :: s - 1 <= c <= e && c < |grid[y]| && ColumnHasSymbol(grid, y, c)
    ensures RunContribution(grid, y, s, e) == 0 || RunContribution(grid, y, s, e) == DigitsValue(grid[y][s..e])
  {
    var hi := if e < |grid[y]| then e else e - 1;
    BandHasSymbolSpec(grid, y, s - 1, hi);
  }

  function Example(): Grid {
    [ "467..114..",
      "...*......",
      "..35..633." ]
  }

  /** In the first row only 467 touches the `*` below it. */
  lemma ExampleFirstRow()
    ensures RowSum(Example(), 0, 0) == 467
  {
    var g := Example();
    assert RunEnd(g[0], 0) == 3;
    assert g[0][0..3] == "467";
    assert DigitsValue("467") == 467 by {
      assert "467"[..2] == "46" && "46"[..1] == "4";
    }
    assert ColumnHasSymbol(g, 0, 3);
    assert RowSum(g, 0, 3) == RowSum(g, 0, 5);
    assert RunEnd(g[0], 5) == 8;
    assert g[0][5..8] == "114";
    assert !BandHasSymbol(g, 0, 4, 8);
    assert RowSum(g, 0, 8) == 0;
  }
}
