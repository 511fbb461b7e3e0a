/** Day 11: cosmic expansion. Every row and every column without a galaxy counts twice,
    and the answer is the sum of the Manhattan distances between all pairs of galaxies. */
module Day11 {
  import opened Wrappers
  import opened Text

  type Grid = seq<seq<char>>

  datatype Point = Point(x: int, y: int)

  /** The galaxies of row `y` from column `x` on, left to right. */
  function RowGalaxies(row: seq<char>, y: nat, x: nat): seq<Point>
    decreases |row| - x
  {
    if x >= |row| then []
    else (if row[x] == '#' then [Point(x, y)] else []) + RowGalaxies(row, y, x + 1)
  }

  /** The galaxies of the rows from `y` on, in row-major order. */
  function GalaxiesFrom(grid: Grid, y: nat): seq<Point>
    decreases |grid| - y
  {
    if y >= |grid| then [] else RowGalaxies(grid[y], y, 0) + GalaxiesFrom(grid, y + 1)
  }

  /** The `'#'` cell at `p`. */
  predicate IsGalaxy(grid: Grid, p: Point) {
    0 <= p.y < |grid| && 0 <= p.x < |grid[p.y]| && grid[p.y][p.x] == '#'
  }

  lemma {:induction false} RowGalaxiesSpec(row: seq<char>, y: nat, x: nat)
    ensures forall p :: p in RowGalaxies(row, y, x) <==> p.y == y && x <= p.x < |row| && row[p.x] == '#'
    decreases |row| - x
  {
    if x < |row| {
      RowGalaxiesSpec(row, y, x + 1);
    }
  }

  /** The galaxies found are exactly the `'#'` cells. */
  lemma {:induction false} GalaxiesSpec(grid: Grid, y: nat)
    ensures forall p :: p in GalaxiesFrom(grid, y) <==> y <= p.y && IsGalaxy(grid, p)
    decreases |grid| - y
  {
    if y < |grid| {
      RowGalaxiesSpec(grid[y], y, 0);
      GalaxiesSpec(grid, y + 1);
    }
  }

  predicate AllEmpty(row: seq<char>) {
    forall x :: 0 <= x < |row| ==> row[x] == '.'
  }

  /** The indices from `y` on of the rows made only of `'.'`, in increasing order. */
  function EmptyRows(grid: Grid, y: nat): (rows: seq<int>)
    decreases |grid| - y
  {
    if y >= |grid| then []
    else (if AllEmpty(grid[y]) then [y as int] else []) + EmptyRows(grid, y + 1)
  }

  lemma {:induction false} EmptyRowsSpec(grid: Grid, y: nat)
    ensures forall r :: r in EmptyRows(grid, y) <==> y <= r < |grid| && AllEmpty(grid[r])
    decreases |grid| - y
  {
    if y < |grid| {
      EmptyRowsSpec(grid, y + 1);
    }
  }

  /** Column `x` holds only `'.'` (in every row long enough to have it). */
  predicate EmptyColumn(grid: Grid, x: nat) {
    forall y :: 0 <= y < |grid| && x < |grid[y]| ==> grid[y][x] == '.'
  }

  /** The empty columns from `x` up to the width of the first row, as the expansion is
      evidently meant to compute them. */
  function EmptyColumns(grid: Grid, x: nat): (cols: seq<int>)
    requires |grid| >= 1
    decreases |grid[0]| - x
  {
    if x >= |grid[0]| then []
    else (if EmptyColumn(grid, x) then [x as int] else []) + EmptyColumns(grid, x + 1)
  }

  lemma {:induction false} EmptyColumnsSpec(grid: Grid, x: nat)
    requires |grid| >= 1
    ensures forall c :: c in EmptyColumns(grid, x) <==> x <= c < |grid[0]| && EmptyColumn(grid, c)
    decreases |grid[0]| - x
  {
    if x < |grid[0]| {
      EmptyColumnsSpec(grid, x + 1);
    }
  }

  /** `transposed_iter(v).map(|r| r.all(is '.'))` as written: iterator `y` ranges over
      `0..v.len()` and yields `v[x][y]` for `x` in `0..v[0].len()`. `all` stops at the
      first non-`'.'`, so an out-of-range index panics (`None`) only if it is reached. */
  function LazyAllEmpty(v: Grid, y: nat, x: nat): Option<bool>
    requires |v| >= 1
    decreases |v[0]| - x
  {
    if x >= |v[0]| then Some(true)
    else if x >= |v| || y >= |v[x]| then None
    else if v[x][y] != '.' then Some(false)
    else LazyAllEmpty(v, y, x + 1)
  }

  /** The expanded columns as the source computes them, from iterator `y` on. */
  function EmptyColumnsAsWritten(v: Grid, y: nat): Option<seq<int>>
    requires |v| >= 1
    decreases |v| - y
  {
    if y >= |v| then Some([])
    else match (LazyAllEmpty(v, y, 0), EmptyColumnsAsWritten(v, y + 1))
      case (Some(b), Some(rest)) => Some((if b then [y as int] else []) + rest)
      case _ => None
  }

  predicate Square(v: Grid) {
    forall y :: 0 <= y < |v| ==> |v[y]| == |v|
  }

  lemma {:induction false} LazyAllEmptyOnSquare(v: Grid, y: nat, x: nat)
    requires |v| >= 1 && Square(v) && y < |v|
    ensures LazyAllEmpty(v, y, x) == Some(forall x' :: x <= x' < |v| ==> v[x'][y] == '.')
    decreases |v[0]| - x
  {
    if x < |v[0]| {
      LazyAllEmptyOnSquare(v, y, x + 1);
    }
  }

  /** On a square grid the source's transposition reads the real columns. */
  lemma {:induction false} AsWrittenAgreesOnSquare(v: Grid, y: nat)
    requires |v| >= 1 && Square(v)
    ensures EmptyColumnsAsWritten(v, y) == Some(EmptyColumns(v, y))
    decreases |v| - y
  {
    if y < |v| {
      LazyAllEmptyOnSquare(v, y, 0);
      AsWrittenAgreesOnSquare(v, y + 1);
      assert EmptyColumn(v, y) <==> forall x' :: 0 <= x' < |v| ==> v[x'][y] == '.';
    }
  }

  /** A grid taller than wide: three rows of two empty cells. Both columns are empty, but
      the source's third iterator reads `v[0][2]` and panics. */
  lemma TallGridPanics()
    ensures EmptyColumnsAsWritten(["..", "..", ".."], 0).None?
    ensures EmptyColumns(["..", "..", ".."], 0) == [0, 1]
  {
    assert LazyAllEmpty(["..", "..", ".."], 2, 0).None?;
    assert EmptyColumn(["..", "..", ".."], 0) && EmptyColumn(["..", "..", ".."], 1);
  }

  /** How many entries of `s` lie below `v` (`filter(|row| y > row).count()`). */
  function CountBelow(s: seq<int>, v: int): (n: nat)
    ensures n <= |s|
  {
    if |s| == 0 then 0 else (if s[0] < v then 1 else 0) + CountBelow(s[1..], v)
  }

  /** How many entries of `s` lie in `[lo, hi)`. */
  function CountIn(s: seq<int>, lo: int, hi: int): nat {
    if |s| == 0 then 0 else (if lo <= s[0] < hi then 1 else 0) + CountIn(s[1..], lo, hi)
  }

  lemma {:induction false} CountBelowDifference(s: seq<int>, lo: int, hi: int)
    requires lo <= hi
    ensures CountBelow(s, hi) - CountBelow(s, lo) == CountIn(s, lo, hi)
  {
    if |s| > 0 {
      CountBelowDifference(s[1..], lo, hi);
    }
  }

  /** A galaxy after expansion: shifted right by the empty columns left of it and down by
      the empty rows above it. */
  function Shift(p: Point, rows: seq<int>, cols: seq<int>): Point {
    Point(p.x + CountBelow(cols, p.x), p.y + CountBelow(rows, p.y))
  }

  function Expand(galaxies: seq<Point>, rows: seq<int>, cols: seq<int>): (r: seq<Point>)
    ensures |r| == |galaxies|
    ensures forall k :: 0 <= k < |r| ==> r[k] == Shift(galaxies[k], rows, cols)
  {
    seq(|galaxies|, k requires 0 <= k < |galaxies| => Shift(galaxies[k], rows, cols))
  }

  /** Between any two expanded galaxies lies their old distance plus the empty rows and
      columns crossed on the way. */
  lemma ExpandDistances(galaxies: seq<Point>, rows: seq<int>, cols: seq<int>)
    ensures forall i, j :: 0 <= i < |galaxies| && 0 <= j < |galaxies| ==>
      Manhattan(Expand(galaxies, rows, cols)[i], Expand(galaxies, rows, cols)[j])
        == Manhattan(galaxies[i], galaxies[j])
           + CountIn(cols, Min(galaxies[i].x, galaxies[j].x), Max(galaxies[i].x, galaxies[j].x))
           + CountIn(rows, Min(galaxies[i].y, galaxies[j].y), Max(galaxies[i].y, galaxies[j].y))
  {
    forall i, j | 0 <= i < |galaxies| && 0 <= j < |galaxies|
      ensures Manhattan(Expand(galaxies, rows, cols)[i], Expand(galaxies, rows, cols)[j])
        == Manhattan(galaxies[i], galaxies[j])
           + CountIn(cols, Min(galaxies[i].x, galaxies[j].x), Max(galaxies[i].x, galaxies[j].x))
           + CountIn(rows, Min(galaxies[i].y, galaxies[j].y), Max(galaxies[i].y, galaxies[j].y))
    {
      ExpandedDistance(galaxies[i], galaxies[j], rows, cols);
    }
  }

  /** The galaxies read from a grid are exactly its `'#'` cells, each moved right by the
      empty columns and down by the empty rows before it. */
  lemma ParseInputSpec(input: string)
    ensures ParseInput(input).Some? ==> forall q :: q in ParseInput(input).value <==>
      exists p :: IsGalaxy(Lines(input), p)
        && q == Shift(p, EmptyRows(Lines(input), 0), EmptyColumns(Lines(input), 0))
  {
    var grid := Lines(input);
    if |grid| > 0 {
      var rows, cols := EmptyRows(grid, 0), EmptyColumns(grid, 0);
      var gs := GalaxiesFrom(grid, 0);
      var r := ParseInput(input).value;
      GalaxiesSpec(grid, 0);
      forall q ensures q in r <==> exists p :: IsGalaxy(grid, p) && q == Shift(p, rows, cols) {
        if q in r {
          var k :| 0 <= k < |r| && r[k] == q;
          assert gs[k] in gs;
        }
        if exists p :: IsGalaxy(grid, p) && q == Shift(p, rows, cols) {
          var p :| IsGalaxy(grid, p) && q == Shift(p, rows, cols);
          assert p in gs;
          var k :| 0 <= k < |gs| && gs[k] == p;
          assert r[k] == q;
        }
      }
    }
  }

  /** `parse_input`: the galaxies of the grid after expansion. */
  function ParseInput(input: string): (r: Option<seq<Point>>)
    ensures r.None? <==> |Lines(input)| == 0
  {
    var grid := Lines(input);
    if |grid| == 0 then None
    else Some(Expand(GalaxiesFrom(grid, 0), EmptyRows(grid, 0), EmptyColumns(grid, 0)))
  }

  function Abs(a: int): nat {
    if a < 0 then -a else a
  }

  /** `manhattan_distance`. */
  function Manhattan(p: Point, q: Point): nat {
    Abs(p.x - q.x) + Abs(p.y - q.y)
  }

  /** The distance is symmetric and vanishes only between equal points. */
  lemma ManhattanSpec(p: Point, q: Point)
    ensures Manhattan(p, q) == Manhattan(q, p)
    ensures Manhattan(p, q) == 0 <==> p == q
  {
  }

  /** Expansion stretches the distance between two galaxies by the empty rows and
      columns crossed on the way. */
  lemma ExpandedDistance(p: Point, q: Point, rows: seq<int>, cols: seq<int>)
    ensures Manhattan(Shift(p, rows, cols), Shift(q, rows, cols))
            == Manhattan(p, q)
               + CountIn(cols, Min(p.x, q.x), Max(p.x, q.x))
               + CountIn(rows, Min(p.y, q.y), Max(p.y, q.y))
  {
    CountBelowDifference(cols, Min(p.x, q.x), Max(p.x, q.x));
    CountBelowDifference(rows, Min(p.y, q.y), Max(p.y, q.y));
    CountBelowMonotone(cols, Min(p.x, q.x), Max(p.x, q.x));
    CountBelowMonotone(rows, Min(p.y, q.y), Max(p.y, q.y));
  }

  lemma {:induction false} CountBelowMonotone(s: seq<int>, lo: int, hi: int)
    requires lo <= hi
    ensures CountBelow(s, lo) <= CountBelow(s, hi)
  {
    if |s| > 0 {
      CountBelowMonotone(s[1..], lo, hi);
    }
  }

  function Min(a: int, b: int): int {
    if a < b then a else b
  }

  function Max(a: int, b: int): int {
    if a < b then b else a
  }

  /** The distances from `p` to every point of `qs`. */
  function DistancesFrom(p: Point, qs: seq<Point>): nat {
    if |qs| == 0 then 0 else Manhattan(p, qs[0]) + DistancesFrom(p, qs[1..])
  }

  /** `part1`: every galaxy paired with each later one. */
  function Part1(galaxies: seq<Point>): nat {
    if |galaxies| == 0 then 0
    else DistancesFrom(galaxies[0], galaxies[1..]) + Part1(galaxies[1..])
  }

  /** The distances over all ordered pairs, a galaxy with itself included. */
  function OrderedPairs(ps: seq<Point>, qs: seq<Point>): nat {
    if |ps| == 0 then 0 else DistancesFrom(ps[0], qs) + OrderedPairs(ps[1..], qs)
  }

  lemma {:induction false} DistancesToSymmetric(ps: seq<Point>, q: Point)
    ensures DistancesFrom(q, ps) == DistancesTo(ps, q)
  {
    if |ps| > 0 {
      DistancesToSymmetric(ps[1..], q);
      ManhattanSpec(q, ps[0]);
    }
  }

  /** The distances from every point of `ps` to `q`. */
  function DistancesTo(ps: seq<Point>, q: Point): nat {
    if |ps| == 0 then 0 else Manhattan(ps[0], q) + DistancesTo(ps[1..], q)
  }

  lemma {:induction false} OrderedPairsCons(ps: seq<Point>, q: Point, qs: seq<Point>)
    ensures OrderedPairs(ps, [q] + qs) == DistancesTo(ps, q) + OrderedPairs(ps, qs)
  {
    if |ps| > 0 {
      OrderedPairsCons(ps[1..], q, qs);
      assert ([q] + qs)[1..] == qs;
    }
  }

  /** Summing over unordered pairs counts each pair once: the ordered sum is twice it. */
  lemma {:induction false} Part1IsHalfOfOrderedPairs(gs: seq<Point>)
    ensures OrderedPairs(gs, gs) == 2 * Part1(gs)
  {
    if |gs| > 0 {
      var g, rest := gs[0], gs[1..];
      assert gs == [g] + rest;
      Part1IsHalfOfOrderedPairs(rest);
      OrderedPairsCons(rest, g, rest);
      DistancesToSymmetric(rest, g);
      assert Manhattan(g, g) == 0;
      calc {
        OrderedPairs(gs, gs);
        DistancesFrom(g, gs) + OrderedPairs(rest, gs);
        { assert gs[1..] == rest; }
        DistancesFrom(g, rest) + OrderedPairs(rest, [g] + rest);
        DistancesFrom(g, rest) + DistancesTo(rest, g) + OrderedPairs(rest, rest);
      }
    }
  }

  function ExampleExpanded(): seq<Point> {
    [Point(4, 0), Point(9, 1), Point(0, 2), Point(8, 5), Point(1, 6),
     Point(12, 7), Point(9, 10), Point(0, 11), Point(5, 11)]
  }

  /** The expanded example galaxies are 374 apart in total. */
  lemma ExampleDistances0()
    ensures DistancesFrom(Point(4, 0), [Point(9, 1), Point(0, 2), Point(8, 5), Point(1, 6), Point(12, 7), Point(9, 10), Point(0, 11), Point(5, 11)]) == 87
  {
  }

  lemma ExampleDistances1()
    ensures DistancesFrom(Point(9, 1), [Point(0, 2), Point(8, 5), Point(1, 6), Point(12, 7), Point(9, 10), Point(0, 11), Point(5, 11)]) == 79
  {
  }

  lemma ExampleDistances2()
    ensures DistancesFrom(Point(0, 2), [Point(8, 5), Point(1, 6), Point(12, 7), Point(9, 10), Point(0, 11), Point(5, 11)]) == 73
  {
  }

  lemma ExampleDistances3()
    ensures DistancesFrom(Point(8, 5), [Point(1, 6), Point(12, 7), Point(9, 10), Point(0, 11), Point(5, 11)]) == 43
  {
  }

  lemma ExampleDistances4()
    ensures DistancesFrom(Point(1, 6), [Point(12, 7), Point(9, 10), Point(0, 11), Point(5, 11)]) == 39
  {
  }

  lemma ExampleDistances5()
    ensures DistancesFrom(Point(12, 7), [Point(9, 10), Point(0, 11), Point(5, 11)]) == 33
  {
  }

  lemma ExampleDistances6()
    ensures DistancesFrom(Point(9, 10), [Point(0, 11), Point(5, 11)]) == 15
  {
  }

  lemma ExampleDistances7()
    ensures DistancesFrom(Point(0, 11), [Point(5, 11)]) == 5
  {
  }

  /** The expanded example galaxies are 374 apart in total. */
  lemma ExamplePart1()
    ensures Part1(ExampleExpanded()) == 374
  {
    var e := ExampleExpanded();
    ExampleDistances0();
    ExampleDistances1();
    ExampleDistances2();
    ExampleDistances3();
    ExampleDistances4();
    ExampleDistances5();
    ExampleDistances6();
    ExampleDistances7();
    assert Part1(e[8..]) == 0;
    assert e[7..][0] == e[7] && e[7..][1..] == e[8..];
    assert Part1(e[7..]) == 5;
    assert e[6..][0] == e[6] && e[6..][1..] == e[7..];
    assert Part1(e[6..]) == 20;
    assert e[5..][0] == e[5] && e[5..][1..] == e[6..];
    assert Part1(e[5..]) == 53;
    assert e[4..][0] == e[4] && e[4..][1..] == e[5..];
    assert Part1(e[4..]) == 92;
    assert e[3..][0] == e[3] && e[3..][1..] == e[4..];
    assert Part1(e[3..]) == 135;
    assert e[2..][0] == e[2] && e[2..][1..] == e[3..];
    assert Part1(e[2..]) == 208;
    assert e[1..][0] == e[1] && e[1..][1..] == e[2..];
    assert Part1(e[1..]) == 287;
    assert e[0..][0] == e[0] && e[0..][1..] == e[1..];
    assert Part1(e[0..]) == 374;
    assert e[0..] == e;
  }
}
