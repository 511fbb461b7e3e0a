/** Day 10: the pipe maze. The map is a grid of characters; `S` marks the start, and
    each of `| - L J 7 F` is a pipe joining two of the four neighbouring tiles. The
    source follows the loop one tile at a time from the start until it returns to an `S`,
    and answers half the number of tiles on the loop.

    Coordinates are `usize` in the source, and the model follows Rust's checked
    arithmetic: computing `x - 1` or `y - 1` at column or row 0 panics. Positions are
    `int`s here so that the panic can be stated as a coordinate below 0. */
module Day10 {
  import opened Wrappers
  import opened Text

  type Grid = seq<seq<char>>

  datatype Pos = Pos(x: int, y: int)

  /** `get_elem`: the tile at column `x` of row `y`, if there is one. */
  function GetElem(grid: Grid, x: int, y: int): (r: Option<char>)
    ensures r.Some? <==> 0 <= y < |grid| && 0 <= x < |grid[y]|
    ensures r.Some? ==> r.value == grid[y][x]
  {
    if 0 <= y < |grid| && 0 <= x < |grid[y]| then Some(grid[y][x]) else None
  }

  datatype Dir = North | South | West | East

  function Opposite(d: Dir): Dir {
    match d
    case North => South
    case South => North
    case West => East
    case East => West
  }

  /** The tile one step away in direction `d`; north is the row above. */
  function Neighbour(p: Pos, d: Dir): Pos {
    match d
    case North => Pos(p.x, p.y - 1)
    case South => Pos(p.x, p.y + 1)
    case West => Pos(p.x - 1, p.y)
    case East => Pos(p.x + 1, p.y)
  }

  lemma NeighbourBack(p: Pos, d: Dir)
    ensures Neighbour(Neighbour(p, d), Opposite(d)) == p
    ensures forall e :: Neighbour(p, e) == Neighbour(p, d) ==> e == d
  {
  }

  predicate IsPipe(c: char) {
    c in "|-LJ7F"
  }

  /** The sides a pipe character is open to, read off its shape. */
  predicate Opens(c: char, d: Dir) {
    match d
    case North => c in "|LJ"
    case South => c in "|7F"
    case West => c in "-J7"
    case East => c in "-LF"
  }

  /** The two tiles `step` may move to from a pipe at `p`, in the order the source lists
      them; any other character makes `step` panic. */
  function PipeMoves(c: char, p: Pos): (r: Option<(Pos, Pos)>) {
    match c
    case '|' => Some((Pos(p.x, p.y - 1), Pos(p.x, p.y + 1)))
    case '-' => Some((Pos(p.x - 1, p.y), Pos(p.x + 1, p.y)))
    case 'L' => Some((Pos(p.x, p.y - 1), Pos(p.x + 1, p.y)))
    case 'J' => Some((Pos(p.x, p.y - 1), Pos(p.x - 1, p.y)))
    case '7' => Some((Pos(p.x, p.y + 1), Pos(p.x - 1, p.y)))
    case 'F' => Some((Pos(p.x, p.y + 1), Pos(p.x + 1, p.y)))
    case _ => None
  }

  /** The table of moves is the shape of the pipe: there are moves exactly for the six
      pipe characters, two different ones, and they are the neighbours on the open sides. */
  lemma PipeMovesOpen(c: char, p: Pos)
    ensures PipeMoves(c, p).Some? <==> IsPipe(c)
    ensures PipeMoves(c, p).Some? ==> PipeMoves(c, p).value.0 != PipeMoves(c, p).value.1
    ensures PipeMoves(c, p).Some? ==>
              exists d, e :: PipeMoves(c, p).value == (Neighbour(p, d), Neighbour(p, e))
    ensures PipeMoves(c, p).Some? ==>
              forall d :: Opens(c, d) <==>
                Neighbour(p, d) == PipeMoves(c, p).value.0 || Neighbour(p, d) == PipeMoves(c, p).value.1
  {
    match c
    case '|' => assert PipeMoves(c, p).value == (Neighbour(p, North), Neighbour(p, South));
    case '-' => assert PipeMoves(c, p).value == (Neighbour(p, West), Neighbour(p, East));
    case 'L' => assert PipeMoves(c, p).value == (Neighbour(p, North), Neighbour(p, East));
    case 'J' => assert PipeMoves(c, p).value == (Neighbour(p, North), Neighbour(p, West));
    case '7' => assert PipeMoves(c, p).value == (Neighbour(p, South), Neighbour(p, West));
    case 'F' => assert PipeMoves(c, p).value == (Neighbour(p, South), Neighbour(p, East));
    case _ =>
  }

  /** The tiles `from_str` accepts as the first step out of the start in direction `d`. */
  function StartCandidates(d: Dir): string {
    match d
    case North => "|7F"
    case South => "|LJ"
    case West => "-LF"
    case East => "-J7"
  }

  /** A candidate is exactly a pipe open back towards the start. */
  lemma StartCandidatesConnect(d: Dir, c: char)
    ensures c in StartCandidates(d) <==> Opens(c, Opposite(d))
  {
  }

  /** The tile at `p` exists and is `S`. */
  predicate IsStart(grid: Grid, p: Pos) {
    GetElem(grid, p.x, p.y) == Some('S')
  }

  /** `a` comes before `b` in row-major order. */
  predicate RowMajorBefore(a: Pos, b: Pos) {
    a.y < b.y || (a.y == b.y && a.x < b.x)
  }

  /** The first `S` in row-major order among the rows from `y` on. */
  function FindStartFrom(grid: Grid, y: nat): (r: Option<Pos>)
    requires y <= |grid|
    ensures r.Some? ==> y <= r.value.y && IsStart(grid, r.value)
    ensures forall q: Pos :: y <= q.y && IsStart(grid, q) ==> r.Some? && !RowMajorBefore(q, r.value)
    decreases |grid| - y
  {
    if y == |grid| then None
    else
      var found := Find(grid[y], "S");
      if found.Some? then
        OccursAtChar(grid[y], 'S', found.value);
        assert forall x: nat :: x < found.value ==> grid[y][x] != 'S' by {
          forall x: nat | x < found.value ensures grid[y][x] != 'S' {
            OccursAtChar(grid[y], 'S', x);
          }
        }
        Some(Pos(found.value, y))
      else
        assert forall x: nat :: x < |grid[y]| ==> grid[y][x] != 'S' by {
          forall x: nat | x < |grid[y]| ensures grid[y][x] != 'S' {
            OccursAtChar(grid[y], 'S', x);
          }
        }
        FindStartFrom(grid, y + 1)
  }

  /** The `find_map` of `from_str`: the first `S` in row-major order, if any. */
  function FindStart(grid: Grid): (r: Option<Pos>)
    ensures r.Some? ==> IsStart(grid, r.value)
    ensures forall q: Pos :: IsStart(grid, q) ==> r.Some? && !RowMajorBefore(q, r.value)
  {
    FindStartFrom(grid, 0)
  }

  /** The tile next to `s` in direction `d` is one `from_str` accepts as the first step. */
  predicate ConnectsTowards(grid: Grid, s: Pos, d: Dir) {
    var n := Neighbour(s, d);
    var c := GetElem(grid, n.x, n.y);
    c.Some? && c.value in StartCandidates(d)
  }

  /** The order in which `from_str` tries the neighbours of the start. */
  const TryOrder: seq<Dir> := [North, South, West, East]

  lemma TryOrderAll()
    ensures forall d :: d in TryOrder
  {
    forall d: Dir ensures d in TryOrder {
      match d
      case North => assert TryOrder[0] == d;
      case South => assert TryOrder[1] == d;
      case West => assert TryOrder[2] == d;
      case East => assert TryOrder[3] == d;
    }
  }

  /** The first step out of the start: the first neighbour, in `TryOrder`, holding a pipe
      that leads back; an error when there is none. */
  function FirstMove(grid: Grid, s: Pos): (r: Result<Pos>)
    ensures r.Ok? <==> exists d :: ConnectsTowards(grid, s, d)
    ensures r.Ok? ==> exists i :: 0 <= i < |TryOrder| && r.value == Neighbour(s, TryOrder[i]) &&
                                  ConnectsTowards(grid, s, TryOrder[i]) &&
                                  forall j :: 0 <= j < i ==> !ConnectsTowards(grid, s, TryOrder[j])
  {
    TryOrderAll();
    assert TryOrder[0] == North && TryOrder[1] == South && TryOrder[2] == West && TryOrder[3] == East;
    if ConnectsTowards(grid, s, North) then Ok(Neighbour(s, North))
    else if ConnectsTowards(grid, s, South) then Ok(Neighbour(s, South))
    else if ConnectsTowards(grid, s, West) then Ok(Neighbour(s, West))
    else if ConnectsTowards(grid, s, East) then Ok(Neighbour(s, East))
    else Err
  }

  /** `from_str`'s choice of the first step as written: the neighbours are tried in the
      same order, but `y - 1` is computed before the row above is read, and `x - 1`
      before the column to the left is read, so a start on row 0 panics at once and a
      start in column 0 panics unless the tile above or below connects. */
  function FirstMoveAsWritten(grid: Grid, s: Pos): (r: Result<Pos>)
    requires NonNegative(s)
    ensures r.Ok? ==> r == FirstMove(grid, s)
  {
    if s.y == 0 then Err
    else if ConnectsTowards(grid, s, North) then Ok(Neighbour(s, North))
    else if ConnectsTowards(grid, s, South) then Ok(Neighbour(s, South))
    else if s.x == 0 then Err
    else if ConnectsTowards(grid, s, West) then Ok(Neighbour(s, West))
    else if ConnectsTowards(grid, s, East) then Ok(Neighbour(s, East))
    else Err
  }

  /** The choice as written agrees with the intended one exactly when there is no first
      step at all, or the start is below row 0 and either off column 0 or connected
      above or below. */
  lemma FirstMoveAsWrittenAgrees(grid: Grid, s: Pos)
    requires NonNegative(s)
    ensures FirstMoveAsWritten(grid, s) == FirstMove(grid, s) <==>
              FirstMove(grid, s).Err? ||
              (s.y > 0 && (s.x > 0 || ConnectsTowards(grid, s, North) || ConnectsTowards(grid, s, South)))
  {
  }

  /** A four-tile loop with the start in the top-left corner. */
  function CornerLoop(): Grid {
    [ "S7",
      "LJ" ]
  }

  /** On the corner loop the intended first step goes down to (0, 1), while the code as
      written panics computing the row above the start. */
  lemma CornerStartPanics()
    ensures FindStart(CornerLoop()) == Some(Pos(0, 0))
    ensures FirstMove(CornerLoop(), Pos(0, 0)) == Ok(Pos(0, 1))
    ensures FirstMoveAsWritten(CornerLoop(), Pos(0, 0)) == Err
  {
    assert Find(CornerLoop()[0], "S") == Some(0) by {
      OccursAtChar(CornerLoop()[0], 'S', 0);
    }
  }

  /** The grid, the tile being visited and the tile visited before it. */
  datatype Maze = Maze(grid: Grid, current: Pos, last: Pos)

  /** `from_str` on the grid already split into rows of characters. */
  function FromMap(grid: Grid): (r: Result<Maze>)
    ensures r.Ok? <==> FindStart(grid).Some? && FirstMove(grid, FindStart(grid).value).Ok?
    ensures r.Ok? ==> r.value.grid == grid && IsStart(grid, r.value.last)
    ensures r.Ok? ==> forall q :: IsStart(grid, q) ==> !RowMajorBefore(q, r.value.last)
    ensures r.Ok? ==> exists d :: r.value.current == Neighbour(r.value.last, d) &&
                                  var c := GetElem(grid, r.value.current.x, r.value.current.y);
                                  c.Some? && Opens(c.value, Opposite(d))
  {
    var start :- OkOr(FindStart(grid));
    var current :- FirstMove(grid, start);
    var d :| current == Neighbour(start, d) && ConnectsTowards(grid, start, d);
    StartCandidatesConnect(d, grid[current.y][current.x]);
    Ok(Maze(grid, current, start))
  }

  /** `from_str`: one row per line. */
  function ParseMaze(s: string): (r: Result<Maze>)
    ensures r.Ok? ==> r.value.grid == Lines(s) && IsStart(Lines(s), r.value.last)
  {
    FromMap(Lines(s))
  }

  /** Both coordinates can be held in a `usize`. */
  predicate NonNegative(p: Pos) {
    p.x >= 0 && p.y >= 0
  }

  /** The maze is at a tile marked `S`. */
  predicate AtStart(m: Maze) {
    IsStart(m.grid, m.current)
  }

  /** `step`: from the pipe being visited, move to its first end that is not the tile
      visited before, and report whether the new tile is an `S`. Reading a tile outside
      the grid or a tile that is not a pipe panics. */
  function Step(m: Maze): (r: Result<(Maze, bool)>)
    ensures r.Ok? ==> r.value.0.grid == m.grid && r.value.0 != m
    ensures r.Ok? ==> r.value.1 == AtStart(r.value.0)
  {
    var c :- OkOr(GetElem(m.grid, m.current.x, m.current.y));
    var moves :- OkOr(PipeMoves(c, m.current));
    if !NonNegative(moves.0) || !NonNegative(moves.1) then Err else
    var next :=
      if moves.0 != m.last then Maze(m.grid, moves.0, m.current)
      else if moves.1 != m.last then Maze(m.grid, moves.1, m.current)
      else m;
    PipeMovesOpen(c, m.current);
    var d := GetElem(next.grid, next.current.x, next.current.y);
    if d.None? then Err else Ok((next, d.value == 'S'))
  }

  /** One step leaves from a pipe, through one of its open sides, avoiding the tile it
      came from; the tile it leaves is the new `last`. When the tile it came from is one
      end of the pipe, it goes to the other end. */
  lemma StepSpec(m: Maze)
    ensures Step(m).Ok? <==>
              GetElem(m.grid, m.current.x, m.current.y).Some? &&
              IsPipe(m.grid[m.current.y][m.current.x]) &&
              var c := m.grid[m.current.y][m.current.x];
              var ends := PipeMoves(c, m.current).value;
              var next := if ends.0 != m.last then ends.0 else ends.1;
              NonNegative(ends.0) && NonNegative(ends.1) &&
              GetElem(m.grid, next.x, next.y).Some?
    ensures Step(m).Ok? ==>
              var c := m.grid[m.current.y][m.current.x];
              var n := Step(m).value.0;
              n.last == m.current && n.current != m.last &&
              exists d :: Opens(c, d) && n.current == Neighbour(m.current, d)
    ensures Step(m).Ok? ==>
              forall d, e :: d != e && Opens(m.grid[m.current.y][m.current.x], d) &&
                             m.last == Neighbour(m.current, d) && Opens(m.grid[m.current.y][m.current.x], e) ==>
                Step(m).value.0.current == Neighbour(m.current, e)
  {
    if GetElem(m.grid, m.current.x, m.current.y).Some? {
      var c := m.grid[m.current.y][m.current.x];
      PipeMovesOpen(c, m.current);
      forall d, e | d != e && Opens(c, d) && m.last == Neighbour(m.current, d) && Opens(c, e) && Step(m).Ok?
        ensures Step(m).value.0.current == Neighbour(m.current, e)
      {
        NeighbourBack(m.current, d);
        NeighbourBack(m.current, e);
      }
    }
  }

  /** The maze walked the other way: the visited tile and the one before it swapped. */
  function Reverse(m: Maze): Maze {
    Maze(m.grid, m.last, m.current)
  }

  /** Along a connected stretch of pipe a step can be undone: stepping from the reversed
      result walks back to where the first step started. */
  lemma StepUndo(m: Maze, d: Dir)
    requires Step(m).Ok?
    requires GetElem(m.grid, m.current.x, m.current.y).Some?
    requires Opens(m.grid[m.current.y][m.current.x], d) && m.last == Neighbour(m.current, d)
    requires GetElem(m.grid, m.last.x, m.last.y).Some?
    requires var n := Step(m).value.0;
             exists e :: Opens(m.grid[n.current.y][n.current.x], e) && Neighbour(n.current, e) == m.current
    ensures Step(Reverse(Step(m).value.0)).Ok?
    ensures Step(Reverse(Step(m).value.0)).value.0 == Reverse(m)
  {
    var n := Step(m).value.0;
    var c := m.grid[m.current.y][m.current.x];
    StepSpec(m);
    var e :| Opens(c, e) && n.current == Neighbour(m.current, e);
    assert e != d;
    var back := Reverse(n);
    assert back.current == m.current && back.last == n.current;
    StepSpec(back);
    PipeMovesOpen(c, m.current);
    NeighbourBack(m.current, d);
    NeighbourBack(m.current, e);
  }

  /** The maze after `n` calls of `step`; an error when one of them panics. */
  function Walk(m: Maze, n: nat): Result<Maze>
    decreases n
  {
    if n == 0 then Ok(m)
    else
      var s :- Step(m);
      Walk(s.0, n - 1)
  }

  /** The `n`-th call of `step` is the first to report an `S`, and none panics before. */
  ghost predicate ReturnsAfter(m: Maze, n: nat) {
    n >= 1 &&
    forall i :: 1 <= i <= n ==> Walk(m, i).Ok? && (AtStart(Walk(m, i).value) <==> i == n)
  }

  /** The number of calls of `step` up to and including the first that reports an `S`;
      an error when a call panics. `fuel` bounds the number of calls. */
  function StepsHome(m: Maze, fuel: nat): Result<nat>
    decreases fuel
  {
    if fuel == 0 then Err
    else
      var s :- Step(m);
      if s.1 then Ok(1)
      else
        var n :- StepsHome(s.0, fuel - 1);
        Ok(n + 1)
  }

  lemma WalkShift(m: Maze, i: nat)
    requires i >= 1 && Step(m).Ok?
    ensures Walk(m, i) == Walk(Step(m).value.0, i - 1)
  {
  }

  /** The count is the first return to an `S`: both directions, within the fuel. */
  lemma {:induction false} StepsHomeSpec(m: Maze, fuel: nat, n: nat)
    ensures StepsHome(m, fuel) == Ok(n) ==> ReturnsAfter(m, n) && n <= fuel
    ensures ReturnsAfter(m, n) && n <= fuel ==> StepsHome(m, fuel) == Ok(n)
    decreases fuel
  {
    if fuel == 0 || Step(m).Err? {
      if ReturnsAfter(m, n) {
        assert Walk(m, 1).Ok?;
      }
      return;
    }
    var s := Step(m).value;
    assert Walk(m, 1) == Ok(s.0);
    if s.1 {
      if ReturnsAfter(m, n) {
        assert AtStart(Walk(m, 1).value);
      }
      if n == 1 {
        assert ReturnsAfter(m, 1);
      }
      return;
    }
    forall i | 1 <= i
      ensures Walk(m, i + 1) == Walk(s.0, i)
    {
      WalkShift(m, i + 1);
    }
    if StepsHome(m, fuel) == Ok(n) {
      StepsHomeSpec(s.0, fuel - 1, n - 1);
      assert ReturnsAfter(s.0, n - 1);
      forall i | 1 <= i <= n
        ensures Walk(m, i).Ok? && (AtStart(Walk(m, i).value) <==> i == n)
      {
        if i > 1 {
          assert Walk(m, i) == Walk(s.0, i - 1);
        }
      }
    }
    if ReturnsAfter(m, n) && n <= fuel {
      assert n != 1 by {
        assert !AtStart(Walk(m, 1).value);
      }
      forall i | 1 <= i <= n - 1
        ensures Walk(s.0, i).Ok? && (AtStart(Walk(s.0, i).value) <==> i == n - 1)
      {
        assert Walk(m, i + 1) == Walk(s.0, i);
      }
      assert ReturnsAfter(s.0, n - 1);
      StepsHomeSpec(s.0, fuel - 1, n - 1);
    }
  }

  /** `part1`: the positions 2, 3, ... are numbered while `step` reports no `S`; the
      last number, plus one, halved. When the very first step reports an `S` nothing is
      numbered and `unwrap` panics. */
  function Part1(m: Maze, fuel: nat): Result<nat> {
    var n :- StepsHome(m, fuel);
    if n < 2 then Err else Ok((n + 1) / 2)
  }

  /** The loop holds the start tile and the `n` tiles the steps reach, so `n + 1` tiles;
      part one is half of that, rounded down: the distance to the farthest tile. */
  lemma Part1Spec(m: Maze, fuel: nat, n: nat)
    ensures Part1(m, fuel).Ok? && ReturnsAfter(m, n) ==>
              2 * Part1(m, fuel).value <= n + 1 <= 2 * Part1(m, fuel).value + 1
    ensures ReturnsAfter(m, n) && 2 <= n <= fuel ==> Part1(m, fuel) == Ok((n + 1) / 2)
    ensures Part1(m, fuel).Ok? ==> ReturnsAfter(m, 2 * Part1(m, fuel).value - 1) ||
                                   ReturnsAfter(m, 2 * Part1(m, fuel).value)
  {
    if Part1(m, fuel).Ok? {
      var k := StepsHome(m, fuel).value;
      StepsHomeSpec(m, fuel, k);
      if ReturnsAfter(m, n) && n != k {
        ReturnsUnique(m, n, k);
      }
    }
    StepsHomeSpec(m, fuel, n);
  }

  /** The first return is unique. */
  lemma ReturnsUnique(m: Maze, n: nat, k: nat)
    requires ReturnsAfter(m, n) && ReturnsAfter(m, k)
    ensures n == k
  {
    if n < k {
      ReturnsAt(m, n, n);
      ReturnsAt(m, k, n);
    } else if k < n {
      ReturnsAt(m, k, k);
      ReturnsAt(m, n, k);
    }
  }

  lemma ReturnsAt(m: Maze, n: nat, i: nat)
    requires ReturnsAfter(m, n) && 1 <= i <= n
    ensures Walk(m, i).Ok? && (AtStart(Walk(m, i).value) <==> i == n)
  {
  }

  function Example1(): Grid {
    [ "..F7.",
      ".FJ|.",
      "SJ.L7",
      "|F--J",
      "LJ..." ]
  }

  function Example2(): Grid {
    [ ".....",
      ".S-7.",
      ".|.|.",
      ".L-J.",
      "....." ]
  }

  /** The square loop: the start at (1, 1), the first step south. */
  lemma Example2Start()
    ensures FromMap(Example2()) == Ok(Maze(Example2(), Pos(1, 2), Pos(1, 1)))
  {
    Example2FindStart();
  }

  lemma Example2FindStart()
    ensures FindStart(Example2()) == Some(Pos(1, 1))
  {
    var grid := Example2();
    assert Find(grid[0], "S") == None by {
      assert !Contains(grid[0], "S") by {
        forall j: nat ensures !OccursAt(grid[0], "S", j) {
          OccursAtChar(grid[0], 'S', j);
        }
      }
    }
    assert Find(grid[1], "S") == Some(1) by {
      OccursAtChar(grid[1], 'S', 0);
      OccursAtChar(grid[1], 'S', 1);
    }
    assert FindStart(grid) == Some(Pos(1, 1));
  }

  /** A step that reports no `S` adds one to the count of the maze it leads to. */
  lemma StepsHomeNext(m: Maze, next: Maze, fuel: nat)
    requires fuel >= 1 && Step(m) == Ok((next, false))
    ensures StepsHome(m, fuel) ==
              if StepsHome(next, fuel - 1).Ok? then Ok(StepsHome(next, fuel - 1).value + 1) else Err
  {
  }

  /** A step that reports an `S` ends the count at 1. */
  lemma StepsHomeLast(m: Maze, next: Maze, fuel: nat)
    requires fuel >= 1 && Step(m) == Ok((next, true))
    ensures StepsHome(m, fuel) == Ok(1)
  {
  }

  function Example2Maze(x: int, y: int, lx: int, ly: int): Maze {
    Maze(Example2(), Pos(x, y), Pos(lx, ly))
  }

  lemma Example2Steps()
    ensures Step(Example2Maze(1, 2, 1, 1)) == Ok((Example2Maze(1, 3, 1, 2), false))
    ensures Step(Example2Maze(1, 3, 1, 2)) == Ok((Example2Maze(2, 3, 1, 3), false))
    ensures Step(Example2Maze(2, 3, 1, 3)) == Ok((Example2Maze(3, 3, 2, 3), false))
    ensures Step(Example2Maze(3, 3, 2, 3)) == Ok((Example2Maze(3, 2, 3, 3), false))
    ensures Step(Example2Maze(3, 2, 3, 3)) == Ok((Example2Maze(3, 1, 3, 2), false))
    ensures Step(Example2Maze(3, 1, 3, 2)) == Ok((Example2Maze(2, 1, 3, 1), false))
    ensures Step(Example2Maze(2, 1, 3, 1)) == Ok((Example2Maze(1, 1, 2, 1), true))
  {
  }

  /** The square loop is eight tiles long: the farthest tile is four steps away. */
  lemma Example2Part1()
    ensures FromMap(Example2()).Ok? && Part1(FromMap(Example2()).value, 8) == Ok(4)
  {
    Example2Start();
    Example2Steps();
    StepsHomeLast(Example2Maze(2, 1, 3, 1), Example2Maze(1, 1, 2, 1), 2);
    StepsHomeNext(Example2Maze(3, 1, 3, 2), Example2Maze(2, 1, 3, 1), 3);
    StepsHomeNext(Example2Maze(3, 2, 3, 3), Example2Maze(3, 1, 3, 2), 4);
    StepsHomeNext(Example2Maze(3, 3, 2, 3), Example2Maze(3, 2, 3, 3), 5);
    StepsHomeNext(Example2Maze(2, 3, 1, 3), Example2Maze(3, 3, 2, 3), 6);
    StepsHomeNext(Example2Maze(1, 3, 1, 2), Example2Maze(2, 3, 1, 3), 7);
    StepsHomeNext(Example2Maze(1, 2, 1, 1), Example2Maze(1, 3, 1, 2), 8);
  }

  function Example1Maze(x: int, y: int, lx: int, ly: int): Maze {
    Maze(Example1(), Pos(x, y), Pos(lx, ly))
  }

  lemma NoStartInRow(row: string)
    requires forall x :: 0 <= x < |row| ==> row[x] != 'S'
    ensures Find(row, "S") == None
  {
    forall j: nat ensures !OccursAt(row, "S", j) {
      OccursAtChar(row, 'S', j);
    }
  }

  /** The winding loop: the start at (0, 2), the first step south. */
  lemma Example1Start()
    ensures FromMap(Example1()) == Ok(Example1Maze(0, 3, 0, 2))
  {
    Example1FindStart();
  }

  lemma Example1FindStart()
    ensures FindStart(Example1()) == Some(Pos(0, 2))
  {
    var grid := Example1();
    NoStartInRow(grid[0]);
    NoStartInRow(grid[1]);
    assert Find(grid[2], "S") == Some(0) by {
      OccursAtChar(grid[2], 'S', 0);
    }
    assert FindStart(grid) == Some(Pos(0, 2));
  }

  lemma Example1StepsLow()
    ensures Step(Example1Maze(0, 3, 0, 2)) == Ok((Example1Maze(0, 4, 0, 3), false))
    ensures Step(Example1Maze(0, 4, 0, 3)) == Ok((Example1Maze(1, 4, 0, 4), false))
    ensures Step(Example1Maze(1, 4, 0, 4)) == Ok((Example1Maze(1, 3, 1, 4), false))
    ensures Step(Example1Maze(1, 3, 1, 4)) == Ok((Example1Maze(2, 3, 1, 3), false))
    ensures Step(Example1Maze(2, 3, 1, 3)) == Ok((Example1Maze(3, 3, 2, 3), false))
    ensures Step(Example1Maze(3, 3, 2, 3)) == Ok((Example1Maze(4, 3, 3, 3), false))
    ensures Step(Example1Maze(4, 3, 3, 3)) == Ok((Example1Maze(4, 2, 4, 3), false))
  {
  }

  lemma Example1StepsHigh()
    ensures Step(Example1Maze(4, 2, 4, 3)) == Ok((Example1Maze(3, 2, 4, 2), false))
    ensures Step(Example1Maze(3, 2, 4, 2)) == Ok((Example1Maze(3, 1, 3, 2), false))
    ensures Step(Example1Maze(3, 1, 3, 2)) == Ok((Example1Maze(3, 0, 3, 1), false))
    ensures Step(Example1Maze(3, 0, 3, 1)) == Ok((Example1Maze(2, 0, 3, 0), false))
    ensures Step(Example1Maze(2, 0, 3, 0)) == Ok((Example1Maze(2, 1, 2, 0), false))
    ensures Step(Example1Maze(2, 1, 2, 0)) == Ok((Example1Maze(1, 1, 2, 1), false))
    ensures Step(Example1Maze(1, 1, 2, 1)) == Ok((Example1Maze(1, 2, 1, 1), false))
    ensures Step(Example1Maze(1, 2, 1, 1)) == Ok((Example1Maze(0, 2, 1, 2), true))
  {
  }

  /** The winding loop is sixteen tiles long: the farthest tile is eight steps away. */
  lemma Example1Part1()
    ensures FromMap(Example1()).Ok? && Part1(FromMap(Example1()).value, 16) == Ok(8)
  {
    Example1Start();
    Example1StepsLow();
    Example1StepsHigh();
    StepsHomeLast(Example1Maze(1, 2, 1, 1), Example1Maze(0, 2, 1, 2), 2);
    StepsHomeNext(Example1Maze(1, 1, 2, 1), Example1Maze(1, 2, 1, 1), 3);
    StepsHomeNext(Example1Maze(2, 1, 2, 0), Example1Maze(1, 1, 2, 1), 4);
    StepsHomeNext(Example1Maze(2, 0, 3, 0), Example1Maze(2, 1, 2, 0), 5);
    StepsHomeNext(Example1Maze(3, 0, 3, 1), Example1Maze(2, 0, 3, 0), 6);
    StepsHomeNext(Example1Maze(3, 1, 3, 2), Example1Maze(3, 0, 3, 1), 7);
    StepsHomeNext(Example1Maze(3, 2, 4, 2), Example1Maze(3, 1, 3, 2), 8);
    StepsHomeNext(Example1Maze(4, 2, 4, 3), Example1Maze(3, 2, 4, 2), 9);
    StepsHomeNext(Example1Maze(4, 3, 3, 3), Example1Maze(4, 2, 4, 3), 10);
    StepsHomeNext(Example1Maze(3, 3, 2, 3), Example1Maze(4, 3, 3, 3), 11);
    StepsHomeNext(Example1Maze(2, 3, 1, 3), Example1Maze(3, 3, 2, 3), 12);
    StepsHomeNext(Example1Maze(1, 3, 1, 4), Example1Maze(2, 3, 1, 3), 13);
    StepsHomeNext(Example1Maze(1, 4, 0, 4), Example1Maze(1, 3, 1, 4), 14);
    StepsHomeNext(Example1Maze(0, 4, 0, 3), Example1Maze(1, 4, 0, 4), 15);
    StepsHomeNext(Example1Maze(0, 3, 0, 2), Example1Maze(0, 4, 0, 3), 16);
  }
}
