/** Day 16: a beam of light crossing a contraption of mirrors (`/`, `\`) and splitters
    (`|`, `-`). The source follows one beam at a time, keeps a stack of beams still to
    follow, and stops a beam when it enters a tile in a direction already seen there. The
    model follows the same loop and proves that the tiles it energizes are exactly the
    tiles the light can reach. */
module Day16 {
  import opened Wrappers
  import opened Text
  import opened Sets

  datatype Direction = Up | Down | Left | Right

  /** `Direction::next`: a quarter turn clockwise. */
  function Next(d: Direction): Direction {
    match d
    case Up => Right
    case Right => Down
    case Down => Left
    case Left => Up
  }

  /** `Direction::prev`: a quarter turn counter-clockwise. */
  function Prev(d: Direction): Direction {
    match d
    case Up => Left
    case Left => Down
    case Down => Right
    case Right => Up
  }

  /** The two turns undo each other, and four clockwise turns are a full circle while two
      are not. */
  lemma TurnsInverse(d: Direction)
    ensures Prev(Next(d)) == d && Next(Prev(d)) == d
    ensures Next(Next(Next(Next(d)))) == d
    ensures Next(Next(d)) != d && Next(d) != Prev(d)
  {
  }

  /** `Direction::is_horizontal`. */
  predicate IsHorizontal(d: Direction) {
    d == Left || d == Right
  }

  /** `Direction::is_vertical`: the negation of `is_horizontal`. */
  predicate IsVertical(d: Direction) {
    !IsHorizontal(d)
  }

  /** A quarter turn in either sense swaps horizontal and vertical travel. */
  lemma TurnsChangeAxis(d: Direction)
    ensures IsHorizontal(Next(d)) == IsVertical(d)
    ensures IsHorizontal(Prev(d)) == IsVertical(d)
    ensures IsVertical(d) <==> d == Up || d == Down
  {
  }

  /** A beam: the tile it is on and the direction it travels. */
  datatype Beam = Beam(x: int, y: int, dir: Direction)

  predicate InBox(b: Beam, w: nat, h: nat) {
    0 <= b.x < w && 0 <= b.y < h
  }

  /** `Beam::can_continue`: not about to leave the `w` by `h` grid. */
  function CanContinue(b: Beam, w: nat, h: nat): bool
    requires w >= 1 && h >= 1
  {
    !((b.x == 0 && b.dir == Left) || (b.x == w - 1 && b.dir == Right)
      || (b.y == 0 && b.dir == Up) || (b.y == h - 1 && b.dir == Down))
  }

  /** `Beam::step`: one tile in the direction of travel. */
  function Step(b: Beam): (r: Beam)
    ensures r.dir == b.dir
  {
    match b.dir
    case Left => b.(x := b.x - 1)
    case Right => b.(x := b.x + 1)
    case Up => b.(y := b.y - 1)
    case Down => b.(y := b.y + 1)
  }

  /** A beam inside the grid may continue exactly when its step stays inside, so the
      unsigned coordinates of the source never underflow or run past the grid. */
  lemma CanContinueSpec(b: Beam, w: nat, h: nat)
    requires w >= 1 && h >= 1 && InBox(b, w, h)
    ensures CanContinue(b, w, h) <==> InBox(Step(b), w, h)
  {
  }

  /** Stepping back in the opposite direction returns to the tile. */
  lemma StepBack(b: Beam)
    ensures var s := Step(b); Step(Beam(s.x, s.y, Next(Next(b.dir)))).x == b.x
    ensures var s := Step(b); Step(Beam(s.x, s.y, Next(Next(b.dir)))).y == b.y
  {
  }

  /** `Beam::mirror`: a clockwise turn for `/` met vertically or `\` met horizontally,
      counter-clockwise otherwise. */
  function Mirror(b: Beam, mirror: char): (r: Beam)
    ensures r.x == b.x && r.y == b.y
    ensures r.dir == Next(b.dir) <==>
              (mirror == '/' && IsVertical(b.dir)) || (mirror == '\\' && IsHorizontal(b.dir))
    ensures r.dir != Next(b.dir) ==> r.dir == Prev(b.dir)
  {
    if (mirror == '/' && IsVertical(b.dir)) || (mirror == '\\' && IsHorizontal(b.dir)) then
      b.(dir := Next(b.dir))
    else
      b.(dir := Prev(b.dir))
  }

  /** Reflecting twice in the same mirror gives the beam back, and a mirror always turns
      the beam onto the other axis. */
  lemma MirrorInvolution(b: Beam, mirror: char)
    requires mirror == '/' || mirror == '\\'
    ensures Mirror(Mirror(b, mirror), mirror) == b
    ensures IsHorizontal(Mirror(b, mirror).dir) == IsVertical(b.dir)
  {
  }

  /** `Beam::split`: nothing happens when the splitter lies along the beam; otherwise two
      beams leave the same tile, one turned each way. */
  function Split(b: Beam, splitter: char): (r: Option<seq<Beam>>)
    ensures r.None? <==> (splitter == '-' && IsHorizontal(b.dir)) || (splitter == '|' && IsVertical(b.dir))
    ensures r.Some? ==> |r.value| == 2 && r.value[0].dir != r.value[1].dir
    ensures r.Some? ==> forall k :: 0 <= k < 2 ==>
              r.value[k].x == b.x && r.value[k].y == b.y && IsHorizontal(r.value[k].dir) == IsVertical(b.dir)
  {
    if (splitter == '-' && IsHorizontal(b.dir)) || (splitter == '|' && IsVertical(b.dir)) then None
    else Some([Beam(b.x, b.y, Next(b.dir)), Beam(b.x, b.y, Prev(b.dir))])
  }

  type Grid = seq<seq<char>>

  /** `simulate_beam` reads the width from the first row and indexes every row up to it:
      the grid is a non-empty rectangle. */
  predicate Wf(grid: Grid) {
    |grid| >= 1 && |grid[0]| >= 1 && forall y :: 0 <= y < |grid| ==> |grid[y]| == |grid[0]|
  }

  predicate Inside(grid: Grid, b: Beam)
    requires |grid| >= 1
  {
    InBox(b, |grid[0]|, |grid|)
  }

  function Tile(grid: Grid, b: Beam): char
    requires Wf(grid) && Inside(grid, b)
  {
    grid[b.y][b.x]
  }

  /** The step a beam takes, if it stays inside the grid. */
  function Advance(grid: Grid, b: Beam): (r: Option<Beam>)
    requires Wf(grid) && Inside(grid, b)
    ensures r.Some? ==> Inside(grid, r.value) && r.value.dir == b.dir
    ensures r.Some? <==> CanContinue(b, |grid[0]|, |grid|)
  {
    CanContinueSpec(b, |grid[0]|, |grid|);
    if CanContinue(b, |grid[0]|, |grid|) then Some(Step(b)) else None
  }

  /** The directions in which light that enters the tile of `s` travelling `s.dir` leaves
      it: turned by a mirror, split in two by a splitter met across, straight on otherwise. */
  function Outs(grid: Grid, s: Beam): (ds: seq<Direction>)
    requires Wf(grid) && Inside(grid, s)
    ensures 1 <= |ds| <= 2
  {
    var c := Tile(grid, s);
    if c == '/' || c == '\\' then [Mirror(s, c).dir]
    else if c == '|' || c == '-' then
      match Split(s, c)
      case None => [s.dir]
      case Some(v) => [v[0].dir, v[1].dir]
    else [s.dir]
  }

  /** Light entering as `s` leaves its tile as `b`. */
  predicate Emits(grid: Grid, s: Beam, b: Beam)
    requires Wf(grid)
  {
    Inside(grid, s) && b.x == s.x && b.y == s.y && b.dir in Outs(grid, s)
  }

  /** Light entering as `s` enters the next tile as `t`. */
  predicate Successor(grid: Grid, s: Beam, t: Beam)
    requires Wf(grid)
  {
    var b := Beam(s.x, s.y, t.dir);
    Emits(grid, s, b) && Advance(grid, b) == Some(t)
  }

  /** Consecutive entries along a path of light. */
  ghost predicate IsPath(grid: Grid, p: seq<Beam>)
    requires Wf(grid)
  {
    && |p| >= 1
    && (forall i :: 0 <= i < |p| ==> Inside(grid, p[i]))
    && (forall i :: 0 <= i < |p| - 1 ==> Successor(grid, p[i], p[i + 1]))
  }

  /** Light that enters as `start` eventually enters as `t`, without passing through a
      state of `blocked` on the way (the two ends may be blocked). */
  ghost predicate ReachableAvoiding(grid: Grid, start: Beam, blocked: set<Beam>, t: Beam)
    requires Wf(grid)
  {
    exists p :: IsPath(grid, p) && p[0] == start && p[|p| - 1] == t
                && forall i :: 0 < i < |p| - 1 ==> p[i] !in blocked
  }

  /** Light that enters as `start` eventually enters as `t`. */
  ghost predicate Reachable(grid: Grid, start: Beam, t: Beam)
    requires Wf(grid)
  {
    ReachableAvoiding(grid, start, {}, t)
  }

  lemma ReachableStart(grid: Grid, start: Beam, blocked: set<Beam>)
    requires Wf(grid) && Inside(grid, start)
    ensures ReachableAvoiding(grid, start, blocked, start)
  {
    assert IsPath(grid, [start]);
  }

  /** One more step from a state that is the start or not blocked. */
  lemma ReachableStep(grid: Grid, start: Beam, blocked: set<Beam>, s: Beam, t: Beam)
    requires Wf(grid) && ReachableAvoiding(grid, start, blocked, s) && Successor(grid, s, t)
    requires s == start || s !in blocked
    ensures ReachableAvoiding(grid, start, blocked, t)
  {
    hide *;
    var p := ReachableWitness(grid, start, blocked, s);
    if s == start {
      PathFirst(grid, p);
      p := [start];
    }
    PathExtend(grid, p, t);
    AvoidExtend(p, t, blocked);
    ReachableIntro(grid, start, blocked, p + [t]);
  }

  lemma ReachableWitness(grid: Grid, start: Beam, blocked: set<Beam>, s: Beam) returns (p: seq<Beam>)
    requires Wf(grid) && ReachableAvoiding(grid, start, blocked, s)
    ensures IsPath(grid, p) && |p| >= 1 && p[0] == start && p[|p| - 1] == s
    ensures forall i :: 0 < i < |p| - 1 ==> p[i] !in blocked
  {
    p :| IsPath(grid, p) && p[0] == start && p[|p| - 1] == s
         && forall i :: 0 < i < |p| - 1 ==> p[i] !in blocked;
  }

  lemma ReachableIntro(grid: Grid, start: Beam, blocked: set<Beam>, q: seq<Beam>)
    requires Wf(grid) && IsPath(grid, q) && |q| >= 1 && q[0] == start
    requires forall i :: 0 < i < |q| - 1 ==> q[i] !in blocked
    ensures ReachableAvoiding(grid, start, blocked, q[|q| - 1])
  {
  }

  /** The first state of a path is a path on its own. */
  lemma PathFirst(grid: Grid, p: seq<Beam>)
    requires Wf(grid) && IsPath(grid, p)
    ensures IsPath(grid, [p[0]])
  {
  }

  /** A path followed by a successor of its last state is a path. */
  lemma PathExtend(grid: Grid, p: seq<Beam>, t: Beam)
    requires Wf(grid) && IsPath(grid, p) && Successor(grid, p[|p| - 1], t)
    ensures IsPath(grid, p + [t])
  {
    var q := p + [t];
    forall i | 0 <= i < |q| - 1
      ensures Successor(grid, q[i], q[i + 1])
    {
      if i < |p| - 1 {
        assert q[i] == p[i] && q[i + 1] == p[i + 1];
      }
    }
  }

  /** Appending a state keeps the inner states of a path outside `blocked` when the old
      last state was the start or not blocked. */
  lemma AvoidExtend(p: seq<Beam>, t: Beam, blocked: set<Beam>)
    requires |p| >= 1 && (|p| == 1 || p[|p| - 1] !in blocked)
    requires forall i :: 0 < i < |p| - 1 ==> p[i] !in blocked
    ensures forall i :: 0 < i < |p + [t]| - 1 ==> (p + [t])[i] !in blocked
  {
    var q := p + [t];
    forall i | 0 < i < |q| - 1
      ensures q[i] !in blocked
    {
      assert q[i] == p[i];
    }
  }

  /** Every state a beam can be in on this grid. */
  function AllStates(grid: Grid): set<Beam>
    requires |grid| >= 1
  {
    set x, y, d | 0 <= x < |grid[0]| && 0 <= y < |grid| && d in {Up, Down, Left, Right} :: Beam(x, y, d)
  }

  lemma InAllStates(grid: Grid, b: Beam)
    requires |grid| >= 1 && Inside(grid, b)
    ensures b in AllStates(grid)
  {
    assert b.dir.Up? || b.dir.Down? || b.dir.Left? || b.dir.Right?;
    assert b.dir in {Up, Down, Left, Right};
    assert b == Beam(b.x, b.y, b.dir);
  }

  function Positions(states: set<Beam>): set<(int, int)> {
    set s | s in states :: (s.x, s.y)
  }

  /** The loop state: the entries seen (`visited_states`), the tiles lit
      (`energized_tiles`) and the beams still to follow. */
  datatype Walk = Walk(visited: set<Beam>, energized: set<(int, int)>, beams: seq<Beam>)

  predicate WalkOk(grid: Grid, w: Walk)
    requires Wf(grid)
  {
    && w.visited <= AllStates(grid)
    && w.energized == Positions(w.visited)
    && (forall k :: 0 <= k < |w.beams| ==> Inside(grid, w.beams[k]))
  }

  /** Entering a new state inside the grid keeps the walk well formed: the state joins
      the seen ones and its tile the lit ones. */
  lemma EnterOk(grid: Grid, w: Walk, t: Beam)
    requires Wf(grid) && WalkOk(grid, w) && Inside(grid, t)
    ensures WalkOk(grid, Walk(w.visited + {t}, w.energized + {(t.x, t.y)}, w.beams))
    ensures w.visited <= w.visited + {t} <= AllStates(grid)
  {
    InAllStates(grid, t);
    assert Positions(w.visited + {t}) == Positions(w.visited) + {(t.x, t.y)};
  }

  /** Pushing beams inside the grid keeps the walk well formed. */
  lemma PushOk(grid: Grid, w: Walk, v: seq<Beam>)
    requires Wf(grid) && WalkOk(grid, w) && forall k :: 0 <= k < |v| ==> Inside(grid, v[k])
    ensures WalkOk(grid, w.(beams := w.beams + v))
  {
    var r := w.(beams := w.beams + v);
    forall k | 0 <= k < |r.beams|
      ensures Inside(grid, r.beams[k])
    {
      if k >= |w.beams| {
        assert r.beams[k] == v[k - |w.beams|];
      }
    }
  }

  /** Popping the last beam keeps the walk well formed; the popped beam is inside. */
  lemma PopOk(grid: Grid, w: Walk)
    requires Wf(grid) && WalkOk(grid, w) && |w.beams| > 0
    ensures WalkOk(grid, w.(beams := w.beams[..|w.beams| - 1])) && Inside(grid, w.beams[|w.beams| - 1])
  {
  }

  lemma WalkWithin(grid: Grid, w: Walk)
    requires Wf(grid) && WalkOk(grid, w)
    ensures w.visited <= AllStates(grid)
  {
  }

  /** Seeing one more state leaves fewer states unseen. */
  lemma Shrinks<T>(all: set<T>, seen: set<T>, more: set<T>)
    requires seen <= more <= all
    ensures |all - more| <= |all - seen|
    ensures seen != more ==> |all - more| < |all - seen|
  {
    SubsetCard(all - more, all - seen);
    if seen != more {
      var x :| x in more && x !in seen;
      SubsetCard(all - more, (all - seen) - {x});
    }
  }

  /** The inner `while` of `simulate_beam`: follow `beam` until it leaves the grid, enters
      a state already seen, or splits (the two new beams go on the stack). */
  function Trace(grid: Grid, beam: Beam, w: Walk): (r: Walk)
    requires Wf(grid) && Inside(grid, beam) && WalkOk(grid, w)
    ensures WalkOk(grid, r)
    ensures w.visited <= r.visited
    ensures r.visited == w.visited ==> r.beams == w.beams
    ensures w.beams <= r.beams
    decreases |AllStates(grid) - w.visited|
  {
    match Advance(grid, beam)
    case None => w
    case Some(b) =>
      if b in w.visited then w
      else
        InAllStates(grid, b);
        var seen := w.visited + {b};
        Shrinks(AllStates(grid), w.visited, seen);
        var next := Walk(seen, w.energized + {(b.x, b.y)}, w.beams);
        EnterOk(grid, w, b);
        var c := Tile(grid, b);
        if c == '/' || c == '\\' then Trace(grid, Mirror(b, c), next)
        else if c == '|' || c == '-' then
          match Split(b, c)
          case None => Trace(grid, b, next)
          case Some(v) => PushOk(grid, next, v); next.(beams := w.beams + v)
        else Trace(grid, b, next)
  }

  /** The outer `while`: pop the last beam from the stack and trace it, until the stack
      is empty. */
  function Drain(grid: Grid, w: Walk): (r: Walk)
    requires Wf(grid) && WalkOk(grid, w)
    ensures WalkOk(grid, r) && r.beams == []
    ensures w.visited <= r.visited
    decreases |AllStates(grid) - w.visited|, |w.beams|
  {
    if |w.beams| == 0 then w
    else
      var n := |w.beams|;
      var t := Trace(grid, w.beams[n - 1], w.(beams := w.beams[..n - 1]));
      Shrinks(AllStates(grid), w.visited, t.visited);
      Drain(grid, t)
  }

  /** The stack before the loop: the start beam, turned by a mirror or split by a
      splitter met across. */
  function SeedBeams(grid: Grid, start: Beam): (beams: seq<Beam>)
    requires Wf(grid) && Inside(grid, start)
    ensures |beams| == |Outs(grid, start)|
    ensures forall k :: 0 <= k < |beams| ==> beams[k] == Beam(start.x, start.y, Outs(grid, start)[k])
  {
    var c := Tile(grid, start);
    var turned := if c == '/' || c == '\\' then Mirror(start, c) else start;
    if c == '|' || c == '-' then Split(turned, c).GetOr([turned]) else [turned]
  }

  /** The state `simulate_beam` records before the loop: the start beam after a mirror on
      the start tile has turned it. */
  function SeedRecordAsWritten(grid: Grid, start: Beam): (r: Beam)
    requires Wf(grid) && Inside(grid, start)
    ensures Inside(grid, r) && r.x == start.x && r.y == start.y
  {
    var c := Tile(grid, start);
    if c == '/' || c == '\\' then Mirror(start, c) else start
  }

  /** `simulate_beam` as written: the loop seeded with the turned start beam. */
  function RunAsWritten(grid: Grid, start: Beam): (r: Walk)
    requires Wf(grid) && Inside(grid, start)
    ensures WalkOk(grid, r)
  {
    var record := SeedRecordAsWritten(grid, start);
    InAllStates(grid, record);
    Drain(grid, Walk({record}, {(start.x, start.y)}, SeedBeams(grid, start)))
  }

  /** `simulate_beam` with the start recorded as the state in which light enters the
      start tile, like every other entry. */
  function Run(grid: Grid, start: Beam): (r: Walk)
    requires Wf(grid) && Inside(grid, start)
    ensures WalkOk(grid, r)
    ensures start in r.visited
  {
    InAllStates(grid, start);
    Drain(grid, Walk({start}, {(start.x, start.y)}, SeedBeams(grid, start)))
  }

  /** The number of energized tiles. */
  function SimulateBeam(grid: Grid, start: Beam): (n: nat)
    requires Wf(grid) && Inside(grid, start)
    ensures 1 <= n <= |grid[0]| * |grid|
  {
    var r := Run(grid, start);
    assert (start.x, start.y) in r.energized;
    EnergizedBound(grid, r.visited);
    |r.energized|
  }

  /** Light leaving as `b` is accounted for: it leaves the grid, enters a state already
      seen, waits on the stack, or is the beam being followed. */
  predicate Handled(grid: Grid, w: Walk, current: Option<Beam>, b: Beam)
    requires Wf(grid) && Inside(grid, b)
  {
    match Advance(grid, b)
    case None => true
    case Some(t) => t in w.visited || b in w.beams || current == Some(b)
  }

  /** Every way out of every seen entry outside `exempt` is accounted for. */
  ghost predicate Covered(grid: Grid, w: Walk, current: Option<Beam>, exempt: set<Beam>)
    requires Wf(grid)
  {
    forall s, b :: s in w.visited && s !in exempt && Emits(grid, s, b) ==> Handled(grid, w, current, b)
  }

  /** Light leaving any seen entry outside `exempt` stays among the seen entries or leaves
      the grid. */
  ghost predicate Closed(grid: Grid, visited: set<Beam>, exempt: set<Beam>)
    requires Wf(grid)
  {
    forall s, b :: s in visited && s !in exempt && Emits(grid, s, b) ==>
      Advance(grid, b).None? || Advance(grid, b).value in visited
  }

  /** Obligations survive once the followed beam has stopped. */
  lemma CoveredStop(grid: Grid, w: Walk, beam: Beam, exempt: set<Beam>)
    requires Wf(grid) && Inside(grid, beam) && Covered(grid, w, Some(beam), exempt)
    requires Advance(grid, beam).None? || Advance(grid, beam).value in w.visited
    ensures Covered(grid, w, None, exempt)
  {
  }

  /** Obligations survive entering a new state `t` when every way out of `t` is the next
      followed beam or on the stack. */
  lemma CoveredEnter(grid: Grid, w: Walk, beam: Beam, t: Beam, w': Walk, current: Option<Beam>, exempt: set<Beam>)
    requires Wf(grid) && Inside(grid, beam) && Covered(grid, w, Some(beam), exempt)
    requires Advance(grid, beam) == Some(t)
    requires w'.visited == w.visited + {t} && w.beams <= w'.beams
    requires forall b :: Emits(grid, t, b) ==> b in w'.beams || current == Some(b)
    ensures Covered(grid, w', current, exempt)
  {
    forall s, b | s in w'.visited && s !in exempt && Emits(grid, s, b)
      ensures Handled(grid, w', current, b)
    {
      if s != t {
        assert Handled(grid, w, Some(beam), b);
        if b in w.beams {
          var k :| 0 <= k < |w.beams| && w.beams[k] == b;
          assert w'.beams[k] == b;
        }
      }
    }
  }

  /** The two beams a splitter met across pushes on the stack are exactly the ways out
      of its tile. */
  lemma SplitPushed(grid: Grid, t: Beam, c: char, v: seq<Beam>, stack: seq<Beam>)
    requires Wf(grid) && Inside(grid, t) && c == Tile(grid, t) && (c == '|' || c == '-')
    requires Split(t, c) == Some(v)
    ensures forall b :: Emits(grid, t, b) ==> b in stack + v
    ensures forall k :: |stack| <= k < |stack + v| ==> Emits(grid, t, (stack + v)[k])
  {
    var r := stack + v;
    forall b | Emits(grid, t, b)
      ensures b in r
    {
      if b.dir == v[0].dir {
        assert b == v[0] && r[|stack|] == b;
      } else {
        assert b == v[1] && r[|stack| + 1] == b;
      }
    }
    forall k | |stack| <= k < |r|
      ensures Emits(grid, t, r[k])
    {
      assert r[k] == v[k - |stack|];
    }
  }

  /** The beam `Trace` follows ends with every obligation met. */
  lemma {:induction false} TraceCovers(grid: Grid, beam: Beam, w: Walk, exempt: set<Beam>)
    requires Wf(grid) && Inside(grid, beam) && WalkOk(grid, w)
    requires Covered(grid, w, Some(beam), exempt)
    ensures Covered(grid, Trace(grid, beam, w), None, exempt)
    decreases |AllStates(grid) - w.visited|
  {
    hide Covered, WalkOk;
    match Advance(grid, beam)
    case None =>
      CoveredStop(grid, w, beam, exempt);
    case Some(t) =>
      if t in w.visited {
        CoveredStop(grid, w, beam, exempt);
      } else {
        EnterOk(grid, w, t);
        var seen := w.visited + {t};
        Shrinks(AllStates(grid), w.visited, seen);
        var next := Walk(seen, w.energized + {(t.x, t.y)}, w.beams);
        var c := Tile(grid, t);
        if c == '/' || c == '\\' {
          CoveredEnter(grid, w, beam, t, next, Some(Mirror(t, c)), exempt);
          TraceCovers(grid, Mirror(t, c), next, exempt);
        } else if c == '|' || c == '-' {
          match Split(t, c)
          case None =>
            CoveredEnter(grid, w, beam, t, next, Some(t), exempt);
            TraceCovers(grid, t, next, exempt);
          case Some(v) =>
            var r := next.(beams := w.beams + v);
            SplitPushed(grid, t, c, v, w.beams);
            CoveredEnter(grid, w, beam, t, r, None, exempt);
        } else {
          CoveredEnter(grid, w, beam, t, next, Some(t), exempt);
          TraceCovers(grid, t, next, exempt);
        }
      }
  }

  /** Draining the stack leaves every seen entry outside `exempt` closed. */
  lemma {:induction false} DrainCloses(grid: Grid, w: Walk, exempt: set<Beam>)
    requires Wf(grid) && WalkOk(grid, w) && Covered(grid, w, None, exempt)
    ensures Closed(grid, Drain(grid, w).visited, exempt)
    decreases |AllStates(grid) - w.visited|, |w.beams|
  {
    if |w.beams| == 0 {
      assert Covered(grid, w, None, exempt);
    } else {
      var n := |w.beams|;
      var last := w.beams[n - 1];
      var rest := w.(beams := w.beams[..n - 1]);
      forall s, b | s in rest.visited && s !in exempt && Emits(grid, s, b)
        ensures Handled(grid, rest, Some(last), b)
      {
        assert Handled(grid, w, None, b);
        if b in w.beams && b != last {
          var k :| 0 <= k < n && w.beams[k] == b;
          assert rest.beams[k] == b;
        }
      }
      TraceCovers(grid, last, rest, exempt);
      var t := Trace(grid, last, rest);
      Shrinks(AllStates(grid), w.visited, t.visited);
      DrainCloses(grid, t, exempt);
    }
  }

  /** `b` leaves a state that light reaches from `start` avoiding `blocked`, and that
      state is the start or not blocked. */
  ghost predicate Originates(grid: Grid, start: Beam, blocked: set<Beam>, b: Beam)
    requires Wf(grid)
  {
    exists s :: ReachableAvoiding(grid, start, blocked, s) && (s == start || s !in blocked) && Emits(grid, s, b)
  }

  /** Everything the walk has seen (outside `blocked`) or still has to follow comes from
      light that started as `start`. */
  ghost predicate Sound(grid: Grid, start: Beam, blocked: set<Beam>, w: Walk, current: Option<Beam>)
    requires Wf(grid)
  {
    && blocked <= w.visited
    && (forall v :: v in w.visited && v !in blocked ==> ReachableAvoiding(grid, start, blocked, v))
    && (forall k :: 0 <= k < |w.beams| ==> Originates(grid, start, blocked, w.beams[k]))
    && (current.Some? ==> Originates(grid, start, blocked, current.value))
  }

  /** Entering a new state `t` with the followed beam keeps the walk sound, provided the
      next followed beam and the new stack entries leave `t`. */
  lemma SoundEnter(grid: Grid, start: Beam, blocked: set<Beam>, w: Walk, beam: Beam, t: Beam,
                   w': Walk, current: Option<Beam>)
    requires Wf(grid) && Inside(grid, beam) && Sound(grid, start, blocked, w, Some(beam))
    requires Advance(grid, beam) == Some(t) && t !in w.visited
    requires w'.visited == w.visited + {t} && w.beams <= w'.beams
    requires forall k :: |w.beams| <= k < |w'.beams| ==> Emits(grid, t, w'.beams[k])
    requires current.Some? ==> Emits(grid, t, current.value)
    ensures Sound(grid, start, blocked, w', current)
  {
    var s :| ReachableAvoiding(grid, start, blocked, s) && (s == start || s !in blocked) && Emits(grid, s, beam);
    assert beam == Beam(s.x, s.y, t.dir);
    ReachableStep(grid, start, blocked, s, t);
    assert t !in blocked;
    forall k | 0 <= k < |w'.beams|
      ensures Originates(grid, start, blocked, w'.beams[k])
    {
      if k < |w.beams| {
        assert w'.beams[k] == w.beams[k];
      }
    }
  }

  /** Soundness survives once the followed beam has stopped. */
  lemma SoundStop(grid: Grid, start: Beam, blocked: set<Beam>, w: Walk, beam: Beam)
    requires Wf(grid) && Sound(grid, start, blocked, w, Some(beam))
    ensures Sound(grid, start, blocked, w, None)
  {
  }

  /** Everything `Trace` adds comes from the start. */
  lemma {:induction false} TraceSound(grid: Grid, start: Beam, blocked: set<Beam>, beam: Beam, w: Walk)
    requires Wf(grid) && Inside(grid, beam) && WalkOk(grid, w)
    requires Sound(grid, start, blocked, w, Some(beam))
    ensures Sound(grid, start, blocked, Trace(grid, beam, w), None)
    decreases |AllStates(grid) - w.visited|
  {
    hide Sound, WalkOk;
    match Advance(grid, beam)
    case None =>
      SoundStop(grid, start, blocked, w, beam);
    case Some(t) =>
      if t in w.visited {
        SoundStop(grid, start, blocked, w, beam);
      } else {
        EnterOk(grid, w, t);
        var seen := w.visited + {t};
        Shrinks(AllStates(grid), w.visited, seen);
        var next := Walk(seen, w.energized + {(t.x, t.y)}, w.beams);
        var c := Tile(grid, t);
        if c == '/' || c == '\\' {
          SoundEnter(grid, start, blocked, w, beam, t, next, Some(Mirror(t, c)));
          TraceSound(grid, start, blocked, Mirror(t, c), next);
        } else if c == '|' || c == '-' {
          match Split(t, c)
          case None =>
            SoundEnter(grid, start, blocked, w, beam, t, next, Some(t));
            TraceSound(grid, start, blocked, t, next);
          case Some(v) =>
            var r := next.(beams := w.beams + v);
            SplitPushed(grid, t, c, v, w.beams);
            SoundEnter(grid, start, blocked, w, beam, t, r, None);
        } else {
          SoundEnter(grid, start, blocked, w, beam, t, next, Some(t));
          TraceSound(grid, start, blocked, t, next);
        }
      }
  }

  /** Everything `Drain` sees comes from the start. */
  lemma {:induction false} DrainSound(grid: Grid, start: Beam, blocked: set<Beam>, w: Walk)
    requires Wf(grid) && WalkOk(grid, w) && Sound(grid, start, blocked, w, None)
    ensures Sound(grid, start, blocked, Drain(grid, w), None)
    decreases |AllStates(grid) - w.visited|, |w.beams|
  {
    if |w.beams| > 0 {
      hide Sound, WalkOk;
      var n := |w.beams|;
      var last := w.beams[n - 1];
      var rest := w.(beams := w.beams[..n - 1]);
      PopOk(grid, w);
      SoundPop(grid, start, blocked, w);
      TraceSound(grid, start, blocked, last, rest);
      var t := Trace(grid, last, rest);
      WalkWithin(grid, t);
      Shrinks(AllStates(grid), w.visited, t.visited);
      DrainSound(grid, start, blocked, t);
    }
  }

  /** Popping the last beam keeps soundness, with the popped beam as the one followed. */
  lemma SoundPop(grid: Grid, start: Beam, blocked: set<Beam>, w: Walk)
    requires Wf(grid) && Sound(grid, start, blocked, w, None) && |w.beams| > 0
    ensures Sound(grid, start, blocked, w.(beams := w.beams[..|w.beams| - 1]), Some(w.beams[|w.beams| - 1]))
  {
    var rest := w.beams[..|w.beams| - 1];
    forall k | 0 <= k < |rest|
      ensures Originates(grid, start, blocked, rest[k])
    {
      assert rest[k] == w.beams[k];
    }
  }

  /** The stack before the loop holds exactly the ways out of the start state. */
  lemma SeedEmits(grid: Grid, start: Beam, blocked: set<Beam>)
    requires Wf(grid) && Inside(grid, start)
    ensures forall b :: Emits(grid, start, b) ==> b in SeedBeams(grid, start)
    ensures forall k :: 0 <= k < |SeedBeams(grid, start)| ==> Originates(grid, start, blocked, SeedBeams(grid, start)[k])
  {
    var seeds := SeedBeams(grid, start);
    ReachableStart(grid, start, blocked);
    forall b | Emits(grid, start, b)
      ensures b in seeds
    {
      var k :| 0 <= k < |Outs(grid, start)| && Outs(grid, start)[k] == b.dir;
      assert seeds[k] == b;
    }
    forall k | 0 <= k < |seeds|
      ensures Originates(grid, start, blocked, seeds[k])
    {
      assert Emits(grid, start, seeds[k]);
    }
  }

  /** A closed set of entries that holds the start holds every entry light reaches. */
  lemma ClosedHoldsReachable(grid: Grid, start: Beam, visited: set<Beam>, t: Beam)
    requires Wf(grid) && Closed(grid, visited, {}) && start in visited
    requires Reachable(grid, start, t)
    ensures t in visited
  {
    var p: seq<Beam> :| IsPath(grid, p) && p[0] == start && p[|p| - 1] == t
             && forall i :: 0 < i < |p| - 1 ==> p[i] !in {};
    var i := 0;
    while i < |p| - 1
      invariant 0 <= i < |p| && p[i] in visited
    {
      var b := Beam(p[i].x, p[i].y, p[i + 1].dir);
      assert Successor(grid, p[i], p[i + 1]);
      assert Emits(grid, p[i], b);
      i := i + 1;
    }
  }

  /** The corrected walk sees exactly the entries light reaches from the start, and lights
      exactly the tiles light enters in some direction. */
  lemma RunSpec(grid: Grid, start: Beam)
    requires Wf(grid) && Inside(grid, start)
    ensures forall t :: t in Run(grid, start).visited <==> Reachable(grid, start, t)
    ensures forall x, y :: (x, y) in Run(grid, start).energized <==>
              exists d :: Reachable(grid, start, Beam(x, y, d))
  {
    InAllStates(grid, start);
    var w := Walk({start}, {(start.x, start.y)}, SeedBeams(grid, start));
    SeedEmits(grid, start, {});
    ReachableStart(grid, start, {});
    assert Covered(grid, w, None, {});
    DrainCloses(grid, w, {});
    DrainSound(grid, start, {}, w);
    var r := Run(grid, start);
    forall t | Reachable(grid, start, t)
      ensures t in r.visited
    {
      ClosedHoldsReachable(grid, start, r.visited, t);
    }
    forall x, y
      ensures (x, y) in r.energized <==> exists d :: Reachable(grid, start, Beam(x, y, d))
    {
      if (x, y) in r.energized {
        var s :| s in r.visited && (s.x, s.y) == (x, y);
        assert s == Beam(x, y, s.dir);
      }
      if exists d :: Reachable(grid, start, Beam(x, y, d)) {
        var d :| Reachable(grid, start, Beam(x, y, d));
        assert Beam(x, y, d) in r.visited;
      }
    }
  }

  /** As written, the walk is sound and closed except at the recorded start: every state
      it sees other than that record is reached from the start without passing through the
      record, and only the record's ways out may be left unexplored. */
  lemma RunAsWrittenSpec(grid: Grid, start: Beam)
    requires Wf(grid) && Inside(grid, start)
    ensures var record := SeedRecordAsWritten(grid, start);
            && Closed(grid, RunAsWritten(grid, start).visited, {record})
            && forall t :: t in RunAsWritten(grid, start).visited && t != record ==>
                 ReachableAvoiding(grid, start, {record}, t)
  {
    var record := SeedRecordAsWritten(grid, start);
    InAllStates(grid, record);
    var w := Walk({record}, {(start.x, start.y)}, SeedBeams(grid, start));
    SeedEmits(grid, start, {record});
    DrainCloses(grid, w, {record});
    DrainSound(grid, start, {record}, w);
  }

  /** Without a mirror on the start tile the recorded start is the start itself and the
      two walks coincide. */
  lemma AsWrittenWithoutMirror(grid: Grid, start: Beam)
    requires Wf(grid) && Inside(grid, start)
    requires Tile(grid, start) != '/' && Tile(grid, start) != '\\'
    ensures RunAsWritten(grid, start) == Run(grid, start)
  {
  }

  /** A three by three contraption on which the recorded start hides a way out. Light
      enters at the left of the middle row, is turned down by `\`, circles through the
      lower and upper rows and comes back into the start tile travelling down, which the
      source has already recorded; the way out to the right is never followed. */
  function TurnBack(): Grid {
    [ "/\\.",
      "\\..",
      "\\/." ]
  }

  /** The entries of the circle in `TurnBack`, in order. */
  function TurnBackCircle(): seq<Beam> {
    [ Beam(0, 1, Right), Beam(0, 2, Down), Beam(1, 2, Right), Beam(1, 1, Up), Beam(1, 0, Up),
      Beam(0, 0, Left), Beam(0, 1, Down) ]
  }

  lemma TurnBackRecord()
    ensures Wf(TurnBack()) && SeedRecordAsWritten(TurnBack(), Beam(0, 1, Right)) == Beam(0, 1, Down)
  {
  }

  /** Each entry of the circle but the last leads to the next one and nowhere else. */
  lemma TurnBackSuccessor(k: nat, t: Beam)
    requires k < 6 && Wf(TurnBack())
    ensures Successor(TurnBack(), TurnBackCircle()[k], t) <==> t == TurnBackCircle()[k + 1]
  {
    var g, c := TurnBack(), TurnBackCircle();
    assert Outs(g, c[k]) == [c[k + 1].dir] by {
      if k == 0 {} else if k == 1 {} else if k == 2 {} else if k == 3 {} else if k == 4 {} else {}
    }
  }

  /** Light entering at the left of the middle row reaches the right end of that row. */
  lemma TurnBackReaches()
    ensures Wf(TurnBack()) && Reachable(TurnBack(), Beam(0, 1, Right), Beam(2, 1, Right))
  {
    var g, c := TurnBack(), TurnBackCircle();
    var p := c + [Beam(1, 1, Right), Beam(2, 1, Right)];
    forall i | 0 <= i < |p| - 1
      ensures Successor(g, p[i], p[i + 1])
    {
      if i < 6 {
        TurnBackSuccessor(i, p[i + 1]);
      } else if i == 6 {
        assert Outs(g, p[6]) == [Right];
      } else {
        assert Outs(g, p[7]) == [Right];
      }
    }
    assert IsPath(g, p);
    assert p[0] == Beam(0, 1, Right) && p[|p| - 1] == Beam(2, 1, Right);
  }

  /** Avoiding the recorded start, light entering at the left of the middle row stays on
      the circle. */
  lemma TurnBackAvoiding(t: Beam)
    requires Wf(TurnBack()) && ReachableAvoiding(TurnBack(), Beam(0, 1, Right), {Beam(0, 1, Down)}, t)
    ensures t in TurnBackCircle()
  {
    var g, c := TurnBack(), TurnBackCircle();
    var p :| IsPath(g, p) && p[0] == Beam(0, 1, Right) && p[|p| - 1] == t
             && forall i :: 0 < i < |p| - 1 ==> p[i] !in {Beam(0, 1, Down)};
    var i := 0;
    while i < |p| - 1
      invariant 0 <= i < |p| && p[i] in c
    {
      var k :| 0 <= k < |c| && c[k] == p[i];
      assert k < 6;
      assert Successor(g, p[i], p[i + 1]);
      TurnBackSuccessor(k, p[i + 1]);
      i := i + 1;
    }
  }

  /** Avoiding the recorded start, light entering at the left of the middle row never
      reaches the right column. */
  lemma TurnBackOffRight(t: Beam)
    requires Wf(TurnBack()) && ReachableAvoiding(TurnBack(), Beam(0, 1, Right), {Beam(0, 1, Down)}, t)
    ensures t.x != 2
  {
    TurnBackAvoiding(t);
  }

  /** As written, the right end of the middle row stays dark although light reaches it;
      the corrected walk lights it. */
  lemma TurnBackMissed()
    ensures Wf(TurnBack())
    ensures (2, 1) !in RunAsWritten(TurnBack(), Beam(0, 1, Right)).energized
    ensures (2, 1) in Run(TurnBack(), Beam(0, 1, Right)).energized
  {
    hide Run, RunAsWritten, Drain, Trace, SeedBeams;
    var g, start := TurnBack(), Beam(0, 1, Right);
    TurnBackRecord();
    RunAsWrittenSpec(g, start);
    var r := RunAsWritten(g, start);
    if (2, 1) in r.energized {
      var s :| s in r.visited && (s.x, s.y) == (2, 1);
      assert s != Beam(0, 1, Down);
      TurnBackOffRight(s);
      assert false;
    }
    TurnBackReaches();
    RunSpec(g, start);
  }

  function RowCells(w: nat, y: int): set<(int, int)> {
    set x | 0 <= x < w :: (x, y)
  }

  function Cells(w: nat, h: nat): set<(int, int)> {
    set x, y | 0 <= x < w && 0 <= y < h :: (x, y)
  }

  lemma {:induction false} RowCellsCard(w: nat, y: int)
    ensures |RowCells(w, y)| == w
  {
    if w > 0 {
      RowCellsCard(w - 1, y);
      assert RowCells(w, y) == RowCells(w - 1, y) + {(w - 1, y)};
    }
  }

  lemma {:induction false} CellsCard(w: nat, h: nat)
    ensures |Cells(w, h)| == w * h
  {
    if h > 0 {
      CellsCard(w, h - 1);
      RowCellsCard(w, h - 1);
      CellsLastRow(w, h - 1);
      assert w * h == w * (h - 1) + w;
    }
  }

  /** The cells of `h` rows are those of the first `h - 1` rows and, apart from them, the
      last row. */
  lemma CellsLastRow(w: nat, h: nat)
    ensures Cells(w, h + 1) == Cells(w, h) + RowCells(w, h)
    ensures Cells(w, h) * RowCells(w, h) == {}
  {
    var all := Cells(w, h + 1);
    forall c | c in all
      ensures c in Cells(w, h) + RowCells(w, h)
    {
      if c.1 < h {
        assert c in Cells(w, h);
      } else {
        assert c in RowCells(w, h);
      }
    }
    forall c | c in Cells(w, h) * RowCells(w, h)
      ensures false
    {
    }
  }

  /** No more tiles are lit than the grid has. */
  lemma EnergizedBound(grid: Grid, states: set<Beam>)
    requires |grid| >= 1 && states <= AllStates(grid)
    ensures |Positions(states)| <= |grid[0]| * |grid|
  {
    assert Positions(states) <= Cells(|grid[0]|, |grid|);
    SubsetCard(Positions(states), Cells(|grid[0]|, |grid|));
    CellsCard(|grid[0]|, |grid|);
  }

  /** `part1`: the beam enters at the top-left corner heading right. */
  function Part1(grid: Grid): (n: nat)
    requires Wf(grid)
    ensures 1 <= n <= |grid[0]| * |grid|
  {
    SimulateBeam(grid, Beam(0, 0, Right))
  }

  /** The entries `part2` tries: down from every top tile, up from every bottom tile,
      right from every left tile and left from every right tile. */
  function EdgeStarts(grid: Grid): (starts: seq<Beam>)
    requires Wf(grid)
    ensures |starts| == 2 * |grid[0]| + 2 * |grid|
    ensures forall k :: 0 <= k < |starts| ==> Inside(grid, starts[k])
  {
    var w, h := |grid[0]|, |grid|;
    seq(w, x requires 0 <= x < w => Beam(x, 0, Down))
    + seq(w, x requires 0 <= x < w => Beam(x, h - 1, Up))
    + seq(h, y requires 0 <= y < h => Beam(0, y, Right))
    + seq(h, y requires 0 <= y < h => Beam(w - 1, y, Left))
  }

  /** The most tiles any of `starts` lights. */
  function MostEnergized(grid: Grid, starts: seq<Beam>): (n: nat)
    requires Wf(grid) && |starts| >= 1
    requires forall k :: 0 <= k < |starts| ==> Inside(grid, starts[k])
    ensures forall k :: 0 <= k < |starts| ==> SimulateBeam(grid, starts[k]) <= n
    ensures exists k :: 0 <= k < |starts| && SimulateBeam(grid, starts[k]) == n
  {
    hide SimulateBeam;
    var first := SimulateBeam(grid, starts[0]);
    if |starts| == 1 then first
    else
      var rest := MostEnergized(grid, starts[1..]);
      assert forall k :: 1 <= k < |starts| ==> starts[k] == starts[1..][k - 1];
      if first >= rest then first else rest
  }

  /** `part2`: the best entry from any edge. */
  function Part2(grid: Grid): (n: nat)
    requires Wf(grid)
  {
    MostEnergized(grid, EdgeStarts(grid))
  }

  /** A beam on an edge tile heading into the grid. */
  predicate IsEdgeStart(grid: Grid, b: Beam)
    requires Wf(grid)
  {
    && Inside(grid, b)
    && ((b.y == 0 && b.dir == Down) || (b.y == |grid| - 1 && b.dir == Up)
        || (b.x == 0 && b.dir == Right) || (b.x == |grid[0]| - 1 && b.dir == Left))
  }

  /** `part2` tries every edge entry and nothing else. */
  lemma EdgeStartsSpec(grid: Grid, b: Beam)
    requires Wf(grid)
    ensures b in EdgeStarts(grid) <==> IsEdgeStart(grid, b)
  {
    var w, h := |grid[0]|, |grid|;
    var starts := EdgeStarts(grid);
    if IsEdgeStart(grid, b) {
      if b.y == 0 && b.dir == Down {
        assert starts[b.x] == b;
      } else if b.y == h - 1 && b.dir == Up {
        assert starts[w + b.x] == b;
      } else if b.x == 0 && b.dir == Right {
        assert starts[2 * w + b.y] == b;
      } else {
        assert starts[2 * w + h + b.y] == b;
      }
    }
  }

  /** `part2` beats every entry from an edge and is reached by one of them. */
  lemma Part2Spec(grid: Grid)
    requires Wf(grid)
    ensures forall b :: IsEdgeStart(grid, b) ==> SimulateBeam(grid, b) <= Part2(grid)
    ensures exists b :: IsEdgeStart(grid, b) && SimulateBeam(grid, b) == Part2(grid)
  {
    var starts := EdgeStarts(grid);
    forall b | IsEdgeStart(grid, b)
      ensures SimulateBeam(grid, b) <= Part2(grid)
    {
      EdgeStartsSpec(grid, b);
    }
    var k :| 0 <= k < |starts| && SimulateBeam(grid, starts[k]) == Part2(grid);
    EdgeStartsSpec(grid, starts[k]);
  }

  /** `parse_input`. */
  function ParseInput(input: string): Grid {
    Lines(input)
  }
}
