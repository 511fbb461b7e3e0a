/** Day 17: a crucible crossing a city block by block. It must turn after every straight
    run, and each run is between `min_straight` and `max_straight` blocks long. Entering a
    block costs its heat-loss digit. `dijkstra` searches the states (block, whether the
    crucible arrived moving vertically) with a binary heap and a set of expanded states.

    The model states the puzzle's walks independently of the search (`Edge`, `IsWalk`,
    `WalkCost`) and proves that the search returns the least cost of a walk from the
    top-left block to the bottom-right one, and `None` exactly when no walk gets there. */
module Day17 {
  import opened Wrappers
  import opened Text

  type Grid = seq<seq<nat>>

  /** A non-empty rectangular city; the search takes the width from the first row. */
  predicate IsGrid(g: Grid) {
    |g| > 0 && |g[0]| > 0 && forall y :: 0 <= y < |g| ==> |g[y]| == |g[0]|
  }

  datatype Direction = Left | Right | Up | Down

  /** `Node`: a block and whether the crucible arrived there moving vertically. */
  datatype Node = Node(x: nat, y: nat, movesVertically: bool)

  predicate Inside(g: Grid, n: Node) {
    n.y < |g| && n.x < |g[0]|
  }

  /** Every state of the city, the bound that makes the search terminate. */
  function AllNodes(g: Grid): set<Node>
    requires IsGrid(g)
  {
    set x: nat, y: nat, f: bool | x < |g[0]| && y < |g| :: Node(x, y, f)
  }

  /** Expanding a state inside the city leaves fewer states to expand. */
  lemma VisitShrinks(g: Grid, visited: set<Node>, n: Node)
    requires IsGrid(g) && Inside(g, n) && n !in visited && visited <= AllNodes(g)
    ensures visited + {n} <= AllNodes(g)
    ensures |AllNodes(g) - (visited + {n})| < |AllNodes(g) - visited|
  {
    assert n == Node(n.x, n.y, n.movesVertically);
    assert AllNodes(g) - (visited + {n}) == (AllNodes(g) - visited) - {n};
  }

  predicate IsStart(n: Node) {
    n.x == 0 && n.y == 0
  }

  /** The bottom-right block, in either orientation. */
  predicate IsGoal(g: Grid, n: Node)
    requires IsGrid(g)
  {
    n.x == |g[0]| - 1 && n.y == |g| - 1
  }

  /** The order in which `dijkstra` tries the directions. */
  function Directions(): (ds: seq<Direction>)
    ensures |ds| == 4
  {
    [Left, Right, Up, Down]
  }

  /** The directions a state expands: a crucible that arrived vertically goes left or
      right next, one that arrived horizontally goes up or down. */
  predicate Turns(n: Node, dir: Direction) {
    if n.movesVertically then !(dir == Up || dir == Down) else !(dir == Left || dir == Right)
  }

  /** The block `i` steps from `n` in `dir`, computed as the loop computes it: with
      `checked_sub` going left or up and a comparison with the width or height going
      right or down. `None` ends the straight run. */
  function Probe(g: Grid, n: Node, dir: Direction, i: nat): Option<(nat, nat)>
    requires IsGrid(g)
  {
    match dir
    case Left => if i <= n.x then Some((n.x - i, n.y)) else None
    case Right => if n.x + i >= |g[0]| then None else Some((n.x + i, n.y))
    case Up => if i <= n.y then Some((n.x, n.y - i)) else None
    case Down => if n.y + i >= |g| then None else Some((n.x, n.y + i))
  }

  /** The number of blocks between `n` and the edge of the city in `dir`. */
  function Room(g: Grid, n: Node, dir: Direction): nat
    requires IsGrid(g) && Inside(g, n)
  {
    match dir
    case Left => n.x
    case Right => |g[0]| - 1 - n.x
    case Up => n.y
    case Down => |g| - 1 - n.y
  }

  /** A run can go on exactly as long as it stays inside the city. */
  lemma ProbeRoom(g: Grid, n: Node, dir: Direction, i: nat)
    requires IsGrid(g) && Inside(g, n)
    ensures Probe(g, n, dir, i).Some? <==> i <= Room(g, n, dir)
    ensures Probe(g, n, dir, i).Some? ==> Inside(g, Node(Probe(g, n, dir, i).value.0, Probe(g, n, dir, i).value.1, true))
  {
  }

  /** The heat lost entering the first `k` blocks of a run: the block the run starts
      from is not charged. */
  function RunCost(g: Grid, n: Node, dir: Direction, k: nat): nat
    requires IsGrid(g) && Inside(g, n) && k <= Room(g, n, dir)
  {
    if k == 0 then 0
    else
      ProbeRoom(g, n, dir, k);
      var p := Probe(g, n, dir, k).value;
      RunCost(g, n, dir, k - 1) + g[p.1][p.0]
  }

  /** The state a run of length `k` ends in: its last block, arrived at on the other axis. */
  function Arrive(g: Grid, n: Node, dir: Direction, k: nat): (m: Node)
    requires IsGrid(g) && Inside(g, n) && k <= Room(g, n, dir)
    ensures Inside(g, m)
  {
    ProbeRoom(g, n, dir, k);
    var p := Probe(g, n, dir, k).value;
    Node(p.0, p.1, !n.movesVertically)
  }

  /** The heap entries one straight run pushes while `i` goes from 1 to `k`: the
      accumulated cost and the state reached, for each `i` of at least `min_straight`. */
  function Run(g: Grid, lo: nat, n: Node, dir: Direction, k: nat): seq<(nat, Node)>
    requires IsGrid(g) && Inside(g, n) && k <= Room(g, n, dir)
  {
    if k == 0 then []
    else Run(g, lo, n, dir, k - 1) + (if k >= lo then [(RunCost(g, n, dir, k), Arrive(g, n, dir, k))] else [])
  }

  function Min(a: nat, b: nat): nat {
    if a <= b then a else b
  }

  /** The entries of a whole run: it stops after `max_straight` blocks or at the edge. */
  function Moves(g: Grid, lo: nat, hi: nat, n: Node, dir: Direction): seq<(nat, Node)>
    requires IsGrid(g) && Inside(g, n)
  {
    Run(g, lo, n, dir, Min(hi, Room(g, n, dir)))
  }

  /** The entries of the runs in the first `k` directions tried. */
  function SuccessorsUpTo(g: Grid, lo: nat, hi: nat, n: Node, k: nat): seq<(nat, Node)>
    requires IsGrid(g) && Inside(g, n) && k <= 4
  {
    if k == 0 then []
    else
      var dir := Directions()[k - 1];
      SuccessorsUpTo(g, lo, hi, n, k - 1) + (if Turns(n, dir) then Moves(g, lo, hi, n, dir) else [])
  }

  /** Everything expanding `n` pushes, as (cost of the move, state reached). */
  function Successors(g: Grid, lo: nat, hi: nat, n: Node): seq<(nat, Node)>
    requires IsGrid(g)
  {
    if Inside(g, n) then SuccessorsUpTo(g, lo, hi, n, 4) else []
  }

  /** The puzzle's rule for one move, stated without the loop: from `a` the crucible
      turns onto the other axis, goes straight for `min_straight..=max_straight` blocks
      and stops inside the city, arriving in `b`; the move costs the blocks it enters. */
  function Edge(g: Grid, lo: nat, hi: nat, a: Node, b: Node): Option<nat>
    requires IsGrid(g)
  {
    if !Inside(g, a) || !Inside(g, b) || b.movesVertically == a.movesVertically then None
    else if a.movesVertically then
      if b.y != a.y || b.x == a.x then None
      else
        var dir := if b.x < a.x then Left else Right;
        var k := if b.x < a.x then a.x - b.x else b.x - a.x;
        if lo <= k <= hi then Some(RunCost(g, a, dir, k)) else None
    else
      if b.x != a.x || b.y == a.y then None
      else
        var dir := if b.y < a.y then Up else Down;
        var k := if b.y < a.y then a.y - b.y else b.y - a.y;
        if lo <= k <= hi then Some(RunCost(g, a, dir, k)) else None
  }

  lemma {:induction false} RunMemberAt(g: Grid, lo: nat, n: Node, dir: Direction, k: nat, i: nat)
    requires IsGrid(g) && Inside(g, n) && k <= Room(g, n, dir)
    requires 1 <= i <= k && lo <= i
    ensures (RunCost(g, n, dir, i), Arrive(g, n, dir, i)) in Run(g, lo, n, dir, k)
  {
    if i < k {
      RunMemberAt(g, lo, n, dir, k - 1, i);
    }
  }

  lemma {:induction false} RunMemberOf(g: Grid, lo: nat, n: Node, dir: Direction, k: nat, e: (nat, Node)) returns (i: nat)
    requires IsGrid(g) && Inside(g, n) && k <= Room(g, n, dir)
    requires e in Run(g, lo, n, dir, k)
    ensures 1 <= i <= k && lo <= i
    ensures e == (RunCost(g, n, dir, i), Arrive(g, n, dir, i))
  {
    if e in Run(g, lo, n, dir, k - 1) {
      i := RunMemberOf(g, lo, n, dir, k - 1, e);
    } else {
      i := k;
    }
  }

  lemma {:induction false} SuccessorsUpToOf(g: Grid, lo: nat, hi: nat, n: Node, k: nat, e: (nat, Node)) returns (dir: Direction)
    requires IsGrid(g) && Inside(g, n) && k <= 4
    requires e in SuccessorsUpTo(g, lo, hi, n, k)
    ensures Turns(n, dir) && e in Moves(g, lo, hi, n, dir)
  {
    var d := Directions()[k - 1];
    if e in SuccessorsUpTo(g, lo, hi, n, k - 1) {
      dir := SuccessorsUpToOf(g, lo, hi, n, k - 1, e);
    } else {
      dir := d;
    }
  }

  lemma {:induction false} SuccessorsUpToHas(g: Grid, lo: nat, hi: nat, n: Node, k: nat, j: nat, e: (nat, Node))
    requires IsGrid(g) && Inside(g, n) && j < k <= 4
    requires Turns(n, Directions()[j]) && e in Moves(g, lo, hi, n, Directions()[j])
    ensures e in SuccessorsUpTo(g, lo, hi, n, k)
  {
    if j < k - 1 {
      SuccessorsUpToHas(g, lo, hi, n, k - 1, j, e);
    }
  }

  /** A move the search pushes obeys the rule. */
  lemma SuccessorIsEdge(g: Grid, lo: nat, hi: nat, a: Node, e: (nat, Node))
    requires IsGrid(g) && e in Successors(g, lo, hi, a)
    ensures Edge(g, lo, hi, a, e.1) == Some(e.0)
  {
    var dir := SuccessorsUpToOf(g, lo, hi, a, 4, e);
    var i := RunMemberOf(g, lo, a, dir, Min(hi, Room(g, a, dir)), e);
    hide RunCost, Run, Moves, SuccessorsUpTo, Successors;
    var c := RunCost(g, a, dir, i);
    match dir
    case Left =>
      assert e == (c, Node(a.x - i, a.y, false));
    case Right =>
      assert e == (c, Node(a.x + i, a.y, false));
    case Up =>
      assert e == (c, Node(a.x, a.y - i, true));
    case Down =>
      assert e == (c, Node(a.x, a.y + i, true));
  }

  /** Every move the rule allows is pushed. */
  lemma EdgeIsSuccessor(g: Grid, lo: nat, hi: nat, a: Node, b: Node)
    requires IsGrid(g) && Edge(g, lo, hi, a, b).Some?
    ensures (Edge(g, lo, hi, a, b).value, b) in Successors(g, lo, hi, a)
  {
    var dir, k, j := EdgeRun(g, lo, hi, a, b);
    RunMemberAt(g, lo, a, dir, Min(hi, Room(g, a, dir)), k);
    SuccessorsUpToHas(g, lo, hi, a, 4, j, (RunCost(g, a, dir, k), b));
  }

  /** An allowed move is the run of some length `k` in the `j`-th direction tried. */
  lemma EdgeRun(g: Grid, lo: nat, hi: nat, a: Node, b: Node) returns (dir: Direction, k: nat, j: nat)
    requires IsGrid(g) && Edge(g, lo, hi, a, b).Some?
    ensures Inside(g, a) && j < 4 && Directions()[j] == dir && Turns(a, dir)
    ensures 1 <= k <= Min(hi, Room(g, a, dir)) && lo <= k
    ensures Arrive(g, a, dir, k) == b && Edge(g, lo, hi, a, b) == Some(RunCost(g, a, dir, k))
  {
    hide RunCost;
    if a.movesVertically {
      if b.x < a.x {
        dir, k, j := Left, a.x - b.x, 0;
      } else {
        dir, k, j := Right, b.x - a.x, 1;
      }
    } else {
      if b.y < a.y {
        dir, k, j := Up, a.y - b.y, 2;
      } else {
        dir, k, j := Down, b.y - a.y, 3;
      }
    }
  }

  /** The expansion of a state pushes exactly the moves the rule allows, each with its
      cost. */
  lemma SuccessorsSpec(g: Grid, lo: nat, hi: nat, a: Node, b: Node, c: nat)
    requires IsGrid(g)
    ensures (c, b) in Successors(g, lo, hi, a) <==> Edge(g, lo, hi, a, b) == Some(c)
  {
    if (c, b) in Successors(g, lo, hi, a) {
      SuccessorIsEdge(g, lo, hi, a, (c, b));
    }
    if Edge(g, lo, hi, a, b) == Some(c) {
      EdgeIsSuccessor(g, lo, hi, a, b);
    }
  }

  /** Every pushed state switches axis, lies inside the city, and is reached by a
      straight run of `min_straight..=max_straight` blocks on the new axis. */
  lemma SuccessorShape(g: Grid, lo: nat, hi: nat, a: Node, e: (nat, Node))
    requires IsGrid(g) && e in Successors(g, lo, hi, a)
    ensures Inside(g, a) && Inside(g, e.1)
    ensures e.1.movesVertically == !a.movesVertically
    ensures a.movesVertically ==> e.1.y == a.y && lo <= Distance(a.x, e.1.x) <= hi && e.1.x != a.x
    ensures !a.movesVertically ==> e.1.x == a.x && lo <= Distance(a.y, e.1.y) <= hi && e.1.y != a.y
  {
    SuccessorIsEdge(g, lo, hi, a, e);
  }

  function Distance(u: nat, v: nat): nat {
    if u <= v then v - u else u - v
  }

  function Last<T>(s: seq<T>): T
    requires |s| > 0
  {
    s[|s| - 1]
  }

  /** A walk: a start state followed by moves the rule allows. */
  ghost predicate IsWalk(g: Grid, lo: nat, hi: nat, w: seq<Node>)
    requires IsGrid(g)
  {
    |w| > 0 && IsStart(w[0]) && forall j :: 0 <= j < |w| - 1 ==> Edge(g, lo, hi, w[j], w[j + 1]).Some?
  }

  /** The heat lost along a walk: the sum of its moves' costs. */
  ghost function WalkCost(g: Grid, lo: nat, hi: nat, w: seq<Node>): nat
    requires IsGrid(g) && IsWalk(g, lo, hi, w)
    decreases |w|
  {
    if |w| == 1 then 0
    else
      assert IsWalk(g, lo, hi, w[..|w| - 1]);
      WalkCost(g, lo, hi, w[..|w| - 1]) + Edge(g, lo, hi, w[|w| - 2], w[|w| - 1]).value
  }

  /** A start state alone is a walk that costs nothing. */
  lemma StartWalk(g: Grid, lo: nat, hi: nat, s: Node)
    requires IsGrid(g) && IsStart(s)
    ensures IsWalk(g, lo, hi, [s]) && WalkCost(g, lo, hi, [s]) == 0
  {
  }

  /** Extending a walk by one allowed move adds that move's cost. */
  lemma Extend(g: Grid, lo: nat, hi: nat, w: seq<Node>, b: Node)
    requires IsGrid(g) && IsWalk(g, lo, hi, w) && Edge(g, lo, hi, Last(w), b).Some?
    ensures IsWalk(g, lo, hi, w + [b])
    ensures WalkCost(g, lo, hi, w + [b]) == WalkCost(g, lo, hi, w) + Edge(g, lo, hi, Last(w), b).value
  {
    var w' := w + [b];
    assert w'[..|w'| - 1] == w;
  }

  /** A walk never leaves the city. */
  lemma WalkInside(g: Grid, lo: nat, hi: nat, w: seq<Node>)
    requires IsGrid(g) && IsWalk(g, lo, hi, w)
    ensures Inside(g, Last(w))
  {
    if |w| > 1 {
      assert Edge(g, lo, hi, w[|w| - 2], w[|w| - 1]).Some?;
    }
  }

  ghost predicate GoalReachable(g: Grid, lo: nat, hi: nat)
    requires IsGrid(g)
  {
    exists w :: IsWalk(g, lo, hi, w) && IsGoal(g, Last(w))
  }

  /** `d` is the least heat loss of a walk to the goal. */
  ghost predicate LeastCost(g: Grid, lo: nat, hi: nat, d: nat)
    requires IsGrid(g)
  {
    && (exists w :: IsWalk(g, lo, hi, w) && IsGoal(g, Last(w)) && WalkCost(g, lo, hi, w) == d)
    && (forall w :: IsWalk(g, lo, hi, w) && IsGoal(g, Last(w)) ==> d <= WalkCost(g, lo, hi, w))
  }

  /** Every heap entry is the cost of a walk (`trail[i]`) to its state. */
  ghost predicate Sound(g: Grid, lo: nat, hi: nat, heap: seq<(nat, Node)>, trail: seq<seq<Node>>)
    requires IsGrid(g)
  {
    && |trail| == |heap|
    && forall i :: 0 <= i < |heap| ==>
         && IsWalk(g, lo, hi, trail[i])
         && Last(trail[i]) == heap[i].1
         && WalkCost(g, lo, hi, trail[i]) == heap[i].0
  }

  /** Each expanded state was expanded at its least cost. */
  ghost predicate Optimal(g: Grid, lo: nat, hi: nat, dist: map<Node, nat>)
    requires IsGrid(g)
  {
    forall v, w :: v in dist && IsWalk(g, lo, hi, w) && Last(w) == v ==> dist[v] <= WalkCost(g, lo, hi, w)
  }

  /** Nothing is lost from the frontier: the starts are expanded or waiting at cost 0,
      and every move out of an expanded state leads to an expanded state or waits on the
      heap with the cost through that state. */
  ghost predicate Closed(g: Grid, lo: nat, hi: nat, heap: seq<(nat, Node)>, dist: map<Node, nat>)
    requires IsGrid(g)
  {
    && (forall s :: IsStart(s) ==> s in dist || (0, s) in heap)
    && (forall v, e :: v in dist && e in Successors(g, lo, hi, v) ==> e.1 in dist || (dist[v] + e.0, e.1) in heap)
  }

  /** The key step of Dijkstra's argument: a walk to a state not yet expanded is at
      least as costly as some heap entry. */
  lemma {:induction false} Frontier(g: Grid, lo: nat, hi: nat, heap: seq<(nat, Node)>, dist: map<Node, nat>, w: seq<Node>)
    returns (j: nat)
    requires IsGrid(g) && Optimal(g, lo, hi, dist) && Closed(g, lo, hi, heap, dist)
    requires IsWalk(g, lo, hi, w) && Last(w) !in dist
    ensures j < |heap| && heap[j].0 <= WalkCost(g, lo, hi, w)
    decreases |w|
  {
    hide Edge, Successors;
    if |w| == 1 {
      assert (0, w[0]) in heap;
      j :| 0 <= j < |heap| && heap[j] == (0, w[0]);
    } else {
      var p := w[..|w| - 1];
      assert IsWalk(g, lo, hi, p);
      var u, v := Last(p), Last(w);
      var c := Edge(g, lo, hi, u, v).value;
      assert WalkCost(g, lo, hi, w) == WalkCost(g, lo, hi, p) + c;
      if u !in dist {
        j := Frontier(g, lo, hi, heap, dist, p);
      } else {
        SuccessorsSpec(g, lo, hi, u, v, c);
        assert (dist[u] + c, v) in heap;
        j :| 0 <= j < |heap| && heap[j] == (dist[u] + c, v);
      }
    }
  }

  /** The heap entries of `moves` pushed from a state popped at cost `d`. */
  function Shifted(d: nat, moves: seq<(nat, Node)>): (r: seq<(nat, Node)>)
    ensures |r| == |moves|
  {
    if |moves| == 0 then [] else [(d + moves[0].0, moves[0].1)] + Shifted(d, moves[1..])
  }

  lemma {:induction false} ShiftedAt(d: nat, moves: seq<(nat, Node)>, k: nat)
    requires k < |moves|
    ensures Shifted(d, moves)[k] == (d + moves[k].0, moves[k].1)
  {
    if k > 0 {
      ShiftedAt(d, moves[1..], k - 1);
    }
  }

  lemma {:induction false} ShiftedAppend(d: nat, a: seq<(nat, Node)>, b: seq<(nat, Node)>)
    ensures Shifted(d, a + b) == Shifted(d, a) + Shifted(d, b)
  {
    if |a| == 0 {
      assert a + b == b;
    } else {
      assert (a + b)[1..] == a[1..] + b;
      ShiftedAppend(d, a[1..], b);
    }
  }

  /** `pq.pop()`: an entry of least cost (ties broken by position; the cost returned does
      not depend on which of them is taken). */
  method MinIndex(heap: seq<(nat, Node)>) returns (i: nat)
    requires |heap| > 0
    ensures i < |heap| && forall j :: 0 <= j < |heap| ==> heap[i].0 <= heap[j].0
  {
    i := 0;
    var k := 1;
    while k < |heap|
      invariant i < k <= |heap|
      invariant forall j :: 0 <= j < k ==> heap[i].0 <= heap[j].0
    {
      if heap[k].0 < heap[i].0 {
        i := k;
      }
      k := k + 1;
    }
  }

  /** The inner `for i in 1..max_straight + 1` loop: walk straight, adding up the heat
      lost in `delta`, and push each state at least `min_straight` blocks away; stop at
      the edge. `pushed` is what goes onto the queue, in order. */
  method PushRun(g: Grid, lo: nat, hi: nat, node: Node, dir: Direction, distance: nat)
    returns (pushed: seq<(nat, Node)>)
    requires IsGrid(g) && Inside(g, node)
    ensures pushed == Shifted(distance, Moves(g, lo, hi, node, dir))
  {
    assert Run(g, lo, node, dir, 0) == [] && RunCost(g, node, dir, 0) == 0;
    assert Shifted(distance, []) == [];
    hide Run, RunCost, Arrive, Shifted;
    pushed := [];
    var delta := 0;
    var i := 1;
    while i < hi + 1
      invariant 1 <= i <= hi + 1 && i - 1 <= Room(g, node, dir)
      invariant delta == RunCost(g, node, dir, i - 1)
      invariant pushed == Shifted(distance, Run(g, lo, node, dir, i - 1))
    {
      var p := Probe(g, node, dir, i);
      ProbeRoom(g, node, dir, i);
      if p.None? {
        break;
      }
      var x, y := p.value.0, p.value.1;
      RunStep(g, lo, node, dir, i);
      delta := delta + g[y][x];
      if i >= lo {
        ShiftedSnoc(distance, Run(g, lo, node, dir, i - 1), (delta, Node(x, y, !node.movesVertically)));
        pushed := pushed + [(distance + delta, Node(x, y, !node.movesVertically))];
      }
      i := i + 1;
    }
    ProbeRoom(g, node, dir, i);
    assert i - 1 == Min(hi, Room(g, node, dir));
  }

  /** One more step of a run: its block's weight is added and, far enough out, its
      state is pushed. */
  lemma RunStep(g: Grid, lo: nat, n: Node, dir: Direction, i: nat)
    requires IsGrid(g) && Inside(g, n) && 1 <= i <= Room(g, n, dir)
    ensures Probe(g, n, dir, i).Some?
    ensures var p := Probe(g, n, dir, i).value;
            && RunCost(g, n, dir, i) == RunCost(g, n, dir, i - 1) + g[p.1][p.0]
            && Arrive(g, n, dir, i) == Node(p.0, p.1, !n.movesVertically)
            && (i >= lo ==> Run(g, lo, n, dir, i) == Run(g, lo, n, dir, i - 1) + [(RunCost(g, n, dir, i), Node(p.0, p.1, !n.movesVertically))])
            && (i < lo ==> Run(g, lo, n, dir, i) == Run(g, lo, n, dir, i - 1))
  {
    ProbeRoom(g, n, dir, i);
    assert Run(g, lo, n, dir, i - 1) + [] == Run(g, lo, n, dir, i - 1);
  }

  lemma ShiftedSnoc(d: nat, a: seq<(nat, Node)>, e: (nat, Node))
    ensures Shifted(d, a + [e]) == Shifted(d, a) + [(d + e.0, e.1)]
  {
    ShiftedAppend(d, a, [e]);
    assert [e][1..] == [];
  }

  lemma SuccessorsUpToStep(g: Grid, lo: nat, hi: nat, n: Node, k: nat)
    requires IsGrid(g) && Inside(g, n) && 1 <= k <= 4
    ensures Turns(n, Directions()[k - 1]) ==>
              SuccessorsUpTo(g, lo, hi, n, k) == SuccessorsUpTo(g, lo, hi, n, k - 1) + Moves(g, lo, hi, n, Directions()[k - 1])
    ensures !Turns(n, Directions()[k - 1]) ==> SuccessorsUpTo(g, lo, hi, n, k) == SuccessorsUpTo(g, lo, hi, n, k - 1)
  {
    assert SuccessorsUpTo(g, lo, hi, n, k - 1) + [] == SuccessorsUpTo(g, lo, hi, n, k - 1);
  }

  /** The `for dir in [LEFT, RIGHT, UP, DOWN]` loop: one run per direction on the other
      axis. `pushed` is everything the expansion puts on the queue, in order. */
  method Expand(g: Grid, lo: nat, hi: nat, node: Node, distance: nat)
    returns (pushed: seq<(nat, Node)>)
    requires IsGrid(g) && Inside(g, node)
    ensures pushed == Shifted(distance, Successors(g, lo, hi, node))
  {
    assert SuccessorsUpTo(g, lo, hi, node, 0) == [] && Shifted(distance, []) == [];
    hide Moves, Run, SuccessorsUpTo, Shifted;
    pushed := [];
    var dirs := Directions();
    for k := 0 to 4
      invariant pushed == Shifted(distance, SuccessorsUpTo(g, lo, hi, node, k))
    {
      var dir := dirs[k];
      assert dir == Directions()[k];
      SuccessorsUpToStep(g, lo, hi, node, k + 1);
      if node.movesVertically {
        if dir == Up || dir == Down {
          continue;
        }
      } else if dir == Left || dir == Right {
        continue;
      }
      ShiftedAppend(distance, SuccessorsUpTo(g, lo, hi, node, k), Moves(g, lo, hi, node, dir));
      var run := PushRun(g, lo, hi, node, dir, distance);
      pushed := pushed + run;
    }
  }

  /** Pushing the moves out of a state reached by walk `w` at cost `d` keeps every heap
      entry backed by a walk. */
  lemma SoundPush(g: Grid, lo: nat, hi: nat, heap: seq<(nat, Node)>, trail: seq<seq<Node>>, w: seq<Node>, d: nat)
    returns (trail': seq<seq<Node>>)
    requires IsGrid(g) && Sound(g, lo, hi, heap, trail)
    requires IsWalk(g, lo, hi, w) && WalkCost(g, lo, hi, w) == d
    ensures |trail'| == |heap| + |Successors(g, lo, hi, Last(w))|
    ensures Sound(g, lo, hi, heap + Shifted(d, Successors(g, lo, hi, Last(w))), trail')
  {
    var moves := Successors(g, lo, hi, Last(w));
    var extra := seq(|moves|, k requires 0 <= k < |moves| => w + [moves[k].1]);
    trail' := trail + extra;
    var heap' := heap + Shifted(d, moves);
    forall i | 0 <= i < |heap'|
      ensures IsWalk(g, lo, hi, trail'[i]) && Last(trail'[i]) == heap'[i].1
      ensures WalkCost(g, lo, hi, trail'[i]) == heap'[i].0
    {
      if i >= |heap| {
        var k := i - |heap|;
        ShiftedAt(d, moves, k);
        SuccessorIsEdge(g, lo, hi, Last(w), moves[k]);
        Extend(g, lo, hi, w, moves[k].1);
      }
    }
  }

  /** Removing the popped entry keeps every other entry. */
  lemma Remove(heap: seq<(nat, Node)>, i: nat, e: (nat, Node))
    requires i < |heap| && e in heap
    ensures e == heap[i] || e in heap[..i] + heap[i + 1..]
  {
    var j :| 0 <= j < |heap| && heap[j] == e;
    if j < i {
      assert (heap[..i] + heap[i + 1..])[j] == e;
    } else if j > i {
      assert (heap[..i] + heap[i + 1..])[j - 1] == e;
    }
  }

  /** The popped entry, an entry of least cost for the goal, is the least cost of a walk
      to the goal. */
  lemma PopGoal(g: Grid, lo: nat, hi: nat, heap: seq<(nat, Node)>, trail: seq<seq<Node>>, dist: map<Node, nat>, i: nat)
    requires IsGrid(g) && Sound(g, lo, hi, heap, trail) && Optimal(g, lo, hi, dist) && Closed(g, lo, hi, heap, dist)
    requires forall v :: v in dist ==> !IsGoal(g, v)
    requires i < |heap| && IsGoal(g, heap[i].1) && forall j :: 0 <= j < |heap| ==> heap[i].0 <= heap[j].0
    ensures GoalReachable(g, lo, hi) && LeastCost(g, lo, hi, heap[i].0)
  {
    assert IsWalk(g, lo, hi, trail[i]) && IsGoal(g, Last(trail[i]));
    forall w | IsWalk(g, lo, hi, w) && IsGoal(g, Last(w))
      ensures heap[i].0 <= WalkCost(g, lo, hi, w)
    {
      var j := Frontier(g, lo, hi, heap, dist, w);
    }
  }

  /** With the heap empty, no walk reaches the goal. */
  lemma EmptyHeap(g: Grid, lo: nat, hi: nat, dist: map<Node, nat>)
    requires IsGrid(g) && Optimal(g, lo, hi, dist) && Closed(g, lo, hi, [], dist)
    requires forall v :: v in dist ==> !IsGoal(g, v)
    ensures !GoalReachable(g, lo, hi)
  {
    forall w | IsWalk(g, lo, hi, w) && IsGoal(g, Last(w)) ensures false {
      var j := Frontier(g, lo, hi, [], dist, w);
    }
  }

  lemma SoundRemove(g: Grid, lo: nat, hi: nat, heap: seq<(nat, Node)>, trail: seq<seq<Node>>, i: nat)
    requires IsGrid(g) && Sound(g, lo, hi, heap, trail) && i < |heap|
    ensures Sound(g, lo, hi, heap[..i] + heap[i + 1..], trail[..i] + trail[i + 1..])
  {
    hide WalkCost;
    var heap', trail' := heap[..i] + heap[i + 1..], trail[..i] + trail[i + 1..];
    forall k | 0 <= k < |heap'|
      ensures IsWalk(g, lo, hi, trail'[k]) && Last(trail'[k]) == heap'[k].1 && WalkCost(g, lo, hi, trail'[k]) == heap'[k].0
    {
      var j := if k < i then k else k + 1;
      assert heap'[k] == heap[j] && trail'[k] == trail[j];
    }
  }

  /** Dropping an entry for an expanded state loses nothing. */
  lemma PopExpanded(g: Grid, lo: nat, hi: nat, heap: seq<(nat, Node)>, trail: seq<seq<Node>>, dist: map<Node, nat>, i: nat)
    requires IsGrid(g) && Sound(g, lo, hi, heap, trail) && Closed(g, lo, hi, heap, dist)
    requires i < |heap| && heap[i].1 in dist
    ensures |trail| == |heap|
    ensures Sound(g, lo, hi, heap[..i] + heap[i + 1..], trail[..i] + trail[i + 1..])
    ensures Closed(g, lo, hi, heap[..i] + heap[i + 1..], dist)
  {
    hide Successors, IsWalk, WalkCost;
    SoundRemove(g, lo, hi, heap, trail, i);
    forall e | e in heap ensures e == heap[i] || e in heap[..i] + heap[i + 1..] {
      Remove(heap, i, e);
    }
  }

  /** Expanding the popped state, an entry of least cost for a state not yet expanded,
      records that cost as final and pushes its moves; every invariant is kept. */
  lemma PopNew(g: Grid, lo: nat, hi: nat, heap: seq<(nat, Node)>, trail: seq<seq<Node>>, dist: map<Node, nat>, i: nat)
    returns (trail': seq<seq<Node>>)
    requires IsGrid(g) && Sound(g, lo, hi, heap, trail) && Optimal(g, lo, hi, dist) && Closed(g, lo, hi, heap, dist)
    requires i < |heap| && heap[i].1 !in dist && forall j :: 0 <= j < |heap| ==> heap[i].0 <= heap[j].0
    ensures var rest := heap[..i] + heap[i + 1..];
            var dist' := dist[heap[i].1 := heap[i].0];
            && Inside(g, heap[i].1)
            && |trail'| == |rest| + |Successors(g, lo, hi, heap[i].1)|
            && Sound(g, lo, hi, rest + Shifted(heap[i].0, Successors(g, lo, hi, heap[i].1)), trail')
            && Optimal(g, lo, hi, dist')
            && Closed(g, lo, hi, rest + Shifted(heap[i].0, Successors(g, lo, hi, heap[i].1)), dist')
  {
    var (d, node) := heap[i];
    var w := trail[i];
    var rest := heap[..i] + heap[i + 1..];
    var dist' := dist[node := d];
    WalkInside(g, lo, hi, w);
    forall w' | IsWalk(g, lo, hi, w') && Last(w') == node
      ensures d <= WalkCost(g, lo, hi, w')
    {
      var j := Frontier(g, lo, hi, heap, dist, w');
    }
    SoundRemove(g, lo, hi, heap, trail, i);
    trail' := SoundPush(g, lo, hi, rest, trail[..i] + trail[i + 1..], w, d);
    ClosedVisit(g, lo, hi, heap, dist, i);
  }

  /** Expanding the popped state and pushing its moves keeps the frontier closed. */
  lemma ClosedVisit(g: Grid, lo: nat, hi: nat, heap: seq<(nat, Node)>, dist: map<Node, nat>, i: nat)
    requires IsGrid(g) && Closed(g, lo, hi, heap, dist) && i < |heap|
    ensures Closed(g, lo, hi, heap[..i] + heap[i + 1..] + Shifted(heap[i].0, Successors(g, lo, hi, heap[i].1)), dist[heap[i].1 := heap[i].0])
  {
    hide Successors, Shifted, IsWalk, WalkCost;
    var (d, node) := heap[i];
    var rest := heap[..i] + heap[i + 1..];
    var dist' := dist[node := d];
    var moves := Successors(g, lo, hi, node);
    var heap' := rest + Shifted(d, moves);
    forall v, e | v in dist' && e in Successors(g, lo, hi, v)
      ensures e.1 in dist' || (dist'[v] + e.0, e.1) in heap'
    {
      if v == node {
        var k :| 0 <= k < |moves| && moves[k] == e;
        ShiftedAt(d, moves, k);
        assert heap'[|rest| + k] == (d + e.0, e.1);
      } else {
        assert e.1 in dist || (dist[v] + e.0, e.1) in heap;
        if (dist[v] + e.0, e.1) in heap {
          Remove(heap, i, (dist[v] + e.0, e.1));
        }
      }
    }
    forall s' | IsStart(s') ensures s' in dist' || (0, s') in heap' {
      if (0, s') in heap {
        Remove(heap, i, (0, s'));
      }
    }
  }

  /** The search starts with both start states on the heap at cost 0. */
  lemma Initial(g: Grid, lo: nat, hi: nat)
    requires IsGrid(g)
    ensures Sound(g, lo, hi, [(0, Node(0, 0, false)), (0, Node(0, 0, true))], [[Node(0, 0, false)], [Node(0, 0, true)]])
    ensures Optimal(g, lo, hi, map[]) && Closed(g, lo, hi, [(0, Node(0, 0, false)), (0, Node(0, 0, true))], map[])
  {
    StartWalk(g, lo, hi, Node(0, 0, false));
    StartWalk(g, lo, hi, Node(0, 0, true));
  }

  /** `dijkstra`: the least heat loss of a walk from the top-left block to the
      bottom-right one, or `None` when no walk gets there. */
  method Dijkstra(g: Grid, lo: nat, hi: nat) returns (r: Option<nat>)
    requires IsGrid(g)
    ensures r.Some? <==> GoalReachable(g, lo, hi)
    ensures r.Some? ==> LeastCost(g, lo, hi, r.value)
  {
    hide Sound, Optimal, Closed, IsWalk, WalkCost, Edge, Successors, GoalReachable, LeastCost, AllNodes;
    var heap: seq<(nat, Node)> := [(0, Node(0, 0, false)), (0, Node(0, 0, true))];
    ghost var trail: seq<seq<Node>> := [[Node(0, 0, false)], [Node(0, 0, true)]];
    var visited: set<Node> := {};
    ghost var dist: map<Node, nat> := map[];
    Initial(g, lo, hi);
    while |heap| > 0
      invariant Sound(g, lo, hi, heap, trail) && |trail| == |heap|
      invariant visited == dist.Keys && visited <= AllNodes(g)
      invariant Optimal(g, lo, hi, dist) && Closed(g, lo, hi, heap, dist)
      invariant forall v :: v in visited ==> !IsGoal(g, v)
      decreases |AllNodes(g) - visited|, |heap|
    {
      var i := MinIndex(heap);
      var distance, node := heap[i].0, heap[i].1;
      if node.x == |g[0]| - 1 && node.y == |g| - 1 {
        PopGoal(g, lo, hi, heap, trail, dist, i);
        return Some(distance);
      }
      if node in visited {
        PopExpanded(g, lo, hi, heap, trail, dist, i);
        heap := heap[..i] + heap[i + 1..];
        trail := trail[..i] + trail[i + 1..];
        continue;
      }
      ghost var trail' := PopNew(g, lo, hi, heap, trail, dist, i);
      VisitShrinks(g, visited, node);
      heap := heap[..i] + heap[i + 1..];
      visited := visited + {node};
      dist := dist[node := distance];
      var pushed := Expand(g, lo, hi, node, distance);
      heap := heap + pushed;
      trail := trail';
    }
    EmptyHeap(g, lo, hi, dist);
    return None;
  }

  /** `part1`: runs of one to three blocks; `expect` panics, modelled as `None`, when no
      walk reaches the goal. */
  method Part1(g: Grid) returns (r: Option<nat>)
    requires IsGrid(g)
    ensures r.Some? <==> GoalReachable(g, 1, 3)
    ensures r.Some? ==> LeastCost(g, 1, 3, r.value)
  {
    r := Dijkstra(g, 1, 3);
  }

  /** `part2`: the ultra crucible, with runs of four to ten blocks. */
  method Part2(g: Grid) returns (r: Option<nat>)
    requires IsGrid(g)
    ensures r.Some? <==> GoalReachable(g, 4, 10)
    ensures r.Some? ==> LeastCost(g, 4, 10, r.value)
  {
    r := Dijkstra(g, 4, 10);
  }

  /** `(c as u8 - '0' as u8) as usize`: the character truncated to a byte, minus 48; the
      `u8` subtraction panics below `'0'`. */
  function Weight(c: char): (r: Option<nat>)
    ensures IsDigit(c) ==> r == Some(DigitValue(c))
    ensures r.Some? <==> (c as int) % 256 >= '0' as int
  {
    var b := (c as int) % 256;
    if b >= '0' as int then Some(b - '0' as int) else None
  }

  function ParseRow(line: string): (r: Option<seq<nat>>)
    ensures r.Some? <==> forall i :: 0 <= i < |line| ==> Weight(line[i]).Some?
    ensures r.Some? ==> |r.value| == |line| && forall i :: 0 <= i < |line| ==> Some(r.value[i]) == Weight(line[i])
  {
    if |line| == 0 then Some([])
    else match (Weight(line[0]), ParseRow(line[1..]))
      case (Some(w), Some(ws)) => Some([w] + ws)
      case _ => None
  }

  function ParseRows(lines: seq<string>): (r: Option<Grid>)
    ensures r.Some? <==> forall k :: 0 <= k < |lines| ==> ParseRow(lines[k]).Some?
    ensures r.Some? ==> |r.value| == |lines| && forall k :: 0 <= k < |lines| ==> Some(r.value[k]) == ParseRow(lines[k])
  {
    if |lines| == 0 then Some([])
    else match (ParseRow(lines[0]), ParseRows(lines[1..]))
      case (Some(row), Some(rows)) => Some([row] + rows)
      case _ => None
  }

  /** `parse_input`: one row of weights per line. */
  function ParseInput(input: string): Option<Grid> {
    ParseRows(Lines(input))
  }
}
