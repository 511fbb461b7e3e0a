/** Day 23, part 1: the longest hike (`lib.rs`). The map is a grid of paths (`.`),
    forest (`#`) and slopes (`^`, `v`, `<`, `>`) that may only be walked down. The source
    runs a breadth-first search from `(1, 0)` that records, for every position, the
    positions a step leads in from (its "parents"), and then answers with the length of
    the longest chain of parents that ends at the goal `(width - 2, height - 1)`.

    Positions are the source's `(usize, usize)` pairs (`x` the column, `y` the row). Every
    panic of the source (an index out of range, a `usize` that would go below zero, a
    missing key of the parent map) is `Err`. The memo table of `max_distance` only
    saves work and is not modelled; its unbounded recursion is given a fuel bound. */
module Day23 {
  import opened Wrappers
  import opened Sets

  type Grid = seq<seq<char>>

  datatype Pos = Pos(x: nat, y: nat)

  datatype Direction = Up | Down | Left | Right

  /** The slope that may only be walked down in direction `d`. */
  function Slope(d: Direction): char {
    match d
    case Up => '^'
    case Down => 'v'
    case Left => '<'
    case Right => '>'
  }

  function Opposite(d: Direction): Direction {
    match d
    case Up => Down
    case Down => Up
    case Left => Right
    case Right => Left
  }

  predicate InGrid(g: Grid, p: Pos) {
    p.y < |g| && p.x < |g[p.y]|
  }

  /** Every row as long as the first, and at least one column; the shape of a puzzle
      input. */
  predicate Rectangular(g: Grid) {
    |g| > 0 && |g[0]| > 0 && forall y :: 0 <= y < |g| ==> |g[y]| == |g[0]|
  }

  function Tiles(g: Grid): set<Pos> {
    set y, x | 0 <= y < |g| && 0 <= x < |g[y]| :: Pos(x, y)
  }

  // ---------------------------------------------------------------------------------
  // `Graph::next`

  /** `Graph::next`: the position one step from `p` in direction `d`, or `None` when the
      step would leave the grid (judged by the row count and the FIRST row's length) or
      lands on forest or on a slope pointing back at `p`. Computing `len() - 1` of an
      empty grid or row, and reading a tile that does not exist, are panics. */
  function Next(g: Grid, p: Pos, d: Direction): Result<Option<Pos>> {
    var step :-
      match d
      case Left => Ok(if p.x != 0 then Some((Pos(p.x - 1, p.y), '>')) else None)
      case Right =>
        if |g| == 0 || |g[0]| == 0 then Err
        else Ok(if p.x != |g[0]| - 1 then Some((Pos(p.x + 1, p.y), '<')) else None)
      case Up => Ok(if p.y != 0 then Some((Pos(p.x, p.y - 1), 'v')) else None)
      case Down =>
        if |g| == 0 then Err
        else Ok(if p.y != |g| - 1 then Some((Pos(p.x, p.y + 1), '^')) else None);
    match step
    case None => Ok(None)
    case Some((q, c)) =>
      if InGrid(g, q) then Ok(if g[q.y][q.x] != '#' && g[q.y][q.x] != c then Some(q) else None)
      else Err
  }

  /** The column and row offsets of one step in direction `d`. */
  function DeltaX(d: Direction): int {
    match d
    case Left => -1
    case Right => 1
    case _ => 0
  }

  function DeltaY(d: Direction): int {
    match d
    case Up => -1
    case Down => 1
    case _ => 0
  }

  /** The reference: `q` is the tile one step from `p` in direction `d`, it lies in the
      grid, and it is neither forest nor a slope that points against the direction of
      travel. */
  predicate Enters(g: Grid, p: Pos, d: Direction, q: Pos) {
    && q.x == p.x + DeltaX(d) && q.y == p.y + DeltaY(d)
    && InGrid(g, q)
    && g[q.y][q.x] != '#' && g[q.y][q.x] != Slope(Opposite(d))
  }

  /** Whatever the grid's shape, a step that `next` allows is a step of the reference. */
  lemma NextSound(g: Grid, p: Pos, d: Direction, q: Pos)
    requires Next(g, p, d) == Ok(Some(q))
    ensures Enters(g, p, d, q)
  {
  }

  /** On a rectangular grid and from a position inside it, `next` never panics, and it
      allows exactly the steps of the reference; `None` means that no step of the
      reference exists in that direction. */
  lemma NextSpec(g: Grid, p: Pos, d: Direction, q: Pos)
    requires Rectangular(g) && InGrid(g, p)
    ensures Next(g, p, d).Ok?
    ensures Next(g, p, d) == Ok(Some(q)) <==> Enters(g, p, d, q)
    ensures Next(g, p, d) == Ok(None) <==> forall r: Pos :: !Enters(g, p, d, r)
  {
    assert |g[p.y]| == |g[0]|;
    if Next(g, p, d).value.Some? {
      NextSound(g, p, d, Next(g, p, d).value.value);
    }
  }

  /** A step `next` allows in some direction. */
  ghost predicate Edge(g: Grid, p: Pos, q: Pos) {
    exists d :: Next(g, p, d) == Ok(Some(q))
  }

  /** The order in which the source tries the directions. */
  const Directions: seq<Direction> := [Up, Down, Left, Right]

  lemma DirectionsComplete(d: Direction)
    ensures d in Directions
  {
  }

  // ---------------------------------------------------------------------------------
  // The breadth-first search of `part1`

  const Start: Pos := Pos(1, 0)

  /** A queue entry: the position a step came from (`None` for the start) and the
      position it reached. */
  datatype Entry = Entry(pred: Option<Pos>, pos: Pos)

  /** For every position, the positions that lead into it, in the order they were
      found. */
  type Parents = map<Pos, seq<Pos>>

  /** The visited set of the source. Each visited position also records the predecessor
      it was expanded with, which decides the one neighbour its expansion skips. */
  type Visited = map<Pos, Option<Pos>>

  /** `parents.entry(q).or_default().push(p)`. */
  function Link(parents: Parents, q: Pos, p: Pos): Parents {
    parents[q := (if q in parents then parents[q] else []) + [p]]
  }

  /** One turn of the `for dir` loop: unless the step is refused or leads straight back
      to the predecessor, record the parent edge and push the neighbour. */
  function Visit(g: Grid, e: Entry, d: Direction, parents: Parents, queue: seq<Entry>): Result<(Parents, seq<Entry>)> {
    var n :- Next(g, e.pos, d);
    match n
    case None => Ok((parents, queue))
    case Some(q) =>
      if e.pred == Some(q) then Ok((parents, queue))
      else Ok((Link(parents, q, e.pos), queue + [Entry(Some(e.pos), q)]))
  }

  /** The `for dir` loop over the directions `ds`. */
  function Expand(g: Grid, e: Entry, ds: seq<Direction>, parents: Parents, queue: seq<Entry>): Result<(Parents, seq<Entry>)>
    decreases |ds|
  {
    if ds == [] then Ok((parents, queue))
    else
      var (parents', queue') :- Visit(g, e, ds[0], parents, queue);
      Expand(g, e, ds[1..], parents', queue')
  }

  function Positions(queue: seq<Entry>): set<Pos> {
    set i | 0 <= i < |queue| :: queue[i].pos
  }

  /** The start and every tile: the positions a queue can hold. */
  function Universe(g: Grid): set<Pos> {
    Tiles(g) + {Start}
  }

  /** The `while` loop of `part1`. */
  function Search(g: Grid, queue: seq<Entry>, visited: Visited, parents: Parents): Result<(Parents, Visited)>
    requires Positions(queue) <= Universe(g)
    decreases |Universe(g) - visited.Keys|, |queue|
  {
    if queue == [] then Ok((parents, visited))
    else
      var e := queue[0];
      PositionsPop(queue);
      if e.pos in visited then Search(g, queue[1..], visited, parents)
      else
        var (parents', queue') :- Expand(g, e, Directions, parents, queue[1..]);
        ExpandInGrid(g, e, Directions, parents, queue[1..]);
        Fewer(g, visited, e);
        Search(g, queue', visited[e.pos := e.pred], parents')
  }

  /** The parent map `part1` builds. */
  function BuildParents(g: Grid): Result<(Parents, Visited)> {
    PositionsOne(Entry(None, Start));
    Search(g, [Entry(None, Start)], map[], map[Start := []])
  }

  lemma PositionsOne(e: Entry)
    ensures Positions([e]) == {e.pos}
  {
    assert [e][0].pos == e.pos;
  }

  lemma PositionsPop(queue: seq<Entry>)
    requires |queue| > 0
    ensures Positions(queue) == {queue[0].pos} + Positions(queue[1..])
  {
    forall q | q in Positions(queue)
      ensures q in {queue[0].pos} + Positions(queue[1..])
    {
      var i :| 0 <= i < |queue| && queue[i].pos == q;
      if i > 0 {
        assert queue[1..][i - 1].pos == q;
      }
    }
    forall q | q in Positions(queue[1..])
      ensures q in Positions(queue)
    {
      var i :| 0 <= i < |queue[1..]| && queue[1..][i].pos == q;
      assert queue[i + 1].pos == q;
    }
  }

  lemma PositionsPush(queue: seq<Entry>, e: Entry)
    ensures Positions(queue + [e]) == Positions(queue) + {e.pos}
  {
    var r := queue + [e];
    forall q | q in Positions(r)
      ensures q in Positions(queue) + {e.pos}
    {
      var i :| 0 <= i < |r| && r[i].pos == q;
      if i < |queue| {
        assert queue[i].pos == q;
      }
    }
    forall q | q in Positions(queue)
      ensures q in Positions(r)
    {
      var i :| 0 <= i < |queue| && queue[i].pos == q;
      assert r[i].pos == q;
    }
    assert r[|queue|].pos == e.pos;
  }

  lemma TilesInGrid(g: Grid, p: Pos)
    ensures p in Tiles(g) <==> InGrid(g, p)
  {
    if InGrid(g, p) {
      assert p == Pos(p.x, p.y);
    }
  }

  /** The expansion pushes only tiles of the grid. */
  lemma {:induction false} ExpandInGrid(g: Grid, e: Entry, ds: seq<Direction>, parents: Parents, queue: seq<Entry>)
    requires Positions(queue) <= Universe(g)
    requires Expand(g, e, ds, parents, queue).Ok?
    ensures Positions(Expand(g, e, ds, parents, queue).value.1) <= Universe(g)
    decreases |ds|
  {
    if ds != [] {
      var n := Next(g, e.pos, ds[0]);
      if n.value.Some? && e.pred != Some(n.value.value) {
        var q := n.value.value;
        PositionsPush(queue, Entry(Some(e.pos), q));
        TilesInGrid(g, q);
      }
      var (parents', queue') := Visit(g, e, ds[0], parents, queue).value;
      ExpandInGrid(g, e, ds[1..], parents', queue');
    }
  }

  /** Visiting a new position of the universe shrinks the unvisited part. */
  lemma Fewer(g: Grid, visited: Visited, e: Entry)
    requires e.pos in Universe(g) && e.pos !in visited
    ensures |Universe(g) - visited[e.pos := e.pred].Keys| < |Universe(g) - visited.Keys|
  {
    var rest := Universe(g) - visited.Keys;
    assert Universe(g) - visited[e.pos := e.pred].Keys == rest - {e.pos};
  }

  // ---------------------------------------------------------------------------------
  // What one expansion does

  /** `q` is a neighbour that the expansion of `e` over the directions `ds` pushes: a
      step in one of them reaches `q`, and `q` is not the predecessor of `e`. */
  ghost predicate Onward(g: Grid, e: Entry, ds: seq<Direction>, q: Pos) {
    e.pred != Some(q) && exists i :: 0 <= i < |ds| && Next(g, e.pos, ds[i]) == Ok(Some(q))
  }

  lemma OnwardCons(g: Grid, e: Entry, ds: seq<Direction>, q: Pos)
    requires ds != []
    ensures Onward(g, e, ds, q) <==>
      (e.pred != Some(q) && Next(g, e.pos, ds[0]) == Ok(Some(q))) || Onward(g, e, ds[1..], q)
  {
    if Onward(g, e, ds, q) {
      var i :| 0 <= i < |ds| && Next(g, e.pos, ds[i]) == Ok(Some(q));
      if i > 0 {
        assert ds[1..][i - 1] == ds[i];
      }
    }
    if Onward(g, e, ds[1..], q) {
      var i :| 0 <= i < |ds[1..]| && Next(g, e.pos, ds[1..][i]) == Ok(Some(q));
      assert ds[i + 1] == ds[1..][i];
    }
  }

  lemma OnwardEmpty(g: Grid, e: Entry, q: Pos)
    ensures !Onward(g, e, [], q)
  {
  }

  /** Over all four directions, the expansion pushes exactly the neighbours other than
      the predecessor. */
  lemma OnwardAll(g: Grid, e: Entry, q: Pos)
    ensures Onward(g, e, Directions, q) <==> e.pred != Some(q) && Edge(g, e.pos, q)
  {
    if Edge(g, e.pos, q) {
      var d :| Next(g, e.pos, d) == Ok(Some(q));
      DirectionsComplete(d);
      var i :| 0 <= i < |Directions| && Directions[i] == d;
    }
  }

  /** The expansion panics exactly when `next` panics in one of its directions. */
  lemma {:induction false} ExpandOk(g: Grid, e: Entry, ds: seq<Direction>, parents: Parents, queue: seq<Entry>)
    ensures Expand(g, e, ds, parents, queue).Ok? <==> forall i :: 0 <= i < |ds| ==> Next(g, e.pos, ds[i]).Ok?
    decreases |ds|
  {
    if ds != [] {
      if Visit(g, e, ds[0], parents, queue).Ok? {
        var (parents', queue') := Visit(g, e, ds[0], parents, queue).value;
        ExpandOk(g, e, ds[1..], parents', queue');
        assert forall i :: 1 <= i < |ds| ==> ds[i] == ds[1..][i - 1];
      }
    }
  }

  /** The expansion appends to the queue, and what it appends are the onward
      neighbours, each with the expanded position as predecessor. */
  lemma {:induction false} ExpandQueue(g: Grid, e: Entry, ds: seq<Direction>, parents: Parents, queue: seq<Entry>)
    requires Expand(g, e, ds, parents, queue).Ok?
    ensures var q' := Expand(g, e, ds, parents, queue).value.1;
      && |queue| <= |q'| && q'[..|queue|] == queue
      && (forall j :: |queue| <= j < |q'| ==> q'[j].pred == Some(e.pos) && Onward(g, e, ds, q'[j].pos))
      && (forall q :: q in Positions(q') <==> q in Positions(queue) || Onward(g, e, ds, q))
    decreases |ds|
  {
    if ds == [] {
      forall q ensures !Onward(g, e, ds, q) {
        OnwardEmpty(g, e, q);
      }
    } else {
      var (parents', queue') := Visit(g, e, ds[0], parents, queue).value;
      var q' := Expand(g, e, ds, parents, queue).value.1;
      ExpandQueue(g, e, ds[1..], parents', queue');
      VisitQueue(g, e, ds[0], parents, queue);
      forall q
        ensures Onward(g, e, ds, q) <==>
          (e.pred != Some(q) && Next(g, e.pos, ds[0]) == Ok(Some(q))) || Onward(g, e, ds[1..], q)
      {
        OnwardCons(g, e, ds, q);
      }
      forall j | |queue| <= j < |q'|
        ensures q'[j].pred == Some(e.pos) && Onward(g, e, ds, q'[j].pos)
      {
        if j >= |queue'| {
        } else {
          assert q'[j] == queue'[j];
        }
      }
      assert q'[..|queue|] == queue'[..|queue|];
    }
  }

  /** One turn of the loop appends at most the neighbour it reaches. */
  lemma VisitQueue(g: Grid, e: Entry, d: Direction, parents: Parents, queue: seq<Entry>)
    requires Visit(g, e, d, parents, queue).Ok?
    ensures var q' := Visit(g, e, d, parents, queue).value.1;
      && (q' == queue || (exists q :: q' == queue + [Entry(Some(e.pos), q)] && e.pred != Some(q) && Next(g, e.pos, d) == Ok(Some(q))))
      && (forall q :: q in Positions(q') <==> q in Positions(queue) || (e.pred != Some(q) && Next(g, e.pos, d) == Ok(Some(q))))
  {
    var n := Next(g, e.pos, d).value;
    if n.Some? && e.pred != Some(n.value) {
      PositionsPush(queue, Entry(Some(e.pos), n.value));
    }
  }

  /** The expansion records the expanded position as a parent of exactly its onward
      neighbours, creates an entry for each of them, and never drops a parent. */
  lemma {:induction false} ExpandParents(g: Grid, e: Entry, ds: seq<Direction>, parents: Parents, queue: seq<Entry>)
    requires Expand(g, e, ds, parents, queue).Ok?
    ensures var p' := Expand(g, e, ds, parents, queue).value.0;
      && (forall q, p :: (q in p' && p in p'[q]) <==> (q in parents && p in parents[q]) || (p == e.pos && Onward(g, e, ds, q)))
      && (forall q :: q in p' <==> q in parents || Onward(g, e, ds, q))
      && (forall q :: q in parents ==> |parents[q]| <= |p'[q]|)
    decreases |ds|
  {
    if ds == [] {
      forall q ensures !Onward(g, e, ds, q) {
        OnwardEmpty(g, e, q);
      }
    } else {
      var (parents', queue') := Visit(g, e, ds[0], parents, queue).value;
      ExpandParents(g, e, ds[1..], parents', queue');
      VisitParents(g, e, ds[0], parents, queue);
      forall q
        ensures Onward(g, e, ds, q) <==>
          (e.pred != Some(q) && Next(g, e.pos, ds[0]) == Ok(Some(q))) || Onward(g, e, ds[1..], q)
      {
        OnwardCons(g, e, ds, q);
      }
    }
  }

  lemma VisitParents(g: Grid, e: Entry, d: Direction, parents: Parents, queue: seq<Entry>)
    requires Visit(g, e, d, parents, queue).Ok?
    ensures var p' := Visit(g, e, d, parents, queue).value.0;
      && (forall q, p :: (q in p' && p in p'[q]) <==> (q in parents && p in parents[q]) || (p == e.pos && e.pred != Some(q) && Next(g, e.pos, d) == Ok(Some(q))))
      && (forall q :: q in p' <==> q in parents || (e.pred != Some(q) && Next(g, e.pos, d) == Ok(Some(q))))
      && (forall q :: q in parents ==> |parents[q]| <= |p'[q]|)
  {
  }

  // ---------------------------------------------------------------------------------
  // Walks from the start

  /** A sequence of positions, each one step that `next` allows from the one before. */
  ghost predicate IsWalk(g: Grid, w: seq<Pos>) {
    |w| >= 1 && forall i :: 0 <= i < |w| - 1 ==> Edge(g, w[i], w[i + 1])
  }

  ghost predicate Reachable(g: Grid, p: Pos) {
    exists w :: IsWalk(g, w) && w[0] == Start && w[|w| - 1] == p
  }

  lemma ReachableStart(g: Grid)
    ensures Reachable(g, Start)
  {
    assert IsWalk(g, [Start]);
  }

  lemma ReachableStep(g: Grid, p: Pos, q: Pos)
    requires Reachable(g, p) && Edge(g, p, q)
    ensures Reachable(g, q)
  {
    var w :| IsWalk(g, w) && w[0] == Start && w[|w| - 1] == p;
    var w' := w + [q];
    assert IsWalk(g, w');
    assert w'[0] == Start && w'[|w'| - 1] == q;
  }

  /** A set of positions that holds the start and is closed under steps holds every
      position a walk from the start reaches. */
  lemma {:induction false} ClosedHoldsWalk(g: Grid, s: set<Pos>, w: seq<Pos>)
    requires Start in s && forall p, q :: p in s && Edge(g, p, q) ==> q in s
    requires IsWalk(g, w) && w[0] == Start
    ensures w[|w| - 1] in s
    decreases |w|
  {
    if |w| > 1 {
      var v := w[..|w| - 1];
      assert IsWalk(g, v) by {
        forall i | 0 <= i < |v| - 1
          ensures Edge(g, v[i], v[i + 1])
        {
          assert v[i] == w[i] && v[i + 1] == w[i + 1];
        }
      }
      ClosedHoldsWalk(g, s, v);
      assert Edge(g, w[|w| - 2], w[|w| - 1]);
    }
  }

  // ---------------------------------------------------------------------------------
  // The invariant of the search

  /** Every visited or queued position is reachable from the start. */
  ghost predicate Sound(g: Grid, queue: seq<Entry>, visited: Visited) {
    && (forall p :: p in visited ==> Reachable(g, p))
    && (forall q :: q in Positions(queue) ==> Reachable(g, q))
  }

  /** Every step out of a visited position leads to a visited or a queued position. */
  ghost predicate Closed(g: Grid, queue: seq<Entry>, visited: Visited) {
    forall p, q :: p in visited && Edge(g, p, q) ==> q in visited || q in Positions(queue)
  }

  /** `next` did not panic on any visited position. */
  ghost predicate Safe(g: Grid, visited: Visited) {
    forall p, d :: p in visited ==> Next(g, p, d).Ok?
  }

  /** A recorded predecessor is a visited position one step before, and only the start
      has none. */
  ghost predicate PredOk(g: Grid, visited: Visited, pred: Option<Pos>, p: Pos) {
    match pred
    case None => p == Start
    case Some(a) => a in visited && Edge(g, a, p)
  }

  ghost predicate Preds(g: Grid, queue: seq<Entry>, visited: Visited) {
    && (forall p :: p in visited ==> PredOk(g, visited, visited[p], p))
    && (forall i :: 0 <= i < |queue| ==> PredOk(g, visited, queue[i].pred, queue[i].pos))
  }

  /** `p` is a parent of `q` exactly when `p` was expanded, a step leads from `p` to `q`,
      and `q` is not the predecessor `p` was expanded with. */
  ghost predicate ParentsExact(g: Grid, visited: Visited, parents: Parents) {
    forall q, p :: (q in parents && p in parents[q]) <==> (p in visited && Edge(g, p, q) && visited[p] != Some(q))
  }

  /** The start has an entry, and every other entry holds at least one parent. */
  predicate Keys(parents: Parents) {
    Start in parents && forall q :: q in parents && q != Start ==> parents[q] != []
  }

  /** The start is the first position expanded, and without a predecessor. */
  predicate StartFirst(queue: seq<Entry>, visited: Visited) {
    && (Start in visited ==> visited[Start] == None)
    && (Start !in visited ==> |queue| > 0 && queue[0] == Entry(None, Start))
  }

  ghost predicate Inv(g: Grid, queue: seq<Entry>, visited: Visited, parents: Parents) {
    && Sound(g, queue, visited) && Closed(g, queue, visited) && Safe(g, visited)
    && Preds(g, queue, visited) && ParentsExact(g, visited, parents) && Keys(parents)
    && StartFirst(queue, visited)
  }

  lemma InvInit(g: Grid)
    ensures Inv(g, [Entry(None, Start)], map[], map[Start := []])
  {
    PositionsOne(Entry(None, Start));
    ReachableStart(g);
  }

  /** Dropping an already visited position keeps the invariant. */
  lemma InvDrop(g: Grid, queue: seq<Entry>, visited: Visited, parents: Parents)
    requires Inv(g, queue, visited, parents) && |queue| > 0 && queue[0].pos in visited
    ensures Inv(g, queue[1..], visited, parents)
  {
    assert Sound(g, queue, visited) && Closed(g, queue, visited) && Preds(g, queue, visited);
    assert StartFirst(queue, visited);
    hide *;
    PositionsPop(queue);
    DropSound(g, queue, visited);
    DropClosed(g, queue, visited);
    DropPreds(g, queue, visited);
    DropStartFirst(queue, visited);
  }

  lemma DropSound(g: Grid, queue: seq<Entry>, visited: Visited)
    requires |queue| > 0 && Sound(g, queue, visited)
    requires Positions(queue) == {queue[0].pos} + Positions(queue[1..])
    ensures Sound(g, queue[1..], visited)
  {
  }

  lemma DropClosed(g: Grid, queue: seq<Entry>, visited: Visited)
    requires |queue| > 0 && queue[0].pos in visited && Closed(g, queue, visited)
    requires Positions(queue) == {queue[0].pos} + Positions(queue[1..])
    ensures Closed(g, queue[1..], visited)
  {
  }

  lemma DropPreds(g: Grid, queue: seq<Entry>, visited: Visited)
    requires |queue| > 0 && Preds(g, queue, visited)
    ensures Preds(g, queue[1..], visited)
  {
    assert forall i :: 0 <= i < |queue[1..]| ==> queue[1..][i] == queue[i + 1];
  }

  lemma DropStartFirst(queue: seq<Entry>, visited: Visited)
    requires |queue| > 0 && queue[0].pos in visited && StartFirst(queue, visited)
    ensures StartFirst(queue[1..], visited)
  {
  }

  /** The effect of expanding `e` over all four directions, in terms of steps. */
  lemma ExpandAll(g: Grid, e: Entry, parents: Parents, rest: seq<Entry>)
    requires Expand(g, e, Directions, parents, rest).Ok?
    ensures forall d :: Next(g, e.pos, d).Ok?
    ensures var (p', q') := Expand(g, e, Directions, parents, rest).value;
      && |rest| <= |q'| && q'[..|rest|] == rest
      && (forall j :: |rest| <= j < |q'| ==> q'[j].pred == Some(e.pos) && Edge(g, e.pos, q'[j].pos))
      && (forall q :: q in Positions(q') <==> q in Positions(rest) || (e.pred != Some(q) && Edge(g, e.pos, q)))
      && Relinked(g, e, parents, p')
      && (forall q :: q in p' <==> q in parents || (e.pred != Some(q) && Edge(g, e.pos, q)))
      && (forall q :: q in parents ==> |parents[q]| <= |p'[q]|)
  {
    ExpandOk(g, e, Directions, parents, rest);
    forall d ensures Next(g, e.pos, d).Ok? {
      DirectionsComplete(d);
    }
    ExpandQueue(g, e, Directions, parents, rest);
    ExpandParents(g, e, Directions, parents, rest);
    forall q ensures Onward(g, e, Directions, q) <==> e.pred != Some(q) && Edge(g, e.pos, q) {
      OnwardAll(g, e, q);
    }
    var p' := Expand(g, e, Directions, parents, rest).value.0;
    forall q | e.pred != Some(q) && Edge(g, e.pos, q)
      ensures q in p' && e.pos in p'[q]
    {
      assert Onward(g, e, Directions, q);
    }
  }

  /** The parent map after an expansion of `e`: the old parents, and `e`'s position as a
      parent of each of its onward neighbours. */
  ghost predicate Relinked(g: Grid, e: Entry, parents: Parents, p': Parents) {
    && (forall q, p :: q in p' && p in p'[q] ==> (q in parents && p in parents[q]) || (p == e.pos && e.pred != Some(q) && Edge(g, e.pos, q)))
    && (forall q, p :: q in parents && p in parents[q] ==> q in p' && p in p'[q])
    && (forall q :: e.pred != Some(q) && Edge(g, e.pos, q) ==> q in p' && e.pos in p'[q])
  }

  /** Expanding an unvisited position keeps the invariant. */
  lemma InvExpand(g: Grid, queue: seq<Entry>, visited: Visited, parents: Parents)
    requires Inv(g, queue, visited, parents) && |queue| > 0 && queue[0].pos !in visited
    requires Expand(g, queue[0], Directions, parents, queue[1..]).Ok?
    ensures var (p', q') := Expand(g, queue[0], Directions, parents, queue[1..]).value;
      Inv(g, q', visited[queue[0].pos := queue[0].pred], p')
  {
    var e := queue[0];
    var (p', q') := Expand(g, e, Directions, parents, queue[1..]).value;
    var v' := visited[e.pos := e.pred];
    assert Sound(g, queue, visited) && Closed(g, queue, visited) && Preds(g, queue, visited);
    assert StartFirst(queue, visited) && Safe(g, visited) && ParentsExact(g, visited, parents);
    assert Keys(parents);
    hide Sound, Closed, Safe, Preds, ParentsExact, Keys, StartFirst, Expand, Positions, Edge, Next, Relinked;
    PositionsPop(queue);
    ExpandAll(g, e, parents, queue[1..]);
    ExpandSound(g, queue, visited, q');
    ExpandClosed(g, queue, visited, q');
    ExpandSafe(g, e, visited);
    ExpandPreds(g, queue, visited, q');
    ExpandParentsExact(g, e, visited, parents, p');
    ExpandKeys(g, e, parents, p');
    ExpandStartFirst(queue, visited, q');
  }

  lemma ExpandSound(g: Grid, queue: seq<Entry>, visited: Visited, q': seq<Entry>)
    requires |queue| > 0 && Sound(g, queue, visited)
    requires Positions(queue) == {queue[0].pos} + Positions(queue[1..])
    requires forall q :: q in Positions(q') ==> q in Positions(queue[1..]) || Edge(g, queue[0].pos, q)
    ensures Sound(g, q', visited[queue[0].pos := queue[0].pred])
  {
    forall q | q in Positions(q')
      ensures Reachable(g, q)
    {
      if q !in Positions(queue[1..]) {
        ReachableStep(g, queue[0].pos, q);
      }
    }
  }

  lemma ExpandClosed(g: Grid, queue: seq<Entry>, visited: Visited, q': seq<Entry>)
    requires |queue| > 0 && Closed(g, queue, visited) && Preds(g, queue, visited)
    requires Positions(queue) == {queue[0].pos} + Positions(queue[1..])
    requires forall q :: q in Positions(q') <==> q in Positions(queue[1..]) || (queue[0].pred != Some(q) && Edge(g, queue[0].pos, q))
    ensures Closed(g, q', visited[queue[0].pos := queue[0].pred])
  {
    var e := queue[0];
    assert PredOk(g, visited, e.pred, e.pos);
  }

  lemma ExpandSafe(g: Grid, e: Entry, visited: Visited)
    requires Safe(g, visited) && forall d :: Next(g, e.pos, d).Ok?
    ensures Safe(g, visited[e.pos := e.pred])
  {
  }

  lemma ExpandPreds(g: Grid, queue: seq<Entry>, visited: Visited, q': seq<Entry>)
    requires |queue| > 0 && Preds(g, queue, visited)
    requires |queue[1..]| <= |q'| && q'[..|queue[1..]|] == queue[1..]
    requires forall j :: |queue[1..]| <= j < |q'| ==> q'[j].pred == Some(queue[0].pos) && Edge(g, queue[0].pos, q'[j].pos)
    ensures Preds(g, q', visited[queue[0].pos := queue[0].pred])
  {
    var e := queue[0];
    var v' := visited[e.pos := e.pred];
    assert PredOk(g, visited, e.pred, e.pos);
    forall p | p in v'
      ensures PredOk(g, v', v'[p], p)
    {
      assert PredOk(g, visited, v'[p], p);
    }
    forall j | 0 <= j < |q'|
      ensures PredOk(g, v', q'[j].pred, q'[j].pos)
    {
      if j < |queue[1..]| {
        assert q'[j] == queue[j + 1];
        assert PredOk(g, visited, queue[j + 1].pred, queue[j + 1].pos);
      }
    }
  }

  lemma ExpandParentsExact(g: Grid, e: Entry, visited: Visited, parents: Parents, p': Parents)
    requires e.pos !in visited && ParentsExact(g, visited, parents)
    requires Relinked(g, e, parents, p')
    ensures ParentsExact(g, visited[e.pos := e.pred], p')
  {
  }

  lemma ExpandKeys(g: Grid, e: Entry, parents: Parents, p': Parents)
    requires Keys(parents) && Relinked(g, e, parents, p')
    requires forall q :: q in p' <==> q in parents || (e.pred != Some(q) && Edge(g, e.pos, q))
    requires forall q :: q in parents ==> |parents[q]| <= |p'[q]|
    ensures Keys(p')
  {
    forall q | q in p' && q != Start
      ensures p'[q] != []
    {
      if q !in parents {
        assert e.pos in p'[q];
      }
    }
  }

  lemma ExpandStartFirst(queue: seq<Entry>, visited: Visited, q': seq<Entry>)
    requires |queue| > 0 && queue[0].pos !in visited && StartFirst(queue, visited)
    ensures StartFirst(q', visited[queue[0].pos := queue[0].pred])
  {
  }

  // ---------------------------------------------------------------------------------
  // What the search computes

  /** The outcome of a search that did not panic: it visited exactly the positions
      reachable from the start, the start first and without a predecessor, and built the
      parent map of `ParentsExact`. */
  ghost predicate Final(g: Grid, parents: Parents, visited: Visited) {
    && (forall p :: p in visited <==> Reachable(g, p))
    && Safe(g, visited)
    && Start in visited && visited[Start] == None
    && (forall p :: p in visited ==> PredOk(g, visited, visited[p], p))
    && ParentsExact(g, visited, parents) && Keys(parents)
  }

  lemma InvDone(g: Grid, visited: Visited, parents: Parents)
    requires Inv(g, [], visited, parents)
    ensures Final(g, parents, visited)
  {
    assert Positions([]) == {};
    forall p | Reachable(g, p)
      ensures p in visited
    {
      var w :| IsWalk(g, w) && w[0] == Start && w[|w| - 1] == p;
      ClosedHoldsWalk(g, visited.Keys, w);
    }
  }

  /** The search keeps its invariant to the end; it panics only when `next` panics on a
      reachable position. */
  lemma {:induction false} SearchSpec(g: Grid, queue: seq<Entry>, visited: Visited, parents: Parents)
    requires Positions(queue) <= Universe(g) && Inv(g, queue, visited, parents)
    ensures var r := Search(g, queue, visited, parents);
      && (r.Ok? ==> Final(g, r.value.0, r.value.1))
      && (r.Err? ==> exists p, d :: Reachable(g, p) && Next(g, p, d).Err?)
    decreases |Universe(g) - visited.Keys|, |queue|
  {
    if queue == [] {
      InvDone(g, visited, parents);
    } else {
      var e := queue[0];
      PositionsPop(queue);
      if e.pos in visited {
        InvDrop(g, queue, visited, parents);
        SearchSpec(g, queue[1..], visited, parents);
      } else if Expand(g, e, Directions, parents, queue[1..]).Err? {
        ExpandOk(g, e, Directions, parents, queue[1..]);
        var i :| 0 <= i < |Directions| && Next(g, e.pos, Directions[i]).Err?;
        assert Sound(g, queue, visited);
        assert Reachable(g, e.pos);
      } else {
        var (p', q') := Expand(g, e, Directions, parents, queue[1..]).value;
        InvExpand(g, queue, visited, parents);
        ExpandInGrid(g, e, Directions, parents, queue[1..]);
        Fewer(g, visited, e);
        SearchSpec(g, q', visited[e.pos := e.pred], p');
      }
    }
  }

  /** The search `part1` runs, from the start alone. */
  lemma BuildParentsSpec(g: Grid)
    ensures var r := BuildParents(g);
      && (r.Ok? ==> Final(g, r.value.0, r.value.1))
      && (r.Err? ==> exists p, d :: Reachable(g, p) && Next(g, p, d).Err?)
  {
    PositionsOne(Entry(None, Start));
    InvInit(g);
    SearchSpec(g, [Entry(None, Start)], map[], map[Start := []]);
  }

  /** From a start inside a rectangular grid every reachable position is a tile. */
  lemma ReachableInGrid(g: Grid, p: Pos)
    requires Rectangular(g) && |g[0]| >= 2 && Reachable(g, p)
    ensures InGrid(g, p)
  {
    forall a, b | a in Tiles(g) && Edge(g, a, b)
      ensures b in Tiles(g)
    {
      var d :| Next(g, a, d) == Ok(Some(b));
      NextSound(g, a, d, b);
      TilesInGrid(g, b);
    }
    TilesInGrid(g, Start);
    var w :| IsWalk(g, w) && w[0] == Start && w[|w| - 1] == p;
    ClosedHoldsWalk(g, Tiles(g), w);
    TilesInGrid(g, p);
  }

  /** On a rectangular grid at least two columns wide the search never panics. */
  lemma BuildParentsOk(g: Grid)
    requires Rectangular(g) && |g[0]| >= 2
    ensures BuildParents(g).Ok?
  {
    BuildParentsSpec(g);
    if BuildParents(g).Err? {
      var p, d :| Reachable(g, p) && Next(g, p, d).Err?;
      ReachableInGrid(g, p);
      NextSpec(g, p, d, p);
    }
  }

  // ---------------------------------------------------------------------------------
  // `max_distance`

  /** `max_distance` without its memo table: 0 for a position without parents, and
      otherwise one more than the largest value over its parents. Indexing the parent
      map with a position it lacks panics. The source recurses without bound; here each
      level spends one unit of `fuel`, and running out is `Err`. */
  function MaxDistance(parents: Parents, pos: Pos, fuel: nat): Result<nat>
    decreases fuel, 0
  {
    if pos !in parents || fuel == 0 then Err
    else Longest(parents, parents[pos], fuel - 1)
  }

  /** `.map(max_distance).max().map(|x| x + 1).unwrap_or(0)` over the parents `ps`. */
  function Longest(parents: Parents, ps: seq<Pos>, fuel: nat): Result<nat>
    decreases fuel, 1, |ps|
  {
    if ps == [] then Ok(0)
    else
      var a :- MaxDistance(parents, ps[0], fuel);
      var b :- Longest(parents, ps[1..], fuel);
      Ok(if a + 1 >= b then a + 1 else b)
  }

  /** A chain of parents: each position after the first is a parent of the one before,
      so read backwards it is a sequence of steps. */
  predicate Chain(parents: Parents, c: seq<Pos>) {
    |c| >= 1 && forall i :: 0 <= i < |c| - 1 ==> c[i] in parents && c[i + 1] in parents[c[i]]
  }

  lemma ChainCons(parents: Parents, p: Pos, c: seq<Pos>)
    requires Chain(parents, c) && p in parents && c[0] in parents[p]
    ensures Chain(parents, [p] + c)
  {
    var c' := [p] + c;
    forall i | 0 <= i < |c'| - 1
      ensures c'[i] in parents && c'[i + 1] in parents[c'[i]]
    {
      if i > 0 {
        assert c'[i] == c[i - 1] && c'[i + 1] == c[i];
      }
    }
  }

  lemma ChainTail(parents: Parents, c: seq<Pos>)
    requires Chain(parents, c) && |c| >= 2
    ensures Chain(parents, c[1..]) && c[0] in parents && c[1] in parents[c[0]]
  {
    assert forall i :: 0 <= i < |c[1..]| ==> c[1..][i] == c[i + 1];
  }

  /** A value of `max_distance` is the length of some chain of parents from `pos`. */
  lemma {:induction false} MaxDistanceWitness(parents: Parents, pos: Pos, fuel: nat) returns (c: seq<Pos>)
    requires MaxDistance(parents, pos, fuel).Ok?
    ensures Chain(parents, c) && c[0] == pos && |c| == MaxDistance(parents, pos, fuel).value + 1
    decreases fuel, 0
  {
    if Longest(parents, parents[pos], fuel - 1).value == 0 {
      c := [pos];
    } else {
      var c' := LongestWitness(parents, parents[pos], fuel - 1);
      ChainCons(parents, pos, c');
      c := [pos] + c';
    }
  }

  lemma {:induction false} LongestWitness(parents: Parents, ps: seq<Pos>, fuel: nat) returns (c: seq<Pos>)
    requires Longest(parents, ps, fuel).Ok? && Longest(parents, ps, fuel).value > 0
    ensures Chain(parents, c) && c[0] in ps && |c| == Longest(parents, ps, fuel).value
    decreases fuel, 1, |ps|
  {
    var a := MaxDistance(parents, ps[0], fuel).value;
    var b := Longest(parents, ps[1..], fuel).value;
    if a + 1 >= b {
      c := MaxDistanceWitness(parents, ps[0], fuel);
    } else {
      c := LongestWitness(parents, ps[1..], fuel);
    }
  }

  /** No chain of parents from `pos` is longer than the value of `max_distance`. */
  lemma {:induction false} MaxDistanceBound(parents: Parents, pos: Pos, fuel: nat, c: seq<Pos>)
    requires MaxDistance(parents, pos, fuel).Ok? && Chain(parents, c) && c[0] == pos
    ensures |c| <= MaxDistance(parents, pos, fuel).value + 1
    decreases fuel, 0
  {
    if |c| >= 2 {
      ChainTail(parents, c);
      LongestBound(parents, parents[pos], fuel - 1, c[1..]);
    }
  }

  lemma {:induction false} LongestBound(parents: Parents, ps: seq<Pos>, fuel: nat, c: seq<Pos>)
    requires Longest(parents, ps, fuel).Ok? && Chain(parents, c) && c[0] in ps
    ensures |c| <= Longest(parents, ps, fuel).value
    decreases fuel, 1, |ps|
  {
    if c[0] == ps[0] {
      MaxDistanceBound(parents, ps[0], fuel, c);
    } else {
      LongestBound(parents, ps[1..], fuel, c);
    }
  }

  /** More fuel never changes a value that was reached. */
  lemma {:induction false} MaxDistanceFuel(parents: Parents, pos: Pos, fuel: nat, more: nat)
    requires MaxDistance(parents, pos, fuel).Ok? && fuel <= more
    ensures MaxDistance(parents, pos, more) == MaxDistance(parents, pos, fuel)
    decreases fuel, 0
  {
    LongestFuel(parents, parents[pos], fuel - 1, more - 1);
  }

  lemma {:induction false} LongestFuel(parents: Parents, ps: seq<Pos>, fuel: nat, more: nat)
    requires Longest(parents, ps, fuel).Ok? && fuel <= more
    ensures Longest(parents, ps, more) == Longest(parents, ps, fuel)
    decreases fuel, 1, |ps|
  {
    if ps != [] {
      MaxDistanceFuel(parents, ps[0], fuel, more);
      LongestFuel(parents, ps[1..], fuel, more);
    }
  }

  // ---------------------------------------------------------------------------------
  // `part1`

  /** The goal `(width - 2, height - 1)`, with the width taken from the first row. */
  function Goal(g: Grid): Result<Pos> {
    if |g| == 0 || |g[0]| < 2 then Err else Ok(Pos(|g[0]| - 2, |g| - 1))
  }

  /** `part1`: the search, then `max_distance` of the goal. */
  function Part1(g: Grid, fuel: nat): Result<nat> {
    var (parents, _) :- BuildParents(g);
    var goal :- Goal(g);
    MaxDistance(parents, goal, fuel)
  }

  /** The answer of `part1` is the length of the longest chain of parents from the goal
      in the map the search built. */
  lemma Part1Spec(g: Grid, fuel: nat)
    requires Part1(g, fuel).Ok?
    ensures BuildParents(g).Ok? && Goal(g).Ok?
    ensures var parents := BuildParents(g).value.0;
      && (exists c :: Chain(parents, c) && c[0] == Goal(g).value && |c| == Part1(g, fuel).value + 1)
      && (forall c :: Chain(parents, c) && c[0] == Goal(g).value ==> |c| <= Part1(g, fuel).value + 1)
  {
    var parents := BuildParents(g).value.0;
    var c := MaxDistanceWitness(parents, Goal(g).value, fuel);
    forall c' | Chain(parents, c') && c'[0] == Goal(g).value
      ensures |c'| <= Part1(g, fuel).value + 1
    {
      MaxDistanceBound(parents, Goal(g).value, fuel, c');
    }
  }

  /** Read backwards, a chain of parents of the search's map is a walk from a reachable
      position, and no step of it turns straight back: the position before a step is not
      the predecessor its next position was expanded with. */
  lemma ChainIsWalk(g: Grid, parents: Parents, visited: Visited, c: seq<Pos>)
    requires Final(g, parents, visited) && Chain(parents, c)
    ensures forall i :: 0 <= i < |c| - 1 ==> Edge(g, c[i + 1], c[i]) && visited[c[i + 1]] != Some(c[i])
    ensures |c| >= 2 ==> Reachable(g, c[|c| - 1])
  {
    assert ParentsExact(g, visited, parents);
    assert forall p :: p in visited ==> Reachable(g, p);
    hide Final, Reachable, Edge;
    forall i | 0 <= i < |c| - 1
      ensures Edge(g, c[i + 1], c[i]) && visited[c[i + 1]] != Some(c[i])
    {
      assert c[i] in parents && c[i + 1] in parents[c[i]];
    }
    if |c| >= 2 {
      assert c[|c| - 2] in parents && c[|c| - 1] in parents[c[|c| - 2]];
    }
  }

  /** The expansion over the four directions, one turn of the loop at a time. */
  lemma ExpandTurns(g: Grid, e: Entry, parents: Parents, queue: seq<Entry>,
                    r1: (Parents, seq<Entry>), r2: (Parents, seq<Entry>), r3: (Parents, seq<Entry>), r4: (Parents, seq<Entry>))
    requires Visit(g, e, Up, parents, queue) == Ok(r1) && Visit(g, e, Down, r1.0, r1.1) == Ok(r2)
    requires Visit(g, e, Left, r2.0, r2.1) == Ok(r3) && Visit(g, e, Right, r3.0, r3.1) == Ok(r4)
    ensures Expand(g, e, Directions, parents, queue) == Ok(r4)
  {
    assert Directions[1..] == [Down, Left, Right];
    assert Directions[1..][1..] == [Left, Right];
    assert Directions[1..][1..][1..] == [Right];
    assert Directions[1..][1..][1..][1..] == [];
  }

  /** A straight corridor three rows deep. */
  function Corridor(): Grid {
    ["#.#", "#.#", "#.#"]
  }

  /** The corridor's longest hike to the goal has two steps. */
  lemma CorridorExample()
    ensures Part1(Corridor(), 3) == Ok(2)
  {
    CorridorSearch();
    assert Goal(Corridor()) == Ok(Pos(1, 2));
    CorridorLongest();
  }

  lemma CorridorFirst()
    ensures var a, b := Pos(1, 0), Pos(1, 1);
      Expand(Corridor(), Entry(None, a), Directions, map[a := []], []) == Ok((map[a := [], b := [a]], [Entry(Some(a), b)]))
  {
    var g, a, b := Corridor(), Pos(1, 0), Pos(1, 1);
    var e := Entry(None, a);
    var p0: Parents := map[a := []];
    var p1: Parents := map[a := [], b := [a]];
    assert Next(g, a, Up) == Ok(None);
    assert Next(g, a, Down) == Ok(Some(b));
    assert Next(g, a, Left) == Ok(None);
    assert Next(g, a, Right) == Ok(None);
    assert [] + [a] == [a];
    assert Link(p0, b, a) == p1;
    var none: seq<Entry> := [];
    assert none + [Entry(Some(a), b)] == [Entry(Some(a), b)];
    assert Visit(g, e, Down, p0, []) == Ok((p1, [Entry(Some(a), b)]));
    ExpandTurns(g, e, p0, [], (p0, []), (p1, [Entry(Some(a), b)]), (p1, [Entry(Some(a), b)]), (p1, [Entry(Some(a), b)]));
  }

  lemma CorridorSecond()
    ensures var a, b, c := Pos(1, 0), Pos(1, 1), Pos(1, 2);
      Expand(Corridor(), Entry(Some(a), b), Directions, map[a := [], b := [a]], []) ==
        Ok((map[a := [], b := [a], c := [b]], [Entry(Some(b), c)]))
  {
    var g, a, b, c := Corridor(), Pos(1, 0), Pos(1, 1), Pos(1, 2);
    var e := Entry(Some(a), b);
    var p1: Parents := map[a := [], b := [a]];
    var p2: Parents := map[a := [], b := [a], c := [b]];
    assert Next(g, b, Up) == Ok(Some(a));
    assert Next(g, b, Down) == Ok(Some(c));
    assert Next(g, b, Left) == Ok(None);
    assert Next(g, b, Right) == Ok(None);
    assert [] + [b] == [b];
    assert Link(p1, c, b) == p2;
    var none: seq<Entry> := [];
    assert none + [Entry(Some(b), c)] == [Entry(Some(b), c)];
    assert Visit(g, e, Down, p1, []) == Ok((p2, [Entry(Some(b), c)]));
    ExpandTurns(g, e, p1, [], (p1, []), (p2, [Entry(Some(b), c)]), (p2, [Entry(Some(b), c)]), (p2, [Entry(Some(b), c)]));
  }

  lemma CorridorThird()
    ensures var a, b, c := Pos(1, 0), Pos(1, 1), Pos(1, 2);
      Expand(Corridor(), Entry(Some(b), c), Directions, map[a := [], b := [a], c := [b]], []) ==
        Ok((map[a := [], b := [a], c := [b]], []))
  {
    var g, a, b, c := Corridor(), Pos(1, 0), Pos(1, 1), Pos(1, 2);
    var e := Entry(Some(b), c);
    var p2: Parents := map[a := [], b := [a], c := [b]];
    assert Next(g, c, Up) == Ok(Some(b));
    assert Next(g, c, Down) == Ok(None);
    assert Next(g, c, Left) == Ok(None);
    assert Next(g, c, Right) == Ok(None);
    ExpandTurns(g, e, p2, [], (p2, []), (p2, []), (p2, []), (p2, []));
  }

  lemma CorridorSearch()
    ensures var a, b, c := Pos(1, 0), Pos(1, 1), Pos(1, 2);
      BuildParents(Corridor()) == Ok((map[a := [], b := [a], c := [b]], map[a := None, b := Some(a), c := Some(b)]))
  {
    var g, a, b, c := Corridor(), Pos(1, 0), Pos(1, 1), Pos(1, 2);
    CorridorFirst();
    CorridorSecond();
    CorridorThird();
    var p1: Parents := map[a := [], b := [a]];
    var p2: Parents := map[a := [], b := [a], c := [b]];
    var v1: Visited := map[a := None];
    var v2: Visited := map[a := None, b := Some(a)];
    var v3: Visited := map[a := None, b := Some(a), c := Some(b)];
    TilesInGrid(g, b);
    TilesInGrid(g, c);
    PositionsOne(Entry(Some(a), b));
    PositionsOne(Entry(Some(b), c));
    assert Positions([]) == {};
    assert Search(g, [], v3, p2) == Ok((p2, v3));
    assert Search(g, [Entry(Some(b), c)], v2, p2) == Ok((p2, v3));
    assert Search(g, [Entry(Some(a), b)], v1, p1) == Ok((p2, v3));
    PositionsOne(Entry(None, a));
    assert Search(g, [Entry(None, a)], map[], map[a := []]) == Ok((p2, v3));
  }

  lemma CorridorLongest()
    ensures var a, b, c := Pos(1, 0), Pos(1, 1), Pos(1, 2);
      MaxDistance(map[a := [], b := [a], c := [b]], c, 3) == Ok(2)
  {
    var a, b, c := Pos(1, 0), Pos(1, 1), Pos(1, 2);
    var p2: Parents := map[a := [], b := [a], c := [b]];
    assert MaxDistance(p2, a, 1) == Ok(0);
    assert [a][1..] == [] && [b][1..] == [];
    assert MaxDistance(p2, b, 2) == Ok(1);
  }
}
