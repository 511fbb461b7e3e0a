/** Day 21, part 1: the garden walk (`lib.rs`). From the tile marked `S` the elf takes
    single steps north, south, east or west onto tiles that are not rocks (`#`). The source
    runs a breadth-first search that labels every tile with its distance from the start,
    stops expanding at `max_distance`, and counts the tiles whose distance is even: those
    are the tiles the elf can stand on after exactly `max_distance` steps when that number
    is even, since it may always step back and forth.

    Coordinates are `usize` in the source; they are `int`s here (`Day10.Pos`), so that a
    neighbour off the top or left edge is simply a position that is not in the grid. The
    search is modelled as a recursive function over the queue, the visited set and the
    counter, with every indexing panic of the source as `Err`. */
module Day21 {
  import opened Wrappers
  import opened Text
  import opened Sets
  import Day10

  type Grid = seq<seq<char>>
  type Pos = Day10.Pos

  predicate InGrid(garden: Grid, p: Pos) {
    0 <= p.y < |garden| && 0 <= p.x < |garden[p.y]|
  }

  /** A garden plot the elf may stand on: any tile of the grid except a rock. */
  predicate Open(garden: Grid, p: Pos) {
    InGrid(garden, p) && garden[p.y][p.x] != '#'
  }

  /** Every row as long as the first; the shape of a puzzle input. */
  predicate Rectangular(garden: Grid) {
    |garden| > 0 && forall y :: 0 <= y < |garden| ==> |garden[y]| == |garden[0]|
  }

  function Tiles(garden: Grid): set<Pos> {
    set y, x | 0 <= y < |garden| && 0 <= x < |garden[y]| :: Day10.Pos(x, y)
  }

  lemma TilesInGrid(garden: Grid, p: Pos)
    ensures p in Tiles(garden) <==> InGrid(garden, p)
  {
    if InGrid(garden, p) {
      assert p == Day10.Pos(p.x, p.y);
    }
  }

  function Left(p: Pos): Pos { Day10.Pos(p.x - 1, p.y) }
  function Right(p: Pos): Pos { Day10.Pos(p.x + 1, p.y) }
  function Up(p: Pos): Pos { Day10.Pos(p.x, p.y - 1) }
  function Down(p: Pos): Pos { Day10.Pos(p.x, p.y + 1) }

  /** The four tiles one step away from `p`. */
  function Around(p: Pos): set<Pos> {
    {Left(p), Right(p), Up(p), Down(p)}
  }

  function Elems(ps: seq<Pos>): set<Pos> {
    set q | q in ps
  }

  // ---------------------------------------------------------------------------------
  // The breadth-first search as the source writes it.

  /** The source guards the downward step with `y < map.len()`, which lets a tile of the
      last row index the row below it; `Corrected` is the evidently intended
      `y < map.len() - 1`. */
  datatype Variant = AsWritten | Corrected

  function DownGuard(v: Variant, garden: Grid, p: Pos): bool {
    match v
    case AsWritten => p.y < |garden|
    case Corrected => p.y < |garden| - 1
  }

  /** One of the four `if` statements of the expansion: when the bounds guard holds and
      `q` was neither visited before nor pushed by an earlier statement, the tile is read
      (a panic when it does not exist) and pushed unless it is a rock. */
  function Push(garden: Grid, visited: set<Pos>, pushed: seq<Pos>, guard: bool, q: Pos): (r: Result<seq<Pos>>)
    ensures r.Err? <==> guard && q !in visited && q !in pushed && !InGrid(garden, q)
    ensures r.Ok? ==> r.value == pushed || (r.value == pushed + [q] && Open(garden, q))
    ensures r.Ok? ==> (q in r.value <==> q in pushed || (guard && q !in visited && Open(garden, q)))
  {
    if !guard || q in visited || q in pushed then Ok(pushed)
    else if !InGrid(garden, q) then Err
    else if garden[q.y][q.x] == '#' then Ok(pushed)
    else Ok(pushed + [q])
  }

  /** The neighbours pushed when the tile at `p` is expanded, in the order left, right,
      up, down. Computing `map[0].len() - 1` panics on an empty first row (or no rows). */
  function Expand(v: Variant, garden: Grid, visited: set<Pos>, p: Pos): (r: Result<seq<Pos>>)
    ensures r.Ok? ==> forall i :: 0 <= i < |r.value| ==> Open(garden, r.value[i]) && r.value[i] !in visited && r.value[i] in Around(p)
    ensures r.Ok? ==> forall i, j :: 0 <= i < j < |r.value| ==> r.value[i] != r.value[j]
  {
    if |garden| == 0 || |garden[0]| == 0 then Err
    else
      var a :- Push(garden, visited, [], p.x > 0, Left(p));
      var b :- Push(garden, visited, a, p.x < |garden[0]| - 1, Right(p));
      var c :- Push(garden, visited, b, p.y > 0, Up(p));
      Push(garden, visited, c, DownGuard(v, garden, p), Down(p))
  }

  /** A queue entry: a tile and its distance from the start. */
  datatype Item = Item(distance: nat, pos: Pos)

  function Enqueue(d: nat, ps: seq<Pos>): (items: seq<Item>)
    ensures |items| == |ps|
    ensures forall i :: 0 <= i < |ps| ==> items[i] == Item(d, ps[i])
  {
    seq(|ps|, i requires 0 <= i < |ps| => Item(d, ps[i]))
  }

  lemma EnqueueNone(d: nat)
    ensures Enqueue(d, []) == []
  {
  }

  /** Pushing new tiles of the grid shrinks the set of unvisited tiles. */
  lemma Fewer(garden: Grid, visited: set<Pos>, pushed: seq<Pos>)
    requires forall i :: 0 <= i < |pushed| ==> InGrid(garden, pushed[i]) && pushed[i] !in visited
    ensures pushed == [] ==> visited + Elems(pushed) == visited
    ensures pushed != [] ==> |Tiles(garden) - (visited + Elems(pushed))| < |Tiles(garden) - visited|
  {
    if pushed != [] {
      TilesInGrid(garden, pushed[0]);
      var rest := Tiles(garden) - visited;
      assert pushed[0] in rest;
      assert Tiles(garden) - (visited + Elems(pushed)) <= rest - {pushed[0]};
      SubsetCard(Tiles(garden) - (visited + Elems(pushed)), rest - {pushed[0]});
    }
  }

  /** The loop of `part1`: pop the front of the queue, count it when its distance is
      even, and expand it unless its distance is `max`. */
  function Search(v: Variant, garden: Grid, max: nat, queue: seq<Item>, visited: set<Pos>, cnt: nat): (r: Result<nat>)
    ensures r.Ok? ==> cnt <= r.value
    decreases |Tiles(garden) - visited|, |queue|
  {
    if queue == [] then Ok(cnt)
    else
      var item := queue[0];
      var counted := if item.distance % 2 == 0 then cnt + 1 else cnt;
      if item.distance == max then Search(v, garden, max, queue[1..], visited, counted)
      else
        var pushed :- Expand(v, garden, visited, item.pos);
        Fewer(garden, visited, pushed);
        Search(v, garden, max, queue[1..] + Enqueue(item.distance + 1, pushed), visited + Elems(pushed), counted)
  }

  /** `part1`: the search from `start` with only the start visited. */
  function Part1(v: Variant, garden: Grid, start: Pos, max: nat): Result<nat> {
    Search(v, garden, max, [Item(0, start)], {start}, 0)
  }

  // ---------------------------------------------------------------------------------
  // The reference: the tiles reachable in at most k steps, and their layers.

  /** The open tiles one step away from some tile of `ps`. */
  ghost function Next(garden: Grid, ps: set<Pos>): set<Pos> {
    set p, q | p in ps && q in Around(p) && Open(garden, q) :: q
  }

  /** The tiles reachable from `start` in at most `k` steps. */
  ghost function Reach(garden: Grid, start: Pos, k: nat): set<Pos> {
    if k == 0 then {start} else Reach(garden, start, k - 1) + Next(garden, Reach(garden, start, k - 1))
  }

  /** The tiles whose distance from `start` is exactly `k`. */
  ghost function Layer(garden: Grid, start: Pos, k: nat): set<Pos> {
    if k == 0 then {start} else Reach(garden, start, k) - Reach(garden, start, k - 1)
  }

  /** The number of tiles at an even distance of at most `k`. */
  ghost function EvenCount(garden: Grid, start: Pos, k: int): nat
    decreases k
  {
    if k < 0 then 0
    else EvenCount(garden, start, k - 1) + (if k % 2 == 0 then |Layer(garden, start, k)| else 0)
  }

  /** The open tiles next to `p`: what the corrected expansion may push. */
  ghost function OpenAround(garden: Grid, p: Pos): set<Pos> {
    set q | q in Around(p) && Open(garden, q)
  }

  lemma NextUnion(garden: Grid, a: set<Pos>, b: set<Pos>)
    ensures Next(garden, a + b) == Next(garden, a) + Next(garden, b)
  {
  }

  lemma NextOne(garden: Grid, p: Pos)
    ensures Next(garden, {p}) == OpenAround(garden, p)
  {
  }

  lemma NextEmpty(garden: Grid)
    ensures Next(garden, {}) == {}
  {
  }

  /** Every reachable tile is in the grid when the start is. */
  lemma {:induction false} ReachInGrid(garden: Grid, start: Pos, k: nat)
    requires InGrid(garden, start)
    ensures forall p :: p in Reach(garden, start, k) ==> InGrid(garden, p)
  {
    if k > 0 {
      ReachInGrid(garden, start, k - 1);
    }
  }

  /** The reachable sets grow with the number of steps, one layer at a time. */
  lemma ReachLayer(garden: Grid, start: Pos, k: nat)
    requires k > 0
    ensures Reach(garden, start, k - 1) <= Reach(garden, start, k)
    ensures Reach(garden, start, k) == Reach(garden, start, k - 1) + Layer(garden, start, k)
  {
  }

  /** The next layer is what the current layer reaches in one step and was not reached
      before: the step that breadth-first search takes. */
  lemma LayerStep(garden: Grid, start: Pos, k: nat)
    ensures Layer(garden, start, k + 1) == Next(garden, Layer(garden, start, k)) - Reach(garden, start, k)
  {
    if k > 0 {
      ReachLayer(garden, start, k);
      NextUnion(garden, Reach(garden, start, k - 1), Layer(garden, start, k));
    }
  }

  /** Once a layer is empty, the reachable set stops growing. */
  lemma {:induction false} ReachStable(garden: Grid, start: Pos, k: nat, j: nat)
    requires Layer(garden, start, k + 1) == {}
    requires k <= j
    ensures Reach(garden, start, j) == Reach(garden, start, k)
    decreases j
  {
    hide *;
    if j > k {
      ReachLayer(garden, start, k + 1);
      if j > k + 1 {
        ReachStable(garden, start, k, j - 1);
        ReachUnfold(garden, start, j);
        ReachUnfold(garden, start, k + 1);
      }
    }
  }

  lemma ReachUnfold(garden: Grid, start: Pos, k: nat)
    requires k > 0
    ensures Reach(garden, start, k) == Reach(garden, start, k - 1) + Next(garden, Reach(garden, start, k - 1))
  {
  }

  /** After an empty layer, every later layer is empty. */
  lemma LayerEmptyAfter(garden: Grid, start: Pos, k: nat, j: nat)
    requires Layer(garden, start, k + 1) == {}
    requires k < j
    ensures Layer(garden, start, j) == {}
  {
    hide *;
    ReachStable(garden, start, k, j);
    ReachStable(garden, start, k, j - 1);
    LayerUnfold(garden, start, j);
  }

  lemma LayerUnfold(garden: Grid, start: Pos, k: nat)
    requires k > 0
    ensures Layer(garden, start, k) == Reach(garden, start, k) - Reach(garden, start, k - 1)
  {
  }

  lemma EvenCountStep(garden: Grid, start: Pos, j: nat)
    ensures EvenCount(garden, start, j) == EvenCount(garden, start, j - 1) + (if j % 2 == 0 then |Layer(garden, start, j)| else 0)
  {
  }

  /** After an empty layer, no more tiles are counted. */
  lemma {:induction false} EvenCountStable(garden: Grid, start: Pos, k: nat, j: int)
    requires Layer(garden, start, k + 1) == {}
    requires k <= j
    ensures EvenCount(garden, start, j) == EvenCount(garden, start, k)
    decreases j
  {
    hide *;
    if j > k {
      EvenCountStable(garden, start, k, j - 1);
      LayerEmptyAfter(garden, start, k, j);
      EvenCountStep(garden, start, j);
    }
  }

  // ---------------------------------------------------------------------------------
  // The expansion of one tile.

  /** On a rectangular garden the corrected expansion of a tile never panics, and it
      pushes exactly the open neighbours that were not visited, each once. */
  lemma ExpandCorrected(garden: Grid, visited: set<Pos>, p: Pos) returns (pushed: seq<Pos>)
    requires Rectangular(garden) && InGrid(garden, p)
    ensures Expand(Corrected, garden, visited, p) == Ok(pushed)
    ensures Elems(pushed) == OpenAround(garden, p) - visited
    ensures forall i :: 0 <= i < |pushed| ==> InGrid(garden, pushed[i]) && pushed[i] !in visited
    ensures forall i, j :: 0 <= i < j < |pushed| ==> pushed[i] != pushed[j]
  {
    assert InGrid(garden, Left(p)) <==> p.x > 0;
    assert InGrid(garden, Right(p)) <==> p.x < |garden[0]| - 1;
    assert InGrid(garden, Up(p)) <==> p.y > 0;
    assert InGrid(garden, Down(p)) <==> DownGuard(Corrected, garden, p);
    pushed := Expand(Corrected, garden, visited, p).value;
    forall q | q in OpenAround(garden, p) - visited
      ensures q in pushed
    {
      assert q in Around(p);
    }
  }

  /** The downward guard as written: a tile of the last row whose lower neighbour was
      not visited makes the expansion index past the last row. */
  lemma ExpandAsWrittenPanics(garden: Grid, visited: set<Pos>, p: Pos)
    requires Rectangular(garden) && InGrid(garden, p)
    requires p.y == |garden| - 1 && Down(p) !in visited
    ensures Expand(AsWritten, garden, visited, p) == Err
  {
    assert InGrid(garden, Left(p)) <==> p.x > 0;
    assert InGrid(garden, Right(p)) <==> p.x < |garden[0]| - 1;
    assert InGrid(garden, Up(p)) <==> p.y > 0;
  }

  // ---------------------------------------------------------------------------------
  // The invariant of the search: the queue holds the unprocessed part of layer k,
  // followed by the tiles of layer k + 1 found so far.

  function Positions(items: seq<Item>): set<Pos> {
    set it | it in items :: it.pos
  }

  predicate DistinctPositions(items: seq<Item>) {
    forall i, j :: 0 <= i < j < |items| ==> items[i].pos != items[j].pos
  }

  /** The first `m` entries are at distance `k`, the rest at `k + 1`. */
  predicate Labelled(queue: seq<Item>, k: nat, m: nat) {
    && m <= |queue|
    && (forall i :: 0 <= i < m ==> queue[i].distance == k)
    && (forall i :: m <= i < |queue| ==> queue[i].distance == k + 1)
  }

  /** The tiles of layer `k` already popped. */
  ghost function Processed(garden: Grid, start: Pos, k: nat, queue: seq<Item>, m: nat): set<Pos>
    requires m <= |queue|
  {
    Layer(garden, start, k) - Positions(queue[..m])
  }

  ghost predicate Inv(garden: Grid, start: Pos, max: nat, k: nat, m: nat, queue: seq<Item>, visited: set<Pos>, cnt: nat) {
    && k <= max
    && Labelled(queue, k, m)
    && DistinctPositions(queue)
    && Positions(queue[..m]) <= Layer(garden, start, k)
    && Positions(queue[m..]) == (if k < max then Next(garden, Processed(garden, start, k, queue, m)) - Reach(garden, start, k) else {})
    && visited == Reach(garden, start, k) + Positions(queue[m..])
    && cnt == EvenCount(garden, start, k - 1) + (if k % 2 == 0 then |Processed(garden, start, k, queue, m)| else 0)
  }

  lemma InvIntro(garden: Grid, start: Pos, max: nat, k: nat, m: nat, queue: seq<Item>, visited: set<Pos>, cnt: nat)
    requires k <= max
    requires Labelled(queue, k, m)
    requires DistinctPositions(queue)
    requires Positions(queue[..m]) <= Layer(garden, start, k)
    requires Positions(queue[m..]) == (if k < max then Next(garden, Processed(garden, start, k, queue, m)) - Reach(garden, start, k) else {})
    requires visited == Reach(garden, start, k) + Positions(queue[m..])
    requires cnt == EvenCount(garden, start, k - 1) + (if k % 2 == 0 then |Processed(garden, start, k, queue, m)| else 0)
    ensures Inv(garden, start, max, k, m, queue, visited, cnt)
  {
  }

  lemma InvInit(garden: Grid, start: Pos, max: nat)
    ensures Inv(garden, start, max, 0, 1, [Item(0, start)], {start}, 0)
  {
    var queue := [Item(0, start)];
    assert queue[..1] == queue && queue[0] in queue;
    assert Positions(queue[..1]) == {start};
    assert Processed(garden, start, 0, queue, 1) == {};
    NextEmpty(garden);
    assert Positions(queue[1..]) == {};
  }

  /** When the last tile of layer `k` has been popped, the queue is exactly layer
      `k + 1` and the search moves on to it. */
  lemma InvShift(garden: Grid, start: Pos, max: nat, k: nat, queue: seq<Item>, visited: set<Pos>, cnt: nat)
    requires Inv(garden, start, max, k, 0, queue, visited, cnt)
    requires queue != []
    ensures k < max
    ensures Inv(garden, start, max, k + 1, |queue|, queue, visited, cnt)
  {
    assert queue[..0] == [] && queue[0..] == queue && queue[..|queue|] == queue && queue[|queue|..] == [];
    assert queue[0].pos in Positions(queue);
    assert Processed(garden, start, k, queue, 0) == Layer(garden, start, k);
    LayerStep(garden, start, k);
    ReachLayer(garden, start, k + 1);
    EvenCountStep(garden, start, k);
    NextEmpty(garden);
    assert Processed(garden, start, k + 1, queue, |queue|) == {};
  }

  lemma InvElim(garden: Grid, start: Pos, max: nat, k: nat, m: nat, queue: seq<Item>, visited: set<Pos>, cnt: nat)
    requires Inv(garden, start, max, k, m, queue, visited, cnt)
    ensures k <= max && m <= |queue|
    ensures Positions(queue[m..]) == (if k < max then Next(garden, Processed(garden, start, k, queue, m)) - Reach(garden, start, k) else {})
    ensures cnt == EvenCount(garden, start, k - 1) + (if k % 2 == 0 then |Processed(garden, start, k, queue, m)| else 0)
  {
  }

  /** When the queue is empty, the counter holds the answer. */
  lemma InvDone(garden: Grid, start: Pos, max: nat, k: nat, visited: set<Pos>, cnt: nat)
    requires Inv(garden, start, max, k, 0, [], visited, cnt)
    ensures cnt == EvenCount(garden, start, max)
  {
    hide *;
    var queue: seq<Item> := [];
    InvElim(garden, start, max, k, 0, queue, visited, cnt);
    assert queue[..0] == [] && queue[0..] == [];
    PositionsEmpty();
    ProcessedIs(garden, start, k, queue, 0);
    assert Processed(garden, start, k, queue, 0) == Layer(garden, start, k);
    assert k < max ==> Next(garden, Layer(garden, start, k)) - Reach(garden, start, k) == {};
    EvenCountStep(garden, start, k);
    if k < max {
      LayerStep(garden, start, k);
      EvenCountStable(garden, start, k, max);
    }
  }

  lemma PositionsEmpty()
    ensures Positions([]) == {}
  {
  }

  lemma ProcessedIs(garden: Grid, start: Pos, k: nat, queue: seq<Item>, m: nat)
    requires m <= |queue|
    ensures Processed(garden, start, k, queue, m) == Layer(garden, start, k) - Positions(queue[..m])
  {
  }

  lemma PositionsAppend(a: seq<Item>, b: seq<Item>)
    ensures Positions(a + b) == Positions(a) + Positions(b)
  {
    forall q | q in Positions(a + b)
      ensures q in Positions(a) + Positions(b)
    {
      var it :| it in a + b && it.pos == q;
    }
  }

  lemma PositionsEnqueue(d: nat, ps: seq<Pos>)
    ensures Positions(Enqueue(d, ps)) == Elems(ps)
  {
    var items := Enqueue(d, ps);
    forall q | q in Elems(ps)
      ensures q in Positions(items)
    {
      var i :| 0 <= i < |ps| && ps[i] == q;
      assert items[i] in items;
    }
  }

  lemma ElemsFacts(ps: seq<Pos>)
    ensures forall i :: 0 <= i < |ps| ==> ps[i] in Elems(ps)
    ensures ps == [] ==> Elems(ps) == {}
  {
  }

  lemma UnionRegroup<T>(whole: set<T>, a: set<T>, b: set<T>, c: set<T>, bc: set<T>)
    requires whole == a + b && bc == b + c
    ensures whole + c == a + bc
  {
  }

  lemma LayerInReach(garden: Grid, start: Pos, k: nat)
    ensures Layer(garden, start, k) <= Reach(garden, start, k)
  {
  }

  /** Popping the front: the rest of layer `k` is the old rest without its head, and the
      new entries join the tiles of layer `k + 1`. */
  lemma PopSplit(queue: seq<Item>, m: nat, tail: seq<Item>)
    requires 1 <= m <= |queue|
    ensures (queue[1..] + tail)[..m - 1] == queue[1..m]
    ensures (queue[1..] + tail)[m - 1..] == queue[m..] + tail
  {
  }

  lemma PopHead(queue: seq<Item>, m: nat)
    requires 1 <= m <= |queue| && DistinctPositions(queue)
    ensures Positions(queue[..m]) == {queue[0].pos} + Positions(queue[1..m])
    ensures queue[0].pos !in Positions(queue[1..m])
  {
    assert queue[..m] == [queue[0]] + queue[1..m];
    PositionsAppend([queue[0]], queue[1..m]);
    assert Positions([queue[0]]) == {queue[0].pos};
  }

  lemma PopLabelled(queue: seq<Item>, k: nat, m: nat, pushed: seq<Pos>)
    requires Labelled(queue, k, m) && 1 <= m
    ensures Labelled(queue[1..] + Enqueue(k + 1, pushed), k, m - 1)
  {
  }

  lemma PopDistinct(queue: seq<Item>, visited: set<Pos>, pushed: seq<Pos>, d: nat)
    requires queue != [] && DistinctPositions(queue)
    requires Positions(queue) <= visited
    requires forall i :: 0 <= i < |pushed| ==> pushed[i] !in visited
    requires forall i, j :: 0 <= i < j < |pushed| ==> pushed[i] != pushed[j]
    ensures DistinctPositions(queue[1..] + Enqueue(d, pushed))
  {
    var q := queue[1..] + Enqueue(d, pushed);
    forall i, j | 0 <= i < j < |q|
      ensures q[i].pos != q[j].pos
    {
      if j >= |queue| - 1 {
        assert q[j].pos == pushed[j - (|queue| - 1)];
        if i < |queue| - 1 {
          assert queue[i + 1] in queue;
        }
      }
    }
  }

  /** Processing one more tile `p` of layer `k` adds its open neighbours not yet seen to
      the frontier. */
  lemma FrontierStep(garden: Grid, done: set<Pos>, p: Pos, reach: set<Pos>, frontier: set<Pos>, added: set<Pos>)
    requires frontier == Next(garden, done) - reach
    requires added == OpenAround(garden, p) - (reach + frontier)
    ensures frontier + added == Next(garden, done + {p}) - reach
  {
    NextUnion(garden, done, {p});
    NextOne(garden, p);
  }

  /** Popping the front of the queue and appending the new entries, as sets of tiles. */
  lemma PopQueue(queue: seq<Item>, k: nat, m: nat, visited: set<Pos>, pushed: seq<Pos>)
    requires Labelled(queue, k, m) && DistinctPositions(queue) && 1 <= m
    requires Positions(queue) <= visited
    requires forall i :: 0 <= i < |pushed| ==> pushed[i] !in visited
    requires forall i, j :: 0 <= i < j < |pushed| ==> pushed[i] != pushed[j]
    ensures Labelled(queue[1..] + Enqueue(k + 1, pushed), k, m - 1)
    ensures DistinctPositions(queue[1..] + Enqueue(k + 1, pushed))
    ensures queue[0].pos in Positions(queue[..m])
    ensures Positions((queue[1..] + Enqueue(k + 1, pushed))[..m - 1]) == Positions(queue[..m]) - {queue[0].pos}
    ensures Positions((queue[1..] + Enqueue(k + 1, pushed))[m - 1..]) == Positions(queue[m..]) + Elems(pushed)
  {
    var tail := Enqueue(k + 1, pushed);
    PopSplit(queue, m, tail);
    PopHead(queue, m);
    PositionsAppend(queue[m..], tail);
    PositionsEnqueue(k + 1, pushed);
    PopLabelled(queue, k, m, pushed);
    PopDistinct(queue, visited, pushed, k + 1);
  }

  /** Popping `p` from the waiting part of a layer adds it to the processed part. */
  lemma ProcessedGrows(p: Pos, layer: set<Pos>, waiting: set<Pos>, waiting': set<Pos>)
    requires waiting <= layer && p in waiting && waiting' == waiting - {p}
    ensures waiting' <= layer
    ensures layer - waiting' == (layer - waiting) + {p} && p !in layer - waiting
    ensures |layer - waiting'| == |layer - waiting| + 1
  {
  }

  /** The set algebra of one pop: the frontier gains the open neighbours of `p` not seen
      before. */
  lemma PopSets(garden: Grid, frontierOpen: bool, p: Pos, done: set<Pos>, reach: set<Pos>, visited: set<Pos>,
                found: set<Pos>, found': set<Pos>, added: set<Pos>)
    requires visited == reach + found && found' == found + added
    requires found == (if frontierOpen then Next(garden, done) - reach else {})
    requires frontierOpen ==> added == OpenAround(garden, p) - visited
    requires !frontierOpen ==> added == {}
    ensures found' == (if frontierOpen then Next(garden, done + {p}) - reach else {})
    ensures visited + added == reach + found'
  {
    if frontierOpen {
      FrontierStep(garden, done, p, reach, found, added);
    }
    UnionRegroup(visited, reach, found, added, found');
  }

  /** Popping the front entry and pushing the expansion of its tile keeps the invariant. */
  lemma InvPop(garden: Grid, start: Pos, max: nat, k: nat, m: nat, queue: seq<Item>, visited: set<Pos>, cnt: nat, pushed: seq<Pos>)
    requires Inv(garden, start, max, k, m, queue, visited, cnt)
    requires 1 <= m
    requires k == max ==> pushed == []
    requires k < max ==> Elems(pushed) == OpenAround(garden, queue[0].pos) - visited
    requires forall i, j :: 0 <= i < j < |pushed| ==> pushed[i] != pushed[j]
    ensures Inv(garden, start, max, k, m - 1, queue[1..] + Enqueue(k + 1, pushed), visited + Elems(pushed), cnt + (if k % 2 == 0 then 1 else 0))
  {
    var p := queue[0].pos;
    var next := queue[1..] + Enqueue(k + 1, pushed);
    var reach := Reach(garden, start, k);
    var layer := Layer(garden, start, k);
    var waiting := Positions(queue[..m]);
    var waiting' := Positions(next[..m - 1]);
    var found := Positions(queue[m..]);
    var found' := Positions(next[m - 1..]);
    assert k <= max && Labelled(queue, k, m) && DistinctPositions(queue);
    assert waiting <= layer;
    assert found == (if k < max then Next(garden, layer - waiting) - reach else {});
    assert visited == reach + found;
    assert cnt == EvenCount(garden, start, k - 1) + (if k % 2 == 0 then |layer - waiting| else 0);
    assert Processed(garden, start, k, next, m - 1) == layer - waiting';
    assert queue == queue[..m] + queue[m..];
    hide *;
    LayerInReach(garden, start, k);
    PositionsAppend(queue[..m], queue[m..]);
    ElemsFacts(pushed);
    assert forall i :: 0 <= i < |pushed| ==> pushed[i] !in visited;
    PopQueue(queue, k, m, visited, pushed);
    ProcessedGrows(p, layer, waiting, waiting');
    PopSets(garden, k < max, p, layer - waiting, reach, visited, found, found', Elems(pushed));
    InvIntro(garden, start, max, k, m - 1, next, visited + Elems(pushed), cnt + (if k % 2 == 0 then 1 else 0));
  }

  lemma SearchEmpty(v: Variant, garden: Grid, max: nat, visited: set<Pos>, cnt: nat)
    ensures Search(v, garden, max, [], visited, cnt) == Ok(cnt)
  {
  }

  lemma SearchStop(v: Variant, garden: Grid, max: nat, queue: seq<Item>, visited: set<Pos>, cnt: nat)
    requires queue != [] && queue[0].distance == max
    ensures Search(v, garden, max, queue, visited, cnt)
         == Search(v, garden, max, queue[1..], visited, if max % 2 == 0 then cnt + 1 else cnt)
  {
  }

  lemma SearchExpand(v: Variant, garden: Grid, max: nat, queue: seq<Item>, visited: set<Pos>, cnt: nat, pushed: seq<Pos>)
    requires queue != [] && queue[0].distance != max
    requires Expand(v, garden, visited, queue[0].pos) == Ok(pushed)
    ensures Search(v, garden, max, queue, visited, cnt)
         == Search(v, garden, max, queue[1..] + Enqueue(queue[0].distance + 1, pushed), visited + Elems(pushed),
                   if queue[0].distance % 2 == 0 then cnt + 1 else cnt)
  {
  }

  /** The head of the queue is a tile of the current layer, so it lies in the grid. */
  lemma InvHead(garden: Grid, start: Pos, max: nat, k: nat, m: nat, queue: seq<Item>, visited: set<Pos>, cnt: nat)
    requires InGrid(garden, start)
    requires Inv(garden, start, max, k, m, queue, visited, cnt)
    requires 1 <= m
    ensures queue[0].distance == k && InGrid(garden, queue[0].pos)
  {
    assert queue[0] in queue[..m];
    LayerInReach(garden, start, k);
    ReachInGrid(garden, start, k);
  }

  /** The front of a non-empty queue belongs to the layer of the invariant: when the
      current layer is exhausted, the search moves on to the next. */
  lemma Settle(garden: Grid, start: Pos, max: nat, k: nat, m: nat, queue: seq<Item>, visited: set<Pos>, cnt: nat)
      returns (k': nat, m': nat)
    requires InGrid(garden, start)
    requires Inv(garden, start, max, k, m, queue, visited, cnt)
    requires queue != []
    ensures Inv(garden, start, max, k', m', queue, visited, cnt) && 1 <= m'
    ensures queue[0].distance == k' && InGrid(garden, queue[0].pos)
  {
    k', m' := k, m;
    if m == 0 {
      InvShift(garden, start, max, k, queue, visited, cnt);
      k', m' := k + 1, |queue|;
    }
    InvHead(garden, start, max, k', m', queue, visited, cnt);
  }

  /** An entry at distance `max` is counted and not expanded. */
  lemma PopStop(garden: Grid, start: Pos, max: nat, k: nat, m: nat, queue: seq<Item>, visited: set<Pos>, cnt: nat)
    requires Inv(garden, start, max, k, m, queue, visited, cnt) && 1 <= m
    requires queue[0].distance == k == max
    ensures Inv(garden, start, max, k, m - 1, queue[1..], visited, cnt + (if k % 2 == 0 then 1 else 0))
    ensures Search(Corrected, garden, max, queue, visited, cnt)
         == Search(Corrected, garden, max, queue[1..], visited, cnt + (if k % 2 == 0 then 1 else 0))
  {
    assert m <= |queue|;
    hide *;
    InvPop(garden, start, max, k, m, queue, visited, cnt, []);
    EnqueueNone(k + 1);
    ElemsFacts([]);
    assert queue[1..] + Enqueue(k + 1, []) == queue[1..];
    assert visited + Elems([]) == visited;
    SearchStop(Corrected, garden, max, queue, visited, cnt);
  }

  /** An entry below distance `max` is counted and expanded. */
  lemma PopExpand(garden: Grid, start: Pos, max: nat, k: nat, m: nat, queue: seq<Item>, visited: set<Pos>, cnt: nat)
      returns (pushed: seq<Pos>)
    requires Rectangular(garden)
    requires Inv(garden, start, max, k, m, queue, visited, cnt) && 1 <= m
    requires queue[0].distance == k < max && InGrid(garden, queue[0].pos)
    ensures Inv(garden, start, max, k, m - 1, queue[1..] + Enqueue(k + 1, pushed), visited + Elems(pushed), cnt + (if k % 2 == 0 then 1 else 0))
    ensures Expand(Corrected, garden, visited, queue[0].pos) == Ok(pushed)
    ensures forall i :: 0 <= i < |pushed| ==> InGrid(garden, pushed[i]) && pushed[i] !in visited
  {
    assert m <= |queue|;
    hide *;
    pushed := ExpandCorrected(garden, visited, queue[0].pos);
    InvPop(garden, start, max, k, m, queue, visited, cnt, pushed);
  }

  /** One iteration of the search, with the invariant carried from before it to after
      it, and the measure that makes the search terminate decreased. */
  lemma PopStep(garden: Grid, start: Pos, max: nat, k: nat, m: nat, queue: seq<Item>, visited: set<Pos>, cnt: nat)
      returns (k': nat, m': nat, queue': seq<Item>, visited': set<Pos>, cnt': nat)
    requires Rectangular(garden) && InGrid(garden, start)
    requires Inv(garden, start, max, k, m, queue, visited, cnt)
    requires queue != []
    ensures Inv(garden, start, max, k', m', queue', visited', cnt')
    ensures Search(Corrected, garden, max, queue, visited, cnt) == Search(Corrected, garden, max, queue', visited', cnt')
    ensures |Tiles(garden) - visited'| < |Tiles(garden) - visited| || (visited' == visited && |queue'| < |queue|)
  {
    hide *;
    var layer, split := Settle(garden, start, max, k, m, queue, visited, cnt);
    k' := layer;
    cnt' := cnt + (if layer % 2 == 0 then 1 else 0);
    if layer == max {
      PopStop(garden, start, max, layer, split, queue, visited, cnt);
      m', queue', visited' := split - 1, queue[1..], visited;
    } else {
      assert layer < max by {
        InvBound(garden, start, max, layer, split, queue, visited, cnt);
      }
      var pushed := PopExpand(garden, start, max, layer, split, queue, visited, cnt);
      Fewer(garden, visited, pushed);
      SearchExpand(Corrected, garden, max, queue, visited, cnt, pushed);
      m', queue', visited' := split - 1, queue[1..] + Enqueue(layer + 1, pushed), visited + Elems(pushed);
      if pushed == [] {
        EnqueueNone(layer + 1);
        assert queue' == queue[1..];
      }
    }
  }

  lemma InvBound(garden: Grid, start: Pos, max: nat, k: nat, m: nat, queue: seq<Item>, visited: set<Pos>, cnt: nat)
    requires Inv(garden, start, max, k, m, queue, visited, cnt)
    ensures k <= max
  {
  }

  /** The search keeps its invariant until the queue is empty, and then answers the
      number of tiles at an even distance of at most `max`. */
  lemma {:induction false} SearchSound(garden: Grid, start: Pos, max: nat, k: nat, m: nat, queue: seq<Item>, visited: set<Pos>, cnt: nat)
    requires Rectangular(garden) && InGrid(garden, start)
    requires Inv(garden, start, max, k, m, queue, visited, cnt)
    ensures Search(Corrected, garden, max, queue, visited, cnt) == Ok(EvenCount(garden, start, max))
    decreases |Tiles(garden) - visited|, |queue|
  {
    assert m <= |queue|;
    hide *;
    if queue == [] {
      InvDone(garden, start, max, k, visited, cnt);
      SearchEmpty(Corrected, garden, max, visited, cnt);
    } else {
      var k', m', queue', visited', cnt' := PopStep(garden, start, max, k, m, queue, visited, cnt);
      SearchSound(garden, start, max, k', m', queue', visited', cnt');
    }
  }

  /** `part1`, with the downward guard corrected, counts the tiles of a rectangular
      garden whose distance from the start is even and at most `max`. */
  lemma Part1Correct(garden: Grid, start: Pos, max: nat)
    requires Rectangular(garden) && InGrid(garden, start)
    ensures Part1(Corrected, garden, start, max) == Ok(EvenCount(garden, start, max))
  {
    InvInit(garden, start, max);
    SearchSound(garden, start, max, 0, 1, [Item(0, start)], {start}, 0);
  }

  /** As written, `part1` panics whenever the start lies in the last row and at least
      one step is allowed: the start is expanded, and its lower neighbour is read. */
  lemma Part1AsWrittenPanics(garden: Grid, start: Pos, max: nat)
    requires Rectangular(garden) && InGrid(garden, start)
    requires start.y == |garden| - 1 && max > 0
    ensures Part1(AsWritten, garden, start, max) == Err
  {
    ExpandAsWrittenPanics(garden, {start}, start);
  }

  /** The smallest garden shows it: one tile, one step. */
  lemma OneTileAsWritten()
    ensures Part1(AsWritten, ["S"], Day10.Pos(0, 0), 1) == Err
  {
    Part1AsWrittenPanics(["S"], Day10.Pos(0, 0), 1);
  }

  /** The corrected search counts the start alone. */
  lemma OneTileCorrected()
    ensures Part1(Corrected, ["S"], Day10.Pos(0, 0), 1) == Ok(1)
  {
    var garden := ["S"];
    var start := Day10.Pos(0, 0);
    Part1Correct(garden, start, 1);
    assert Next(garden, {start}) == {} by {
      NextOne(garden, start);
    }
    hide Next;
    assert Reach(garden, start, 1) == {start};
    assert Layer(garden, start, 1) == {};
    EvenCountStep(garden, start, 1);
    EvenCountStep(garden, start, 0);
  }

  // ---------------------------------------------------------------------------------
  // The reference in terms of walks.

  /** A walk from `start`: each later tile is an open neighbour of the one before. */
  ghost predicate IsWalk(garden: Grid, start: Pos, w: seq<Pos>) {
    && |w| >= 1 && w[0] == start
    && forall i :: 1 <= i < |w| ==> w[i] in Around(w[i - 1]) && Open(garden, w[i])
  }

  lemma {:induction false} ReachGrows(garden: Grid, start: Pos, j: nat, k: nat)
    requires j <= k
    ensures Reach(garden, start, j) <= Reach(garden, start, k)
    decreases k
  {
    hide *;
    if j < k {
      ReachGrows(garden, start, j, k - 1);
      ReachLayer(garden, start, k);
    }
  }

  /** `Reach` is the set of tiles at the end of a walk of at most `k` steps, so `Layer`
      holds the tiles whose shortest walk from the start has exactly `k` steps. */
  lemma {:induction false} ReachIsWalks(garden: Grid, start: Pos, k: nat, q: Pos)
    ensures q in Reach(garden, start, k) <==> exists w :: IsWalk(garden, start, w) && |w| <= k + 1 && w[|w| - 1] == q
  {
    if q in Reach(garden, start, k) {
      var w := WalkTo(garden, start, k, q);
    }
    if w :| IsWalk(garden, start, w) && |w| <= k + 1 && w[|w| - 1] == q {
      WalkInReach(garden, start, k, w);
    }
  }

  lemma {:induction false} WalkTo(garden: Grid, start: Pos, k: nat, q: Pos) returns (w: seq<Pos>)
    requires q in Reach(garden, start, k)
    ensures IsWalk(garden, start, w) && |w| <= k + 1 && w[|w| - 1] == q
  {
    if k == 0 {
      w := [start];
    } else if q in Reach(garden, start, k - 1) {
      w := WalkTo(garden, start, k - 1, q);
    } else {
      var p :| p in Reach(garden, start, k - 1) && q in Around(p) && Open(garden, q);
      var v := WalkTo(garden, start, k - 1, p);
      hide *;
      WalkExtend(garden, start, v, q);
      w := v + [q];
    }
  }

  lemma WalkExtend(garden: Grid, start: Pos, v: seq<Pos>, q: Pos)
    requires IsWalk(garden, start, v)
    requires q in Around(v[|v| - 1]) && Open(garden, q)
    ensures IsWalk(garden, start, v + [q]) && (v + [q])[|v|] == q
  {
  }

  lemma {:induction false} WalkInReach(garden: Grid, start: Pos, k: nat, w: seq<Pos>)
    requires IsWalk(garden, start, w) && |w| <= k + 1
    ensures w[|w| - 1] in Reach(garden, start, k)
    decreases |w|
  {
    if |w| == 1 {
      ReachGrows(garden, start, 0, k);
    } else {
      var v := w[..|w| - 1];
      assert IsWalk(garden, start, v);
      WalkInReach(garden, start, k - 1, v);
      var p := v[|v| - 1];
      assert w[|w| - 1] in Around(p) && Open(garden, w[|w| - 1]);
      assert w[|w| - 1] in Next(garden, Reach(garden, start, k - 1));
    }
  }

  // ---------------------------------------------------------------------------------
  // Parsing.

  /** `parse_input`: the lines of the input as rows, and the first `S` in row-major order;
      an input without `S` is an error (the source's `expect`). */
  function ParseInput(input: string): (r: Result<(Grid, Pos)>)
    ensures r.Ok? <==> exists p :: Day10.IsStart(Lines(input), p)
    ensures r.Ok? ==> r.value.0 == Lines(input) && Day10.IsStart(r.value.0, r.value.1)
    ensures r.Ok? ==> forall q :: Day10.IsStart(Lines(input), q) ==> !Day10.RowMajorBefore(q, r.value.1)
  {
    var garden := Lines(input);
    var start :- OkOr(Day10.FindStart(garden));
    Ok((garden, start))
  }

  /** The start a parse returns is a tile of the garden, as the search needs. */
  lemma ParsedStartInGrid(input: string)
    requires ParseInput(input).Ok?
    ensures InGrid(ParseInput(input).value.0, ParseInput(input).value.1)
  {
  }
}
