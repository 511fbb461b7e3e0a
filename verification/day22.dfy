/** Day 22: sand bricks (`lib.rs`). Each brick is a line of unit cubes between two corner
    cubes. The source sorts the bricks, lets each fall in turn onto the floor (height 0)
    or onto the bricks already settled under its footprint, and answers how many bricks
    could be removed without another brick falling: all but those that are the only
    support of some brick.

    The source keeps, for every cell of the floor, the index of the last brick placed
    over it (`brickmap`); the model keeps the same as a map from cells to indices, and
    proves that it finds the same resting height and the same supporters as a reference
    that looks at every settled brick. Coordinates are unbounded naturals; `usize`
    subtractions that would go below zero are `Err`, as the checked arithmetic panics. */
module Day22 {
  import opened Wrappers
  import opened Text
  import opened Sets

  /** `Cube`: one corner of a brick. */
  datatype Cube = Cube(x: nat, y: nat, z: nat)

  /** `Brick`: the cubes at its two ends. */
  datatype Brick = Brick(lo: Cube, hi: Cube)

  // ---------------------------------------------------------------------------------
  // The derived ordering and the sort.

  /** The derived `Ord` of `Cube`, whose fields are declared in the order `z`, `y`, `x`:
      height first. */
  predicate CubeLess(a: Cube, b: Cube) {
    a.z < b.z || (a.z == b.z && (a.y < b.y || (a.y == b.y && a.x < b.x)))
  }

  /** The derived `Ord` of `Brick(Cube, Cube)`: the first cube, then the second. */
  predicate BrickLess(a: Brick, b: Brick) {
    CubeLess(a.lo, b.lo) || (a.lo == b.lo && CubeLess(a.hi, b.hi))
  }

  /** The ordering is a strict total order on bricks. */
  lemma BrickOrder(a: Brick, b: Brick, c: Brick)
    ensures !BrickLess(a, a)
    ensures BrickLess(a, b) && BrickLess(b, c) ==> BrickLess(a, c)
    ensures a == b || BrickLess(a, b) || BrickLess(b, a)
  {
  }

  predicate Sorted(bricks: seq<Brick>) {
    forall i, j :: 0 <= i < j < |bricks| ==> !BrickLess(bricks[j], bricks[i])
  }

  function Insert(b: Brick, sorted: seq<Brick>): (r: seq<Brick>)
    ensures |r| == |sorted| + 1
  {
    if |sorted| == 0 then [b]
    else if !BrickLess(sorted[0], b) then [b] + sorted
    else [sorted[0]] + Insert(b, sorted[1..])
  }

  /** `bricks.sort()`: insertion of each brick into the sorted later ones. */
  function Sort(bricks: seq<Brick>): (sorted: seq<Brick>)
    ensures |sorted| == |bricks|
  {
    if |bricks| == 0 then [] else Insert(bricks[0], Sort(bricks[1..]))
  }

  lemma {:induction false} InsertPermutes(b: Brick, sorted: seq<Brick>)
    ensures multiset(Insert(b, sorted)) == multiset(sorted) + multiset{b}
  {
    if |sorted| > 0 && BrickLess(sorted[0], b) {
      InsertPermutes(b, sorted[1..]);
      assert [sorted[0]] + sorted[1..] == sorted;
    }
  }

  lemma PrependSorted(b: Brick, sorted: seq<Brick>)
    requires Sorted(sorted)
    requires forall k :: 0 <= k < |sorted| ==> !BrickLess(sorted[k], b)
    ensures Sorted([b] + sorted)
  {
    var r := [b] + sorted;
    forall i, j | 0 <= i < j < |r| ensures !BrickLess(r[j], r[i]) {
      assert r[j] == sorted[j - 1];
      if i > 0 {
        assert r[i] == sorted[i - 1];
      }
    }
  }

  lemma {:induction false} InsertSorted(b: Brick, sorted: seq<Brick>)
    requires Sorted(sorted)
    ensures Sorted(Insert(b, sorted))
  {
    if |sorted| > 0 {
      if !BrickLess(sorted[0], b) {
        forall k | 0 <= k < |sorted| ensures !BrickLess(sorted[k], b) {
          BrickOrder(sorted[k], sorted[0], b);
          if k > 0 {
            BrickOrder(sorted[k], sorted[0], sorted[k]);
          }
        }
        PrependSorted(b, sorted);
      } else {
        var rest := Insert(b, sorted[1..]);
        InsertSorted(b, sorted[1..]);
        InsertPermutes(b, sorted[1..]);
        forall k | 0 <= k < |rest| ensures !BrickLess(rest[k], sorted[0]) {
          assert rest[k] in multiset(rest);
          if rest[k] != b {
            var j :| 0 <= j < |sorted[1..]| && sorted[1..][j] == rest[k];
            assert sorted[j + 1] == rest[k];
          } else {
            BrickOrder(b, sorted[0], b);
          }
        }
        PrependSorted(sorted[0], rest);
      }
    }
  }

  /** The sort orders the bricks and keeps every brick. */
  lemma {:induction false} SortSpec(bricks: seq<Brick>)
    ensures Sorted(Sort(bricks))
    ensures multiset(Sort(bricks)) == multiset(bricks)
  {
    if |bricks| > 0 {
      SortSpec(bricks[1..]);
      InsertSorted(bricks[0], Sort(bricks[1..]));
      InsertPermutes(bricks[0], Sort(bricks[1..]));
      assert [bricks[0]] + bricks[1..] == bricks;
    }
  }

  /** Two sorted arrangements of the same bricks start with the same brick. */
  lemma SortedHeads(a: seq<Brick>, b: seq<Brick>)
    requires Sorted(a) && Sorted(b) && multiset(a) == multiset(b) && |a| > 0 && |b| > 0
    ensures a[0] == b[0]
  {
    assert a[0] in multiset(b);
    assert b[0] in multiset(a);
    var i :| 0 <= i < |b| && b[i] == a[0];
    var j :| 0 <= j < |a| && a[j] == b[0];
    BrickOrder(a[0], b[0], a[0]);
    assert i == 0 || !BrickLess(b[i], b[0]);
    assert j == 0 || !BrickLess(a[j], a[0]);
  }

  lemma SortedTail(a: seq<Brick>)
    requires Sorted(a) && |a| > 0
    ensures Sorted(a[1..]) && a == [a[0]] + a[1..]
    ensures multiset(a) == multiset(a[1..]) + multiset{a[0]}
  {
    assert a == [a[0]] + a[1..];
  }

  /** A total order leaves one way to sort: two sorted arrangements of the same bricks
      are equal, so the model's insertion sort computes what `sort` computes. */
  lemma {:induction false} SortedUnique(a: seq<Brick>, b: seq<Brick>)
    requires Sorted(a) && Sorted(b) && multiset(a) == multiset(b)
    ensures a == b
    decreases |a|
  {
    assert |a| == |multiset(a)| == |multiset(b)| == |b|;
    if |a| > 0 {
      SortedHeads(a, b);
      SortedTail(a);
      SortedTail(b);
      hide Sorted;
      assert multiset(a[1..]) == multiset(a) - multiset{a[0]};
      assert multiset(b[1..]) == multiset(b) - multiset{b[0]};
      SortedUnique(a[1..], b[1..]);
    }
  }

  /** After sorting, bricks come in order of their lower end. */
  lemma SortedByBottom(bricks: seq<Brick>, i: nat, j: nat)
    requires Sorted(bricks) && i <= j < |bricks|
    ensures bricks[i].lo.z <= bricks[j].lo.z
  {
  }

  /** Distinct elements. */
  predicate Distinct(bricks: seq<Brick>) {
    forall i, j :: 0 <= i < j < |bricks| ==> bricks[i] != bricks[j]
  }

  lemma DistinctCons(b: Brick, rest: seq<Brick>)
    requires Distinct(rest) && b !in rest
    ensures Distinct([b] + rest)
  {
    var r := [b] + rest;
    forall i, j | 0 <= i < j < |r| ensures r[i] != r[j] {
      assert r[j] == rest[j - 1];
      if i > 0 {
        assert r[i] == rest[i - 1];
      }
    }
  }

  lemma {:induction false} InsertDistinct(b: Brick, sorted: seq<Brick>)
    requires Distinct(sorted) && b !in sorted
    ensures Distinct(Insert(b, sorted))
  {
    if |sorted| > 0 && BrickLess(sorted[0], b) {
      var rest := sorted[1..];
      assert forall k :: 0 <= k < |rest| ==> rest[k] == sorted[k + 1];
      InsertDistinct(b, rest);
      InsertPermutes(b, rest);
      assert sorted[0] !in rest;
      assert sorted[0] != b;
      assert sorted[0] !in multiset(Insert(b, rest));
      DistinctCons(sorted[0], Insert(b, rest));
    } else {
      DistinctCons(b, sorted);
    }
  }

  /** Sorting keeps bricks apart that were. */
  lemma {:induction false} SortDistinct(bricks: seq<Brick>)
    requires Distinct(bricks)
    ensures Distinct(Sort(bricks))
  {
    if |bricks| > 0 {
      var rest := bricks[1..];
      assert forall k :: 0 <= k < |rest| ==> rest[k] == bricks[k + 1];
      SortDistinct(rest);
      SortSpec(rest);
      assert bricks[0] !in multiset(Sort(rest));
      InsertDistinct(bricks[0], Sort(rest));
    }
  }

  // ---------------------------------------------------------------------------------
  // Footprints.

  /** A place on the floor: the entry `brickmap[y][x]`. */
  datatype Cell = Cell(x: nat, y: nat)

  /** The cells `(x1..x2 + 1).zip(repeat(y))`, in order. */
  function Row(y: nat, x1: nat, x2: nat): seq<Cell>
    decreases x2 + 1 - x1
  {
    if x1 > x2 then [] else [Cell(x1, y)] + Row(y, x1 + 1, x2)
  }

  /** The rows `y1..y2 + 1` of such cells, one after the other. */
  function Rows(y1: nat, y2: nat, x1: nat, x2: nat): seq<Cell>
    decreases y2 + 1 - y1
  {
    if y1 > y2 then [] else Row(y1, x1, x2) + Rows(y1 + 1, y2, x1, x2)
  }

  /** The cells under a brick, in the order both loops of `settle` visit them. */
  function Cells(b: Brick): seq<Cell> {
    Rows(b.lo.y, b.hi.y, b.lo.x, b.hi.x)
  }

  /** The brick stands over the cell. */
  predicate Covers(b: Brick, c: Cell) {
    b.lo.x <= c.x <= b.hi.x && b.lo.y <= c.y <= b.hi.y
  }

  lemma {:induction false} InRow(y: nat, x1: nat, x2: nat, c: Cell)
    ensures c in Row(y, x1, x2) <==> c.y == y && x1 <= c.x <= x2
    decreases x2 + 1 - x1
  {
    if x1 <= x2 {
      InRow(y, x1 + 1, x2, c);
    }
  }

  lemma {:induction false} InRows(y1: nat, y2: nat, x1: nat, x2: nat, c: Cell)
    ensures c in Rows(y1, y2, x1, x2) <==> y1 <= c.y <= y2 && x1 <= c.x <= x2
    decreases y2 + 1 - y1
  {
    if y1 <= y2 {
      InRow(y1, x1, x2, c);
      InRows(y1 + 1, y2, x1, x2, c);
    }
  }

  lemma {:induction false} NoRows(y1: nat, y2: nat, x1: nat, x2: nat)
    requires x2 < x1
    ensures Rows(y1, y2, x1, x2) == []
    decreases y2 + 1 - y1
  {
    if y1 <= y2 {
      NoRows(y1 + 1, y2, x1, x2);
    }
  }

  /** The cells the source visits are exactly the cells the brick stands over. */
  lemma CellsCovered(b: Brick, c: Cell)
    ensures c in Cells(b) <==> Covers(b, c)
  {
    InRows(b.lo.y, b.hi.y, b.lo.x, b.hi.x, c);
  }

  /** No cells are visited exactly when a range of the brick runs backwards. */
  lemma CellsEmpty(b: Brick)
    ensures |Cells(b)| == 0 <==> b.hi.x < b.lo.x || b.hi.y < b.lo.y
  {
    if b.hi.x < b.lo.x {
      NoRows(b.lo.y, b.hi.y, b.lo.x, b.hi.x);
    }
    if b.lo.x <= b.hi.x && b.lo.y <= b.hi.y {
      CellsCovered(b, Cell(b.lo.x, b.lo.y));
    }
  }

  // ---------------------------------------------------------------------------------
  // The loop of `settle`.

  /** The state of the loop: for each cell the index of the last brick placed over it
      (`brickmap`), the settled bricks (`result`) and the indices found to be the only
      support of some brick (`supporting_bricks`). */
  datatype Stack = Stack(brickmap: map<Cell, nat>, result: seq<Brick>, supporting: set<nat>)

  /** The state before the first brick. */
  const Empty := Stack(map[], [], {})

  /** Every index the state holds names a settled brick. */
  predicate Indexed(st: Stack) {
    (forall c :: c in st.brickmap ==> st.brickmap[c] < |st.result|) &&
    (forall j :: j in st.supporting ==> j < |st.result|)
  }

  /** `brickmap[y][x].map(|idx| result[idx].1.z).unwrap_or(0)`: the top of the last brick
      placed over the cell, 0 for the floor. */
  function Height(st: Stack, c: Cell): nat
    requires Indexed(st)
  {
    if c in st.brickmap then st.result[st.brickmap[c]].hi.z else 0
  }

  /** The `max()` of the heights over some cells: at least each of them, and one of them
      (0 for no cells). */
  function MaxHeight(st: Stack, cells: seq<Cell>): (h: nat)
    requires Indexed(st)
    ensures forall k :: 0 <= k < |cells| ==> Height(st, cells[k]) <= h
    ensures |cells| > 0 ==> exists k :: 0 <= k < |cells| && Height(st, cells[k]) == h
    ensures |cells| == 0 ==> h == 0
  {
    if |cells| == 0 then 0
    else
      var rest := MaxHeight(st, cells[1..]);
      assert forall k :: 1 <= k < |cells| ==> cells[k] == cells[1..][k - 1];
      if rest <= Height(st, cells[0]) then Height(st, cells[0]) else rest
  }

  /** The set `indices`: the bricks last placed over some of the cells whose top is at
      `level`. */
  function Indices(st: Stack, cells: seq<Cell>, level: nat): (ix: set<nat>)
    requires Indexed(st)
    ensures forall j :: j in ix ==> j < |st.result|
  {
    set c | c in cells && c in st.brickmap && st.result[st.brickmap[c]].hi.z == level :: st.brickmap[c]
  }

  /** `brickmap[y][x] = Some(i)` for every cell of a brick. */
  function Claim(brickmap: map<Cell, nat>, cells: seq<Cell>, i: nat): (m: map<Cell, nat>)
    ensures forall c :: c in m <==> c in brickmap || c in cells
    ensures forall c :: c in cells ==> m[c] == i
    ensures forall c :: c in brickmap && c !in cells ==> m[c] == brickmap[c]
  {
    brickmap + (map c | c in cells :: i)
  }

  /** The brick `p` is `b` let down: the same cells, the same height, not higher, and
      still above the floor. */
  predicate Lowered(b: Brick, p: Brick) {
    p.lo.x == b.lo.x && p.lo.y == b.lo.y && p.hi.x == b.hi.x && p.hi.y == b.hi.y &&
    1 <= p.lo.z <= b.lo.z && p.hi.z + b.lo.z == b.hi.z + p.lo.z
  }

  /** Each brick of `bricks` is let down to the brick at the same place in `settled`. */
  predicate AllLowered(bricks: seq<Brick>, settled: seq<Brick>) {
    |bricks| == |settled| && forall k :: 0 <= k < |bricks| ==> Lowered(bricks[k], settled[k])
  }

  /** The rest of a turn once the brick is let down: it is pushed onto `result`, takes
      over its cells in `brickmap`, and the one brick under it, if there is exactly one
      whose top is just below it, joins `supporting`. */
  function Push(st: Stack, cells: seq<Cell>, placed: Brick): (r: Stack)
    requires Indexed(st) && 1 <= placed.lo.z
    ensures Indexed(r) && r.result == st.result + [placed]
  {
    var indices := Indices(st, cells, placed.lo.z - 1);
    Stack(Claim(st.brickmap, cells, |st.result|), st.result + [placed],
      if |indices| == 1 then st.supporting + indices else st.supporting)
  }

  /** One turn of the loop of `settle`: the brick comes down to one above the highest top
      under it and is pushed. The `max().unwrap()` fails for a brick over no cells, and the `usize`
      subtractions `z1 - new_z` and `z2 - delta` fail below zero. */
  function Place(st: Stack, b: Brick): (r: Result<Stack>)
    requires Indexed(st)
    ensures r.Ok? <==> |Cells(b)| > 0 && MaxHeight(st, Cells(b)) < b.lo.z &&
                       b.lo.z <= b.hi.z + MaxHeight(st, Cells(b)) + 1
    ensures r.Ok? ==> Indexed(r.value) && |r.value.result| == |st.result| + 1
    ensures r.Ok? ==> r.value.result[..|st.result|] == st.result
    ensures r.Ok? ==> Lowered(b, r.value.result[|st.result|])
  {
    var cells := Cells(b);
    if |cells| == 0 then Err
    else
      var newZ := MaxHeight(st, cells) + 1;
      if b.lo.z < newZ then Err
      else
        var delta := b.lo.z - newZ;
        if b.hi.z < delta then Err
        else
          var placed := Brick(Cube(b.lo.x, b.lo.y, newZ), Cube(b.hi.x, b.hi.y, b.hi.z - delta));
          assert (st.result + [placed])[..|st.result|] == st.result;
          Ok(Push(st, cells, placed))
  }

  /** The loop of `settle` over the remaining bricks: the earlier results stay, and each
      brick is followed by itself let down. */
  function PlaceAll(st: Stack, bricks: seq<Brick>): (r: Result<Stack>)
    requires Indexed(st)
    ensures r.Ok? ==> Indexed(r.value) && |r.value.result| >= |st.result|
    ensures r.Ok? ==> r.value.result[..|st.result|] == st.result
    ensures r.Ok? ==> AllLowered(bricks, r.value.result[|st.result|..])
    decreases |bricks|
  {
    if |bricks| == 0 then
      assert st.result[..|st.result|] == st.result;
      assert st.result[|st.result|..] == [];
      Ok(st)
    else
      match Place(st, bricks[0])
      case Err => Err
      case Ok(next) =>
        match PlaceAll(next, bricks[1..])
        case Err => Err
        case Ok(last) =>
          PlaceAllStep(st.result, next.result, bricks, bricks[1..], last.result);
          Ok(last)
  }

  lemma PlaceAllStep(before: seq<Brick>, next: seq<Brick>, bricks: seq<Brick>, rest: seq<Brick>, after: seq<Brick>)
    requires |bricks| > 0
    requires rest == bricks[1..]
    requires |next| == |before| + 1
    requires next[..|before|] == before
    requires Lowered(bricks[0], next[|before|])
    requires |after| >= |next|
    requires after[..|next|] == next
    requires AllLowered(rest, after[|next|..])
    ensures after[..|before|] == before
    ensures AllLowered(bricks, after[|before|..])
  {
    var n := |before|;
    assert after[..n] == after[..n + 1][..n];
    assert after[n] == after[..n + 1][n];
    var tail := after[n..];
    forall k | 0 <= k < |bricks| ensures Lowered(bricks[k], tail[k]) {
      if k > 0 {
        assert bricks[k] == rest[k - 1];
        assert tail[k] == after[|next|..][k - 1];
      }
    }
  }

  lemma SupportingFits(st: Stack)
    requires Indexed(st)
    ensures |st.supporting| <= |st.result|
  {
    BelowCard(st.supporting, |st.result|);
  }

  /** `settle`: the bricks sorted and let down in turn, and the number of them that are
      safe to disintegrate, `result.len() - supporting_bricks.len()`. The `unwrap` of the
      largest `x` fails when there are no bricks. */
  function Settle(bricks: seq<Brick>): (r: Result<(seq<Brick>, nat)>)
    ensures |bricks| == 0 ==> r.Err?
    ensures r.Ok? ==> |r.value.0| == |bricks| && r.value.1 <= |bricks|
    ensures r.Ok? ==> AllLowered(Sort(bricks), r.value.0)
  {
    if |bricks| == 0 then Err
    else
      match PlaceAll(Empty, Sort(bricks))
      case Err => Err
      case Ok(st) =>
        SupportingFits(st);
        Ok((st.result, |st.result| - |st.supporting|))
  }

  // ---------------------------------------------------------------------------------
  // The reference: what a settled pile looks like, without the `brickmap`.

  /** The ranges of the brick run forwards. */
  predicate WellFormed(b: Brick) {
    b.lo.x <= b.hi.x && b.lo.y <= b.hi.y && b.lo.z <= b.hi.z
  }

  /** Two bricks stand over a common cell. */
  predicate Overlaps(a: Brick, b: Brick) {
    a.lo.x <= b.hi.x && b.lo.x <= a.hi.x && a.lo.y <= b.hi.y && b.lo.y <= a.hi.y
  }

  /** Bricks over a common cell overlap, and overlapping well-formed bricks have one:
      the larger of their low corners. */
  lemma CommonCell(a: Brick, b: Brick) returns (c: Cell)
    requires WellFormed(a) && WellFormed(b) && Overlaps(a, b)
    ensures Covers(a, c) && Covers(b, c)
  {
    c := Cell(if a.lo.x < b.lo.x then b.lo.x else a.lo.x, if a.lo.y < b.lo.y then b.lo.y else a.lo.y);
  }

  lemma CoversOverlap(a: Brick, b: Brick, c: Cell)
    requires Covers(a, c) && Covers(b, c)
    ensures Overlaps(a, b) && Overlaps(b, a)
  {
  }

  /** The height a brick comes to rest on when it falls onto `settled`: the highest top
      among the bricks it overlaps, 0 for the floor. */
  function Floor(settled: seq<Brick>, b: Brick): (h: nat)
    ensures forall j :: 0 <= j < |settled| && Overlaps(settled[j], b) ==> settled[j].hi.z <= h
    ensures h == 0 || exists j :: 0 <= j < |settled| && Overlaps(settled[j], b) && settled[j].hi.z == h
  {
    if |settled| == 0 then 0
    else
      var n := |settled| - 1;
      var rest := Floor(settled[..n], b);
      assert forall j :: 0 <= j < n ==> settled[..n][j] == settled[j];
      if Overlaps(settled[n], b) && rest < settled[n].hi.z then settled[n].hi.z else rest
  }

  /** Bricks that share a cell are stacked: the earlier one lies wholly below. */
  predicate Layered(settled: seq<Brick>) {
    forall i, j :: 0 <= i < j < |settled| && Overlaps(settled[i], settled[j]) ==> settled[i].hi.z < settled[j].lo.z
  }

  /** Every brick lies one above the highest top under it among the bricks before it. */
  predicate AtRest(settled: seq<Brick>) {
    forall i :: 0 <= i < |settled| ==> settled[i].lo.z == Floor(settled[..i], settled[i]) + 1
  }

  /** The bricks brick `i` lies on. */
  function Supporters(settled: seq<Brick>, i: nat): set<nat>
    requires i < |settled|
  {
    set j | 0 <= j < |settled| && j != i && Overlaps(settled[j], settled[i]) && settled[j].hi.z + 1 == settled[i].lo.z
  }

  /** The bricks that are the only support of some brick. */
  function SoleSupporters(settled: seq<Brick>): set<nat> {
    set j | 0 <= j < |settled| && exists i :: 0 <= i < |settled| && Supporters(settled, i) == {j}
  }

  /** Taking brick `j` away lets no other brick fall: each brick above the floor keeps
      another brick to lie on. */
  predicate Safe(settled: seq<Brick>, j: nat) {
    forall i :: 0 <= i < |settled| && i != j && 1 < settled[i].lo.z ==> Supporters(settled, i) - {j} != {}
  }

  /** All bricks of the pile are well-formed. */
  predicate AllWellFormed(settled: seq<Brick>) {
    forall j :: 0 <= j < |settled| ==> WellFormed(settled[j])
  }

  lemma SoleNotSafe(settled: seq<Brick>, i: nat, j: nat)
    requires AtRest(settled) && AllWellFormed(settled)
    requires i < |settled| && Supporters(settled, i) == {j}
    ensures !Safe(settled, j)
  {
    assert j in Supporters(settled, i);
    assert settled[j].lo.z == Floor(settled[..j], settled[j]) + 1;
    assert Supporters(settled, i) - {j} == {};
  }

  lemma SoleWitness(settled: seq<Brick>, i: nat, j: nat)
    requires i < |settled| && j < |settled| && Supporters(settled, i) == {j}
    ensures j in SoleSupporters(settled)
  {
  }

  lemma SingletonOf(s: set<nat>, k: nat, j: nat)
    requires k in s && s - {j} == {}
    ensures s == {j}
  {
    forall x | x in s ensures x == j {
      assert x !in s - {j};
    }
    assert k !in s - {j};
  }

  lemma NotSafeSole(settled: seq<Brick>, i: nat, j: nat)
    requires AtRest(settled)
    requires i < |settled| && j < |settled| && i != j && 1 < settled[i].lo.z
    requires Supporters(settled, i) - {j} == {}
    ensures j in SoleSupporters(settled)
  {
    var h := Floor(settled[..i], settled[i]);
    assert settled[i].lo.z == h + 1;
    hide AtRest;
    var k :| 0 <= k < i && Overlaps(settled[..i][k], settled[i]) && settled[..i][k].hi.z == h;
    assert settled[..i][k] == settled[k];
    assert k in Supporters(settled, i);
    SingletonOf(Supporters(settled, i), k, j);
    SoleWitness(settled, i, j);
  }

  /** In a pile at rest, a brick is safe to take away exactly when it is not the only
      support of another. */
  lemma SafeIffNotSole(settled: seq<Brick>, j: nat)
    requires AtRest(settled) && AllWellFormed(settled) && j < |settled|
    ensures Safe(settled, j) <==> j !in SoleSupporters(settled)
  {
    if j in SoleSupporters(settled) {
      var i :| 0 <= i < |settled| && Supporters(settled, i) == {j};
      SoleNotSafe(settled, i, j);
    }
    if !Safe(settled, j) {
      var i :| 0 <= i < |settled| && i != j && 1 < settled[i].lo.z && Supporters(settled, i) - {j} == {};
      NotSafeSole(settled, i, j);
    }
  }

  /** The bricks safe to take away from a pile at rest. */
  function SafeBricks(settled: seq<Brick>): set<nat> {
    set j | 0 <= j < |settled| && Safe(settled, j)
  }

  /** `result.len() - supporting_bricks.len()` counts the safe bricks when
      `supporting_bricks` holds the sole supporters. */
  lemma SafeCount(settled: seq<Brick>)
    requires AtRest(settled) && AllWellFormed(settled)
    ensures |SoleSupporters(settled)| <= |settled|
    ensures |SafeBricks(settled)| == |settled| - |SoleSupporters(settled)|
  {
    var n := |settled|;
    var sole := SoleSupporters(settled);
    forall j: nat ensures j in SafeBricks(settled) <==> j in Below(n) - sole {
      if j < n {
        SafeIffNotSole(settled, j);
      }
    }
    assert SafeBricks(settled) == Below(n) - sole;
    assert sole <= Below(n);
    BelowSize(n);
    assert Below(n) == (Below(n) - sole) + sole;
  }

  // ---------------------------------------------------------------------------------
  // What the loop keeps, for well-formed bricks.

  /** Each cell of the `brickmap` names a brick standing over it. */
  predicate MapCovers(st: Stack)
    requires Indexed(st)
  {
    forall c :: c in st.brickmap ==> Covers(st.result[st.brickmap[c]], c)
  }

  /** Each cell some settled brick stands over is in the `brickmap`, with that brick or
      a later one. */
  ghost predicate MapComplete(st: Stack) {
    forall j, c :: 0 <= j < |st.result| && Covers(st.result[j], c) ==> c in st.brickmap && j <= st.brickmap[c]
  }

  /** The `brickmap` names the topmost brick over each cell of a layered pile. */
  ghost predicate Core(st: Stack) {
    Indexed(st) && AllWellFormed(st.result) && MapCovers(st) && MapComplete(st) && Layered(st.result)
  }

  /** The invariant of the loop of `settle`: the settled bricks form a layered pile at
      rest, the `brickmap` names the topmost brick over each cell, and
      `supporting_bricks` holds the sole supporters. */
  ghost predicate Inv(st: Stack) {
    Core(st) && AtRest(st.result) && st.supporting == SoleSupporters(st.result)
  }

  lemma InvElim(st: Stack)
    requires Inv(st)
    ensures Core(st) && Indexed(st) && AllWellFormed(st.result)
    ensures AtRest(st.result) && st.supporting == SoleSupporters(st.result)
  {
  }

  lemma EmptyInv()
    ensures Inv(Empty)
  {
  }

  /** The `brickmap` entry of a cell is the highest brick over it. */
  lemma TopAt(st: Stack, j: nat, c: Cell)
    requires Core(st)
    requires j < |st.result| && Covers(st.result[j], c)
    ensures c in st.brickmap && st.result[j].hi.z <= Height(st, c)
    ensures j != st.brickmap[c] ==> st.result[j].hi.z < Height(st, c)
  {
    var m := st.brickmap[c];
    assert Covers(st.result[m], c);
    CoversOverlap(st.result[j], st.result[m], c);
    assert WellFormed(st.result[m]);
  }

  lemma InCells(cells: seq<Cell>, c: Cell) returns (k: nat)
    requires c in cells
    ensures k < |cells| && cells[k] == c
  {
    k :| 0 <= k < |cells| && cells[k] == c;
  }

  /** The highest `brickmap` entry under a well-formed brick is the highest top of the
      settled bricks it overlaps. */
  lemma MaxHeightIsFloor(st: Stack, b: Brick)
    requires Core(st)
    requires WellFormed(b)
    ensures MaxHeight(st, Cells(b)) == Floor(st.result, b)
  {
    var cells := Cells(b);
    CellsCovered(b, Cell(b.lo.x, b.lo.y));
    var h := MaxHeight(st, cells);
    var f := Floor(st.result, b);
    var k :| 0 <= k < |cells| && Height(st, cells[k]) == h;
    CellsCovered(b, cells[k]);
    if cells[k] in st.brickmap {
      CoversOverlap(st.result[st.brickmap[cells[k]]], b, cells[k]);
    }
    assert h <= f;
    if f > 0 {
      var j :| 0 <= j < |st.result| && Overlaps(st.result[j], b) && st.result[j].hi.z == f;
      assert WellFormed(st.result[j]);
      var c := CommonCell(st.result[j], b);
      CellsCovered(b, c);
      TopAt(st, j, c);
      var k2 := InCells(cells, c);
    }
  }

  /** The brick a successful `Place` pushes. */
  predicate Placed(st: Stack, b: Brick, newZ: nat, p: Brick)
    requires Indexed(st)
  {
    |Cells(b)| > 0 && newZ == MaxHeight(st, Cells(b)) + 1 && newZ <= b.lo.z && b.lo.z - newZ <= b.hi.z &&
    p == Brick(Cube(b.lo.x, b.lo.y, newZ), Cube(b.hi.x, b.hi.y, b.hi.z - (b.lo.z - newZ)))
  }

  lemma PlaceParts(st: Stack, b: Brick) returns (newZ: nat, p: Brick)
    requires Indexed(st) && Place(st, b).Ok?
    ensures Placed(st, b, newZ, p)
    ensures Place(st, b).value.result == st.result + [p]
  {
    newZ, p := PlaceShape(st, b);
  }

  lemma PlaceShape(st: Stack, b: Brick) returns (newZ: nat, p: Brick)
    requires Indexed(st) && Place(st, b).Ok?
    ensures Placed(st, b, newZ, p)
    ensures Place(st, b) == Ok(Push(st, Cells(b), p))
  {
    newZ := MaxHeight(st, Cells(b)) + 1;
    p := Brick(Cube(b.lo.x, b.lo.y, newZ), Cube(b.hi.x, b.hi.y, b.hi.z - (b.lo.z - newZ)));
  }

  lemma PlaceClaims(st: Stack, b: Brick)
    requires Indexed(st) && Place(st, b).Ok?
    ensures Place(st, b).value.brickmap == Claim(st.brickmap, Cells(b), |st.result|)
  {
    var newZ, p := PlaceShape(st, b);
    assert p.lo.z >= 1;
    PushParts(st, Cells(b), p);
    hide *;
  }

  lemma PlaceSupport(st: Stack, b: Brick) returns (p: Brick, ix: set<nat>)
    requires Indexed(st) && Place(st, b).Ok?
    ensures Place(st, b).value.result == st.result + [p] && 1 <= p.lo.z
    ensures ix == Indices(st, Cells(b), p.lo.z - 1)
    ensures Place(st, b).value.supporting == if |ix| == 1 then st.supporting + ix else st.supporting
  {
    var newZ;
    newZ, p := PlaceShape(st, b);
    assert p.lo.z == newZ >= 1;
    hide *;
    PushParts(st, Cells(b), p);
    ix := Indices(st, Cells(b), p.lo.z - 1);
  }

  lemma PushParts(st: Stack, cells: seq<Cell>, placed: Brick)
    requires Indexed(st) && 1 <= placed.lo.z
    ensures var ix := Indices(st, cells, placed.lo.z - 1);
      Push(st, cells, placed).supporting == if |ix| == 1 then st.supporting + ix else st.supporting
    ensures Push(st, cells, placed).brickmap == Claim(st.brickmap, cells, |st.result|)
  {
  }

  lemma PlaceWellFormed(st: Stack, b: Brick)
    requires Indexed(st) && AllWellFormed(st.result) && WellFormed(b) && Place(st, b).Ok?
    ensures AllWellFormed(Place(st, b).value.result)
  {
    var newZ, p := PlaceParts(st, b);
    var r := Place(st, b).value.result;
    assert r == st.result + [p];
    hide Place;
    forall j | 0 <= j < |r| ensures WellFormed(r[j]) {
      if j < |st.result| {
        assert r[j] == st.result[j];
      }
    }
  }

  lemma PlaceMap(st: Stack, b: Brick)
    requires Indexed(st) && MapCovers(st) && MapComplete(st) && Place(st, b).Ok?
    ensures MapCovers(Place(st, b).value) && MapComplete(Place(st, b).value)
  {
    var newZ, p := PlaceParts(st, b);
    PlaceClaims(st, b);
    var next := Place(st, b).value;
    var n := |st.result|;
    assert next.brickmap == Claim(st.brickmap, Cells(b), n) && next.result == st.result + [p];
    assert Indexed(next);
    hide Place;
    forall c | c in next.brickmap ensures Covers(next.result[next.brickmap[c]], c) {
      CellsCovered(b, c);
      if c !in Cells(b) {
        assert next.result[st.brickmap[c]] == st.result[st.brickmap[c]];
      }
    }
    forall j, c | 0 <= j < |next.result| && Covers(next.result[j], c)
      ensures c in next.brickmap && j <= next.brickmap[c]
    {
      CellsCovered(b, c);
      if j < n {
        assert next.result[j] == st.result[j];
      }
    }
  }

  lemma PlaceLayered(st: Stack, b: Brick)
    requires Core(st)
    requires WellFormed(b) && Place(st, b).Ok?
    ensures Layered(Place(st, b).value.result)
  {
    var newZ, p := PlaceParts(st, b);
    MaxHeightIsFloor(st, b);
    var r := Place(st, b).value.result;
    var n := |st.result|;
    assert r == st.result + [p];
    hide Place;
    forall i, j | 0 <= i < j < |r| && Overlaps(r[i], r[j]) ensures r[i].hi.z < r[j].lo.z {
      assert r[i] == st.result[i];
      if j < n {
        assert r[j] == st.result[j];
      } else {
        assert Overlaps(st.result[i], b);
      }
    }
  }

  /** The floor under a brick depends only on the cells it stands over. */
  lemma {:induction false} FloorSameCells(settled: seq<Brick>, a: Brick, b: Brick)
    requires a.lo.x == b.lo.x && a.hi.x == b.hi.x && a.lo.y == b.lo.y && a.hi.y == b.hi.y
    ensures Floor(settled, a) == Floor(settled, b)
  {
    if |settled| > 0 {
      FloorSameCells(settled[..|settled| - 1], a, b);
    }
  }

  lemma PlaceAtRest(st: Stack, b: Brick)
    requires Core(st)
    requires AtRest(st.result) && WellFormed(b) && Place(st, b).Ok?
    ensures AtRest(Place(st, b).value.result)
  {
    var newZ, p := PlaceParts(st, b);
    MaxHeightIsFloor(st, b);
    FloorSameCells(st.result, p, b);
    var r := Place(st, b).value.result;
    var n := |st.result|;
    assert r == st.result + [p];
    hide Place;
    assert r[..n] == st.result;
    forall i | 0 <= i < |r| ensures r[i].lo.z == Floor(r[..i], r[i]) + 1 {
      if i < n {
        assert r[..i] == st.result[..i] && r[i] == st.result[i];
      }
    }
  }

  /** A brick put on top of a layered pile supports none of the bricks under it. */
  lemma SupportersPrefix(settled: seq<Brick>, p: Brick, i: nat)
    requires Layered(settled + [p]) && AllWellFormed(settled + [p]) && i < |settled|
    ensures Supporters(settled + [p], i) == Supporters(settled, i)
  {
    var r := settled + [p];
    var n := |settled|;
    assert r[i] == settled[i] && r[n] == p;
    assert WellFormed(r[i]) && WellFormed(r[n]);
    assert Overlaps(r[n], r[i]) ==> r[i].hi.z < r[n].lo.z;
    hide Layered, AllWellFormed;
    forall j ensures j in Supporters(r, i) <==> j in Supporters(settled, i) {
      if 0 <= j < n {
        assert r[j] == settled[j];
      }
    }
  }

  lemma LastSupporters(st: Stack, b: Brick)
    requires Core(st)
    requires WellFormed(b) && Place(st, b).Ok?
    ensures var r := Place(st, b).value.result;
      |r| == |st.result| + 1 && 1 <= r[|st.result|].lo.z &&
      Supporters(r, |st.result|) == Indices(st, Cells(b), r[|st.result|].lo.z - 1)
  {
    var newZ, p := PlaceParts(st, b);
    var r := Place(st, b).value.result;
    var n := |st.result|;
    assert r == st.result + [p];
    hide Place;
    var cells := Cells(b);
    var indices := Indices(st, cells, newZ - 1);
    forall j | j in Supporters(r, n) ensures j in indices {
      assert r[j] == st.result[j];
      assert WellFormed(st.result[j]);
      var c := CommonCell(st.result[j], b);
      CellsCovered(b, c);
      TopAt(st, j, c);
      var k := InCells(cells, c);
      assert Height(st, c) <= newZ - 1;
      assert st.brickmap[c] == j;
    }
    forall j | j in indices ensures j in Supporters(r, n) {
      var c :| c in cells && c in st.brickmap && st.result[st.brickmap[c]].hi.z == newZ - 1 && st.brickmap[c] == j;
      CellsCovered(b, c);
      assert Covers(st.result[j], c);
      assert r[j] == st.result[j];
      CoversOverlap(r[j], p, c);
    }
  }

  /** The sole supporters of a pile with one more brick on top: the earlier ones, and
      the one brick under the new brick if there is exactly one. */
  lemma SoleStep(settled: seq<Brick>, p: Brick)
    requires Layered(settled + [p]) && AllWellFormed(settled + [p])
    ensures var r := settled + [p];
      var last := Supporters(r, |settled|);
      SoleSupporters(r) == SoleSupporters(settled) + (if |last| == 1 then last else {})
  {
    var r := settled + [p];
    var n := |settled|;
    var last := Supporters(r, n);
    forall i | 0 <= i < n ensures Supporters(r, i) == Supporters(settled, i) {
      SupportersPrefix(settled, p, i);
    }
    hide Layered, AllWellFormed;
    forall j ensures j in SoleSupporters(r) <==> j in SoleSupporters(settled) + (if |last| == 1 then last else {}) {
      if j in SoleSupporters(r) {
        var i :| 0 <= i < |r| && Supporters(r, i) == {j};
        assert j in Supporters(r, i);
        if i < n {
          assert j in Supporters(settled, i);
          SoleWitness(settled, i, j);
        }
      }
      if j in SoleSupporters(settled) {
        var i :| 0 <= i < n && Supporters(settled, i) == {j};
        SoleWitness(r, i, j);
      }
      if |last| == 1 && j in last {
        Singleton(last, j);
        SoleWitness(r, n, j);
      }
    }
  }

  lemma SupportingParts(st: Stack, b: Brick) returns (p: Brick, ix: set<nat>)
    requires Inv(st) && WellFormed(b) && Place(st, b).Ok?
    ensures Place(st, b).value.result == st.result + [p]
    ensures Place(st, b).value.supporting == if |ix| == 1 then st.supporting + ix else st.supporting
    ensures st.supporting == SoleSupporters(st.result)
    ensures Supporters(st.result + [p], |st.result|) == ix
    ensures Layered(st.result + [p]) && AllWellFormed(st.result + [p])
  {
    InvElim(st);
    hide *;
    p, ix := PlaceSupport(st, b);
    PlaceLayered(st, b);
    PlaceWellFormed(st, b);
    LastSupporters(st, b);
    assert (st.result + [p])[|st.result|] == p;
  }

  lemma PlaceSupporting(st: Stack, b: Brick)
    requires Inv(st) && WellFormed(b) && Place(st, b).Ok?
    ensures Place(st, b).value.supporting == SoleSupporters(Place(st, b).value.result)
  {
    var p, ix := SupportingParts(st, b);
    hide *;
    SoleStep(st.result, p);
  }

  /** One turn of the loop keeps the invariant for a well-formed brick. */
  lemma PlaceInv(st: Stack, b: Brick)
    requires Inv(st) && WellFormed(b) && Place(st, b).Ok?
    ensures Inv(Place(st, b).value)
  {
    PlaceWellFormed(st, b);
    PlaceMap(st, b);
    PlaceLayered(st, b);
    PlaceAtRest(st, b);
    PlaceSupporting(st, b);
  }

  /** Nothing floats in a pile at rest: each brick lies on the floor or on another. */
  lemma Grounded(settled: seq<Brick>, i: nat)
    requires AtRest(settled) && i < |settled|
    ensures settled[i].lo.z == 1 || Supporters(settled, i) != {}
  {
    var h := Floor(settled[..i], settled[i]);
    assert settled[i].lo.z == h + 1;
    hide AtRest;
    if h > 0 {
      var k :| 0 <= k < i && Overlaps(settled[..i][k], settled[i]) && settled[..i][k].hi.z == h;
      assert settled[..i][k] == settled[k];
      assert k in Supporters(settled, i);
    }
  }

  // ---------------------------------------------------------------------------------
  // Correctness of `settle` on a snapshot the puzzle can give.

  /** Two bricks share no cube. */
  predicate Apart(a: Brick, b: Brick) {
    !Overlaps(a, b) || a.hi.z < b.lo.z || b.hi.z < a.lo.z
  }

  /** A snapshot of falling bricks: each listed once, well-formed and above the ground,
      and no two sharing a cube. */
  predicate Valid(bricks: seq<Brick>) {
    Distinct(bricks) &&
    (forall b :: b in bricks ==> WellFormed(b) && 1 <= b.lo.z) &&
    (forall a, b :: a in bricks && b in bricks && a != b ==> Apart(a, b))
  }

  lemma SortValid(bricks: seq<Brick>)
    requires Valid(bricks)
    ensures Valid(Sort(bricks)) && Sorted(Sort(bricks))
  {
    SortSpec(bricks);
    SortDistinct(bricks);
    assert forall b :: b in Sort(bricks) <==> b in bricks by {
      forall b ensures b in Sort(bricks) <==> b in bricks {
        assert b in Sort(bricks) <==> b in multiset(Sort(bricks));
        assert b in bricks <==> b in multiset(bricks);
      }
    }
  }

  /** In a sorted snapshot, everything settled before a brick and under it ends below
      its lower end. */
  lemma FloorBelow(settled: seq<Brick>, done: seq<Brick>, todo: seq<Brick>)
    requires AllLowered(done, settled) && |todo| > 0
    requires Valid(done + todo) && Sorted(done + todo)
    ensures Floor(settled, todo[0]) < todo[0].lo.z
  {
    var all := done + todo;
    var n := |done|;
    var b := todo[0];
    assert all[n] == b;
    assert b in all;
    var f := Floor(settled, b);
    if f > 0 {
      var j :| 0 <= j < |settled| && Overlaps(settled[j], b) && settled[j].hi.z == f;
      assert Lowered(done[j], settled[j]);
      assert all[j] == done[j];
      assert all[j] in all;
      assert all[j] != all[n];
      SortedByBottom(all, j, n);
      assert Apart(done[j], b);
    }
  }

  lemma PlaceOk(st: Stack, done: seq<Brick>, todo: seq<Brick>)
    requires Inv(st) && AllLowered(done, st.result) && |todo| > 0
    requires Valid(done + todo) && Sorted(done + todo)
    ensures WellFormed(todo[0]) && Place(st, todo[0]).Ok?
  {
    var b := todo[0];
    assert (done + todo)[|done|] == b;
    assert b in done + todo;
    assert WellFormed(b) && 1 <= b.lo.z;
    InvElim(st);
    FloorBelow(st.result, done, todo);
    hide *;
    MaxHeightIsFloor(st, b);
    CellsCovered(b, Cell(b.lo.x, b.lo.y));
  }

  lemma LoweredStep(done: seq<Brick>, settled: seq<Brick>, b: Brick, r: seq<Brick>)
    requires AllLowered(done, settled)
    requires |r| == |settled| + 1 && r[..|settled|] == settled && Lowered(b, r[|settled|])
    ensures AllLowered(done + [b], r)
  {
    assert r == settled + [r[|settled|]];
  }

  lemma PlaceValid(st: Stack, done: seq<Brick>, todo: seq<Brick>)
    requires Inv(st) && AllLowered(done, st.result) && |todo| > 0
    requires Valid(done + todo) && Sorted(done + todo)
    ensures Place(st, todo[0]).Ok?
    ensures Inv(Place(st, todo[0]).value)
    ensures AllLowered(done + [todo[0]], Place(st, todo[0]).value.result)
  {
    PlaceOk(st, done, todo);
    InvElim(st);
    hide *;
    PlaceInv(st, todo[0]);
    LoweredStep(done, st.result, todo[0], Place(st, todo[0]).value.result);
  }

  lemma PlaceAllUnfold(st: Stack, todo: seq<Brick>)
    requires Indexed(st) && |todo| > 0 && Place(st, todo[0]).Ok?
    ensures PlaceAll(st, todo) == PlaceAll(Place(st, todo[0]).value, todo[1..])
  {
  }

  /** On a sorted snapshot the loop never fails and keeps its invariant to the end. */
  lemma {:induction false} PlaceAllValid(st: Stack, done: seq<Brick>, todo: seq<Brick>)
    requires Inv(st) && AllLowered(done, st.result)
    requires Valid(done + todo) && Sorted(done + todo)
    ensures PlaceAll(st, todo).Ok? && Inv(PlaceAll(st, todo).value)
    decreases |todo|
  {
    if |todo| > 0 {
      assert done + [todo[0]] + todo[1..] == done + todo;
      PlaceValid(st, done, todo);
      InvElim(st);
      PlaceAllUnfold(st, todo);
      var next := Place(st, todo[0]).value;
      hide *;
      PlaceAllValid(next, done + [todo[0]], todo[1..]);
    }
  }

  /** `settle` on a snapshot: it does not fail; the bricks it returns are the sorted
      bricks let down into a layered pile at rest; and the count it returns is the
      number of bricks that can be taken away without another brick falling. */
  lemma SettleCorrect(bricks: seq<Brick>)
    requires |bricks| > 0 && Valid(bricks)
    ensures Settle(bricks).Ok?
    ensures var (settled, safe) := Settle(bricks).value;
      AllLowered(Sort(bricks), settled) && Layered(settled) && AtRest(settled) &&
      safe == |SafeBricks(settled)|
  {
    var sorted := Sort(bricks);
    SortValid(bricks);
    EmptyInv();
    assert [] + sorted == sorted;
    assert AllLowered([], Empty.result);
    hide *;
    PlaceAllValid(Empty, [], sorted);
    var st := PlaceAll(Empty, sorted).value;
    InvElim(st);
    SafeCount(st.result);
    SettleIs(bricks);
  }

  lemma SettleIs(bricks: seq<Brick>)
    requires |bricks| > 0 && PlaceAll(Empty, Sort(bricks)).Ok?
    ensures var st := PlaceAll(Empty, Sort(bricks)).value;
      |st.supporting| <= |st.result| &&
      Settle(bricks) == Ok((st.result, |st.result| - |st.supporting|))
  {
    hide PlaceAll, Sort, Place;
    SupportingFits(PlaceAll(Empty, Sort(bricks)).value);
  }

  // ---------------------------------------------------------------------------------
  // Parsing and rendering.

  /** `parse::<usize>()` of one coordinate. */
  function ParseCoordinate(s: string): Result<nat> {
    OkOr(ParseNat(s))
  }

  /** `Cube::from_str`: the comma-separated fields all parsed, then exactly three of them
      taken as `x`, `y`, `z`. */
  function ParseCube(s: string): (r: Result<Cube>)
    ensures r.Ok? ==> |Split(s, ",")| == 3
    ensures r.Ok? ==> forall k :: 0 <= k < 3 ==> ParseNat(Split(s, ",")[k]).Some?
  {
    var values :- MapAll(Split(s, ","), ParseCoordinate);
    if |values| == 3 then Ok(Cube(values[0], values[1], values[2])) else Err
  }

  /** `Brick::from_str`: the cubes before and after the first `~`. */
  function ParseBrick(s: string): (r: Result<Brick>)
    ensures r.Ok? ==> Contains(s, "~")
  {
    match SplitOnce(s, "~")
    case None => Err
    case Some((first, second)) =>
      var lo :- ParseCube(first);
      var hi :- ParseCube(second);
      Ok(Brick(lo, hi))
  }

  /** `parse_input`: a brick per line; the `expect` fails on the first bad line. */
  function ParseInput(input: string): (r: Result<seq<Brick>>)
    ensures r.Ok? <==> forall k :: 0 <= k < |Lines(input)| ==> ParseBrick(Lines(input)[k]).Ok?
    ensures r.Ok? ==> |r.value| == |Lines(input)|
  {
    MapAll(Lines(input), ParseBrick)
  }

  /** A cube as the puzzle writes it, `x,y,z`. */
  function RenderCube(c: Cube): string {
    Join([NatToString(c.x), NatToString(c.y), NatToString(c.z)], ",")
  }

  /** A brick as the puzzle writes it, `x,y,z~x,y,z`. */
  function RenderBrick(b: Brick): string {
    RenderCube(b.lo) + "~" + RenderCube(b.hi)
  }

  /** A snapshot as the puzzle writes it, a brick per line. */
  function RenderInput(bricks: seq<Brick>): string
    requires |bricks| > 0
  {
    Join(seq(|bricks|, k requires 0 <= k < |bricks| => RenderBrick(bricks[k])), "\n")
  }

  lemma JoinThree(a: string, b: string, c: string)
    ensures Join([a, b, c], ",") == a + "," + b + "," + c
  {
    assert [a, b, c][1..] == [b, c] && [b, c][1..] == [c];
    assert Join([b, c], ",") == b + "," + c;
  }

  lemma DigitsOnly(n: nat, c: char)
    requires !IsDigit(c)
    ensures c !in NatToString(n)
  {
    assert AllDigits(NatToString(n));
  }

  lemma RenderCubeChars(c: Cube, ch: char)
    requires !IsDigit(ch) && ch != ','
    ensures ch !in RenderCube(c)
  {
    JoinThree(NatToString(c.x), NatToString(c.y), NatToString(c.z));
    DigitsOnly(c.x, ch);
    DigitsOnly(c.y, ch);
    DigitsOnly(c.z, ch);
  }

  /** Parsing a rendered cube gives the cube back. */
  lemma ParseCubeRendered(c: Cube)
    ensures ParseCube(RenderCube(c)) == Ok(c)
  {
    var parts := [NatToString(c.x), NatToString(c.y), NatToString(c.z)];
    DigitsOnly(c.x, ',');
    DigitsOnly(c.y, ',');
    DigitsOnly(c.z, ',');
    SplitJoinChar(parts, ',');
    ParseNatToString(c.x);
    ParseNatToString(c.y);
    ParseNatToString(c.z);
    var values := MapAll(parts, ParseCoordinate);
    assert values.Ok?;
    assert Ok(values.value[0]) == Ok(c.x) && Ok(values.value[1]) == Ok(c.y) && Ok(values.value[2]) == Ok(c.z);
  }

  /** Parsing a rendered brick gives the brick back. */
  lemma ParseBrickRendered(b: Brick)
    ensures ParseBrick(RenderBrick(b)) == Ok(b)
  {
    RenderCubeChars(b.lo, '~');
    SplitOnceAfter(RenderCube(b.lo), "~", RenderCube(b.hi));
    ParseCubeRendered(b.lo);
    ParseCubeRendered(b.hi);
  }

  lemma RenderedLines(bricks: seq<Brick>) returns (lines: seq<string>)
    requires |bricks| > 0
    ensures |lines| == |bricks| && |lines[|lines| - 1]| > 0 && RenderInput(bricks) == Join(lines, "\n")
    ensures forall k :: 0 <= k < |lines| ==> '\n' !in lines[k] && ParseBrick(lines[k]) == Ok(bricks[k])
  {
    lines := seq(|bricks|, k requires 0 <= k < |bricks| => RenderBrick(bricks[k]));
    forall k | 0 <= k < |lines| ensures '\n' !in lines[k] && ParseBrick(lines[k]) == Ok(bricks[k]) {
      RenderCubeChars(bricks[k].lo, '\n');
      RenderCubeChars(bricks[k].hi, '\n');
      ParseBrickRendered(bricks[k]);
    }
  }

  lemma ParseLinesOf(input: string, lines: seq<string>)
    requires Lines(input) == lines
    ensures ParseInput(input) == MapAll(lines, ParseBrick)
  {
  }

  /** Parsing a rendered snapshot gives the snapshot back. */
  lemma ParseInputRendered(bricks: seq<Brick>)
    requires |bricks| > 0
    ensures ParseInput(RenderInput(bricks)) == Ok(bricks)
  {
    var lines := RenderedLines(bricks);
    LinesJoin(lines);
    hide *;
    ParseLinesOf(RenderInput(bricks), lines);
    var r := MapAll(lines, ParseBrick);
    assert forall k :: 0 <= k < |bricks| ==> Ok(r.value[k]) == Ok(bricks[k]);
    assert r.value == bricks;
  }
}
