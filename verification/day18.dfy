/** Day 18: a dig plan of straight trench segments. The lagoon's area comes from the
    shoelace formula over the corner points plus a correction for the trench cells on
    the boundary. Part one reads direction and distance; part two decodes them from the
    hexadecimal colour. */
module Day18 {
  import opened Wrappers
  import opened Text
  import Arith

  datatype Direction = Up | Down | Left | Right

  datatype Point = Point(x: int, y: int)

  /** `Direction::move_from`. */
  function MoveFrom(d: Direction, p: Point, distance: int): (q: Point) {
    match d
    case Up => Point(p.x, p.y - distance)
    case Down => Point(p.x, p.y + distance)
    case Left => Point(p.x - distance, p.y)
    case Right => Point(p.x + distance, p.y)
  }

  /** A move changes exactly one coordinate, by the distance, vertically for `Up` and
      `Down` and horizontally otherwise. */
  lemma MoveFromSpec(d: Direction, p: Point, distance: int)
    ensures var q := MoveFrom(d, p, distance);
            && (d == Up || d == Down ==> q.x == p.x && (q.y - p.y == distance || p.y - q.y == distance))
            && (d == Left || d == Right ==> q.y == p.y && (q.x - p.x == distance || p.x - q.x == distance))
            && (d == Down || d == Right ==> q.x + q.y == p.x + p.y + distance)
            && (d == Up || d == Left ==> q.x + q.y == p.x + p.y - distance)
  {
  }

  /** `Direction::from_str`: exactly one of the letters `U`, `D`, `L`, `R`. */
  function ParseDirection(s: string): (r: Result<Direction>)
    ensures r.Ok? <==> s == "U" || s == "D" || s == "L" || s == "R"
  {
    if |s| == 1 then
      match s[0]
      case 'U' => Ok(Up)
      case 'D' => Ok(Down)
      case 'L' => Ok(Left)
      case 'R' => Ok(Right)
      case _ => Err
    else Err
  }

  function DirectionText(d: Direction): string {
    match d
    case Up => "U"
    case Down => "D"
    case Left => "L"
    case Right => "R"
  }

  /** Every direction reads back from its letter. */
  lemma ParseDirectionText(d: Direction)
    ensures ParseDirection(DirectionText(d)) == Ok(d)
  {
  }

  const LowerHex := "0123456789abcdef"
  const UpperHex := "0123456789ABCDEF"

  /** `char::to_digit(16)`. */
  function HexDigit(c: char): (r: Option<nat>)
    ensures r.Some? ==> r.value < 16
    ensures r.Some? <==> IsDigit(c) || 'a' <= c <= 'f' || 'A' <= c <= 'F'
  {
    if IsDigit(c) then Some(DigitValue(c))
    else if 'a' <= c <= 'f' then Some(c as int - 'a' as int + 10)
    else if 'A' <= c <= 'F' then Some(c as int - 'A' as int + 10)
    else None
  }

  /** A hexadecimal digit is worth its place in `0-9a-f`, in either case. */
  lemma HexDigitPlace(c: char)
    ensures HexDigit(c).Some? <==> c in LowerHex || c in UpperHex
    ensures HexDigit(c).Some? ==> LowerHex[HexDigit(c).value] == c || UpperHex[HexDigit(c).value] == c
  {
  }

  /** The fold of `Colour::from_str` over the hexadecimal digits, most significant first. */
  function HexValue(s: string): (r: Option<nat>)
    ensures r.Some? ==> r.value < Pow16(|s|)
  {
    if |s| == 0 then Some(0)
    else match (HexValue(s[..|s| - 1]), HexDigit(s[|s| - 1]))
      case (Some(a), Some(d)) => Some(a * 16 + d)
      case _ => None
  }

  /** The fold reads a value exactly when every character is a hexadecimal digit. */
  lemma {:induction false} HexValueDefined(s: string)
    ensures HexValue(s).Some? <==> forall k :: 0 <= k < |s| ==> HexDigit(s[k]).Some?
  {
    if |s| > 0 {
      var t := s[..|s| - 1];
      HexValueDefined(t);
      assert forall k :: 0 <= k < |t| ==> t[k] == s[k];
    }
  }

  /** The leading digit `c` of `c s` is worth `c * 16^|s|`: the fold gives each digit its
      positional weight. */
  lemma {:induction false} HexValueCons(c: char, s: string)
    requires HexDigit(c).Some? && HexValue(s).Some?
    ensures HexValue([c] + s) == Some(HexDigit(c).value * Pow16(|s|) + HexValue(s).value)
  {
    if |s| == 0 {
      assert ([c] + s)[..0] == [];
      assert HexValue([c] + s) == Some(HexDigit(c).value);
    } else {
      var u, t, last := [c] + s, s[..|s| - 1], s[|s| - 1];
      assert u[..|u| - 1] == [c] + t;
      assert u[|u| - 1] == last;
      var e := HexDigit(last).value;
      var a: int := HexValue(t).value;
      assert HexValue(s).value == a * 16 + e;
      HexValueCons(c, t);
      var d: int, p: int := HexDigit(c).value, Pow16(|t|);
      assert HexValue(u).value == (d * p + a) * 16 + e;
      assert Pow16(|s|) == 16 * p;
      ShiftDigit(d, p, a, e);
    }
  }

  lemma ShiftDigit(d: int, p: int, a: int, e: int)
    ensures (d * p + a) * 16 + e == d * (16 * p) + (a * 16 + e)
  {
  }

  function Pow16(n: nat): (p: nat)
    ensures p >= 1
  {
    if n == 0 then 1 else 16 * Pow16(n - 1)
  }

  datatype Colour = Colour(r: nat, g: nat, b: nat)

  /** The 24-bit value the colour was read from. */
  function ColourValue(c: Colour): nat {
    c.r * 65536 + c.g * 256 + c.b
  }

  /** `Colour::from_str`: `"(#rrggbb)"`, nine characters, six hexadecimal digits. */
  function ParseColour(s: string): (r: Result<Colour>)
    ensures r.Ok? ==> |s| == 9 && s[..2] == "(#" && s[8] == ')'
    ensures r.Ok? ==> HexValue(s[2..8]) == Some(ColourValue(r.value))
    ensures r.Ok? ==> r.value.r < 256 && r.value.g < 256 && r.value.b < 256
  {
    if |s| != 9 || s[..2] != "(#" || s[|s| - 1] != ')' then Err
    else match HexValue(s[2..8])
      case None => Err
      case Some(v) =>
        assert Pow16(6) == 16777216;
        var c := Colour(v / 65536, v / 256 % 256, v % 256);
        SplitBytes(v);
        Ok(c)
  }

  /** Splitting a 24-bit value into three bytes and gluing them back is the identity. */
  lemma SplitBytes(v: nat)
    requires v < 16777216
    ensures (v / 65536) * 65536 + (v / 256 % 256) * 256 + v % 256 == v
    ensures v / 65536 < 256
  {
    var hi, mid, lo := v / 65536, v / 256 % 256, v % 256;
    assert v == (v / 256) * 256 + lo;
    assert v / 256 == (v / 256 / 256) * 256 + mid;
    assert v / 256 / 256 == hi;
  }

  /** `Colour::distance`: the first five hexadecimal digits. */
  function ColourDistance(c: Colour): nat {
    ColourValue(c) / 16
  }

  /** `Colour::direction`: the last hexadecimal digit, `0..=3` meaning right, down, left,
      up; anything else panics (`None`). */
  function ColourDirection(c: Colour): (r: Option<Direction>)
    ensures r.Some? <==> c.b % 16 < 4
  {
    match c.b % 16
    case 0 => Some(Right)
    case 1 => Some(Down)
    case 2 => Some(Left)
    case 3 => Some(Up)
    case _ => None
  }

  /** Distance and direction together are the whole value: sixteen times the one plus the
      digit of the other. */
  lemma ColourDecodes(c: Colour)
    ensures ColourValue(c) == 16 * ColourDistance(c) + c.b % 16
  {
    var v := ColourValue(c);
    assert v == (c.r * 4096 + c.g * 16) * 16 + c.b;
    assert v % 16 == c.b % 16;
  }

  datatype PlanPart = PlanPart(direction: Direction, distance: int, rgb: Colour)

  /** `PlanPart::from_str`: exactly three space-separated fields. */
  function ParsePlanPart(s: string): (r: Result<PlanPart>)
    ensures r.Ok? ==> |Split(s, " ")| == 3
    ensures r.Ok? ==> ParseDirection(Split(s, " ")[0]) == Ok(r.value.direction)
    ensures r.Ok? ==> ParseInt(Split(s, " ")[1]) == Some(r.value.distance)
    ensures r.Ok? ==> ParseColour(Split(s, " ")[2]) == Ok(r.value.rgb)
  {
    var fields := Split(s, " ");
    if |fields| != 3 then Err
    else match (ParseDirection(fields[0]), ParseInt(fields[1]), ParseColour(fields[2]))
      case (Ok(d), Some(n), Ok(c)) => Ok(PlanPart(d, n, c))
      case _ => Err
  }

  /** `parse_input`: one plan part per line; a bad line panics (`None`). */
  function ParseInput(input: string): Option<seq<PlanPart>> {
    ParseLines(Lines(input))
  }

  function ParseLines(lines: seq<string>): (r: Option<seq<PlanPart>>)
    ensures r.Some? ==> |r.value| == |lines|
    ensures r.Some? ==> forall k :: 0 <= k < |lines| ==> ParsePlanPart(lines[k]) == Ok(r.value[k])
  {
    if |lines| == 0 then Some([])
    else match (ParsePlanPart(lines[0]), ParseLines(lines[1..]))
      case (Ok(p), Some(rest)) => Some([p] + rest)
      case _ => None
  }

  /** `shoelace_part`: twice the signed area under one edge. */
  function ShoelacePart(a: Point, b: Point): int {
    (a.y + b.y) * (b.x - a.x)
  }

  /** The shoelace terms of consecutive points (`map_windows`). */
  function WindowSum(points: seq<Point>): int {
    if |points| < 2 then 0 else ShoelacePart(points[0], points[1]) + WindowSum(points[1..])
  }

  /** The windows plus the closing edge from the last point back to the first. */
  function ClosedSum(points: seq<Point>): int
    requires |points| >= 1
  {
    WindowSum(points) + ShoelacePart(points[|points| - 1], points[0])
  }

  /** `shoelace`: half the absolute closed sum; no points at all panic in `last()`. */
  function Shoelace(points: seq<Point>): (area: nat)
    requires |points| >= 1
    ensures 2 * area <= Abs(ClosedSum(points)) <= 2 * area + 1
  {
    Abs(ClosedSum(points)) / 2
  }

  function Abs(a: int): nat {
    if a < 0 then -a else a
  }

  lemma {:induction false} WindowSumSnoc(points: seq<Point>, q: Point)
    requires |points| >= 1
    ensures WindowSum(points + [q]) == WindowSum(points) + ShoelacePart(points[|points| - 1], q)
  {
    if |points| >= 2 {
      assert (points + [q])[1..] == points[1..] + [q];
      WindowSumSnoc(points[1..], q);
    }
  }

  /** Starting the tour at the second corner gives the same closed sum: the closing edge
      makes the sum independent of where the polygon starts. */
  lemma ClosedSumRotate(points: seq<Point>)
    requires |points| >= 2
    ensures ClosedSum(points[1..] + [points[0]]) == ClosedSum(points)
  {
    WindowSumSnoc(points[1..], points[0]);
    assert (points[1..] + [points[0]])[0] == points[1];
  }

  function Reverse(points: seq<Point>): (r: seq<Point>)
    ensures |r| == |points|
    ensures forall k :: 0 <= k < |r| ==> r[k] == points[|points| - 1 - k]
  {
    if |points| == 0 then [] else Reverse(points[1..]) + [points[0]]
  }

  lemma {:induction false} WindowSumReverse(points: seq<Point>)
    ensures WindowSum(Reverse(points)) == -WindowSum(points)
  {
    if |points| >= 2 {
      var tail := Reverse(points[1..]);
      WindowSumReverse(points[1..]);
      assert Reverse(points) == tail + [points[0]];
      assert tail[|tail| - 1] == points[1];
      WindowSumSnoc(tail, points[0]);
      ShoelacePartFlip(points[1], points[0]);
    } else if |points| == 1 {
      assert Reverse(points) == points;
    }
  }

  lemma ShoelacePartFlip(a: Point, b: Point)
    ensures ShoelacePart(a, b) == -ShoelacePart(b, a)
  {
  }

  /** Walking the polygon backwards negates the closed sum, so the area is the same. */
  lemma ShoelaceReverse(points: seq<Point>)
    requires |points| >= 1
    ensures ClosedSum(Reverse(points)) == -ClosedSum(points)
    ensures Shoelace(Reverse(points)) == Shoelace(points)
  {
    WindowSumReverse(points);
    var last := points[|points| - 1];
    assert Reverse(points)[0] == last && Reverse(points)[|points| - 1] == points[0];
    ShoelacePartFlip(points[0], last);
  }

  function Translate(points: seq<Point>, dx: int, dy: int): (r: seq<Point>)
    ensures |r| == |points|
    ensures forall k :: 0 <= k < |r| ==> r[k] == Point(points[k].x + dx, points[k].y + dy)
  {
    seq(|points|, k requires 0 <= k < |points| => Point(points[k].x + dx, points[k].y + dy))
  }

  /** Shifting both ends of an edge changes its term by `2 dy` times the edge's width. */
  lemma ShoelacePartTranslate(a: Point, b: Point, dx: int, dy: int)
    ensures ShoelacePart(Point(a.x + dx, a.y + dy), Point(b.x + dx, b.y + dy))
            == ShoelacePart(a, b) + 2 * dy * (b.x - a.x)
  {
    var w := b.x - a.x;
    assert (a.y + dy + b.y + dy) * w == (a.y + b.y) * w + (2 * dy) * w;
  }

  lemma {:induction false} WindowSumTranslate(points: seq<Point>, dx: int, dy: int)
    requires |points| >= 1
    ensures WindowSum(Translate(points, dx, dy))
            == WindowSum(points) + 2 * dy * (points[|points| - 1].x - points[0].x)
  {
    var moved := Translate(points, dx, dy);
    if |points| >= 2 {
      var rest := points[1..];
      WindowSumTranslate(rest, dx, dy);
      assert moved[1..] == Translate(rest, dx, dy);
      var a, b := points[0], points[1];
      ShoelacePartTranslate(a, b, dx, dy);
      assert WindowSum(moved) == ShoelacePart(moved[0], moved[1]) + WindowSum(moved[1..]);
      var u, v := b.x - a.x, points[|points| - 1].x - b.x;
      assert 2 * dy * u + 2 * dy * v == 2 * dy * (u + v);
    }
  }

  /** Moving the whole polygon does not change the closed sum. */
  lemma ShoelaceTranslate(points: seq<Point>, dx: int, dy: int)
    requires |points| >= 1
    ensures ClosedSum(Translate(points, dx, dy)) == ClosedSum(points)
    ensures Shoelace(Translate(points, dx, dy)) == Shoelace(points)
  {
    WindowSumTranslate(points, dx, dy);
    var a, b := points[|points| - 1], points[0];
    ShoelacePartTranslate(a, b, dx, dy);
    assert 2 * dy * (a.x - b.x) + 2 * dy * (b.x - a.x) == 0;
  }

  /** Rust's `/` on `isize`, which truncates toward zero. */
  function TruncDiv(a: int, b: int): int
    requires b > 0
  {
    if a >= 0 then a / b else -((-a) / b)
  }

  /** One straight stretch of trench. */
  datatype Move = Move(direction: Direction, distance: int)

  /** The corners visited by a plan (`scan` from the origin). */
  function Vertices(moves: seq<Move>, from: Point): (vs: seq<Point>)
  {
    if |moves| == 0 then []
    else
      var next := MoveFrom(moves[0].direction, from, moves[0].distance);
      [next] + Vertices(moves[1..], next)
  }

  /** Corner `k` is move `k` applied to the previous corner (the start for the first). */
  predicate Follows(moves: seq<Move>, from: Point, corners: seq<Point>, k: nat)
    requires k < |moves| && |corners| == |moves|
  {
    corners[k] == MoveFrom(moves[k].direction, if k == 0 then from else corners[k - 1], moves[k].distance)
  }

  /** The corners follow the moves one by one. */
  lemma {:induction false} VerticesSpec(moves: seq<Move>, from: Point)
    ensures |Vertices(moves, from)| == |moves|
    ensures forall k :: 0 <= k < |moves| ==> Follows(moves, from, Vertices(moves, from), k)
  {
    if |moves| > 0 {
      var next := MoveFrom(moves[0].direction, from, moves[0].distance);
      VerticesSpec(moves[1..], next);
      var vs := Vertices(moves, from);
      var rest := Vertices(moves[1..], next);
      assert vs == [next] + rest;
      forall k | 0 <= k < |moves|
        ensures Follows(moves, from, vs, k)
      {
        if k > 0 {
          assert Follows(moves[1..], next, rest, k - 1);
        }
      }
    }
  }

  /** Conversely, corners that follow the moves one by one are the scan's corners. */
  lemma {:induction false} VerticesUnique(moves: seq<Move>, from: Point, corners: seq<Point>)
    requires |corners| == |moves|
    requires forall k :: 0 <= k < |moves| ==> Follows(moves, from, corners, k)
    ensures Vertices(moves, from) == corners
  {
    if |moves| > 0 {
      assert Follows(moves, from, corners, 0);
      forall k | 0 <= k < |moves| - 1
        ensures Follows(moves[1..], corners[0], corners[1..], k)
      {
        assert Follows(moves, from, corners, k + 1);
      }
      VerticesUnique(moves[1..], corners[0], corners[1..]);
    }
  }

  function SumDistances(moves: seq<Move>): int {
    if |moves| == 0 then 0 else moves[0].distance + SumDistances(moves[1..])
  }

  /** The cubic metres dug out by a closed trench with these corners and this length:
      the shoelace area, then a correction for the corners (`(n - 4) / 2` of them concave)
      and for the trench cells between corners. */
  function Enclosed(corners: seq<Point>, trench: int): int
    requires |corners| >= 1
  {
    var n := |corners|;
    var concave := TruncDiv(n - 4, 2);
    Shoelace(corners) + TruncDiv(concave + (n - concave) * 3, 4) + TruncDiv(trench - n, 2)
  }

  /** The formula shared by both parts; an empty plan panics in `shoelace`. */
  function Area(moves: seq<Move>): (r: Option<int>)
    ensures r.Some? <==> |moves| > 0
  {
    if |moves| == 0 then None
    else
      VerticesSpec(moves, Point(0, 0));
      Some(Enclosed(Vertices(moves, Point(0, 0)), SumDistances(moves)))
  }

  /** A `w` by `h` rectangle dug clockwise from the origin holds its `(w + 1) * (h + 1)`
      cells, trench included. */
  lemma RectangleArea(w: nat, h: nat)
    requires w >= 1 && h >= 1
    ensures Area([Move(Right, w), Move(Down, h), Move(Left, w), Move(Up, h)]) == Some((w + 1) * (h + 1))
  {
    var moves := [Move(Right, w), Move(Down, h), Move(Left, w), Move(Up, h)];
    var corners := [Point(w, 0), Point(w, h), Point(0, h), Point(0, 0)];
    forall k | 0 <= k < 4
      ensures Follows(moves, Point(0, 0), corners, k)
    {
    }
    VerticesUnique(moves, Point(0, 0), corners);
    assert ShoelacePart(corners[1], corners[2]) == -2 * h * w;
    assert WindowSum(corners[2..]) == 0;
    assert WindowSum(corners[1..]) == -2 * h * w;
    assert ClosedSum(corners) == -2 * h * w;
    assert SumDistances(moves) == 2 * w + 2 * h by {
      assert SumDistances(moves[3..]) == h;
      assert SumDistances(moves[2..]) == w + h;
    }
    AreaFrom(moves, corners, 2 * w + 2 * h);
    assert Shoelace(corners) == h * w;
    FourCorners(corners, 2 * w + 2 * h);
    assert (w + 1) * (h + 1) == h * w + w + h + 1;
  }

  /** Four corners, all convex, add 3 cells. */
  lemma FourCorners(corners: seq<Point>, trench: int)
    requires |corners| == 4 && trench >= 4
    ensures Enclosed(corners, trench) == Shoelace(corners) + 3 + (trench - 4) / 2
  {
  }

  /** `part1`: the plan's own directions and distances. */
  function Part1(plan: seq<PlanPart>): Option<int> {
    Area(PlanMoves(plan))
  }

  /** The direction and distance written in each plan part. */
  function PlanMoves(plan: seq<PlanPart>): (moves: seq<Move>)
    ensures |moves| == |plan|
    ensures forall k :: 0 <= k < |plan| ==> moves[k] == Move(plan[k].direction, plan[k].distance)
  {
    if |plan| == 0 then [] else [Move(plan[0].direction, plan[0].distance)] + PlanMoves(plan[1..])
  }

  /** The moves decoded from the colours, or `None` at the first bad direction digit. */
  function ColourMoves(plan: seq<PlanPart>): (r: Option<seq<Move>>)
    ensures r.Some? <==> forall k :: 0 <= k < |plan| ==> ColourDirection(plan[k].rgb).Some?
    ensures r.Some? ==> |r.value| == |plan|
    ensures r.Some? ==> forall k :: 0 <= k < |plan| ==>
              ColourDirection(plan[k].rgb).Some? &&
              r.value[k] == Move(ColourDirection(plan[k].rgb).value, ColourDistance(plan[k].rgb) as int)
  {
    if |plan| == 0 then Some([])
    else match (ColourDirection(plan[0].rgb), ColourMoves(plan[1..]))
      case (Some(d), Some(rest)) => Some([Move(d, ColourDistance(plan[0].rgb) as int)] + rest)
      case _ => None
  }

  /** `part2`: the moves hidden in the colours. */
  function Part2(plan: seq<PlanPart>): Option<int> {
    match ColourMoves(plan)
    case None => None
    case Some(moves) => Area(moves)
  }

  function Example(): seq<PlanPart> {
    [ PlanPart(Right, 6, Colour(112, 199, 16)), PlanPart(Down, 5, Colour(13, 197, 113)),
      PlanPart(Left, 2, Colour(87, 19, 240)), PlanPart(Down, 2, Colour(210, 192, 129)),
      PlanPart(Right, 2, Colour(89, 198, 128)), PlanPart(Down, 2, Colour(65, 27, 145)),
      PlanPart(Left, 5, Colour(140, 238, 226)), PlanPart(Up, 2, Colour(202, 161, 115)),
      PlanPart(Left, 1, Colour(27, 88, 162)), PlanPart(Up, 2, Colour(202, 161, 113)),
      PlanPart(Right, 2, Colour(120, 7, 210)), PlanPart(Up, 3, Colour(167, 127, 163)),
      PlanPart(Left, 2, Colour(1, 82, 50)), PlanPart(Up, 2, Colour(122, 33, 227)) ]
  }

  function ExampleCorners(): seq<Point> {
    [ Point(6, 0), Point(6, 5), Point(4, 5), Point(4, 7), Point(6, 7), Point(6, 9), Point(1, 9),
      Point(1, 7), Point(0, 7), Point(0, 5), Point(2, 5), Point(2, 2), Point(0, 2), Point(0, 0) ]
  }

  function ExampleMoves(): seq<Move> {
    [ Move(Right, 6), Move(Down, 5), Move(Left, 2), Move(Down, 2), Move(Right, 2), Move(Down, 2), Move(Left, 5),
      Move(Up, 2), Move(Left, 1), Move(Up, 2), Move(Right, 2), Move(Up, 3), Move(Left, 2), Move(Up, 2) ]
  }

  lemma ExampleVertices()
    ensures Vertices(ExampleMoves(), Point(0, 0)) == ExampleCorners()
  {
    var moves, corners := ExampleMoves(), ExampleCorners();
    forall k | 0 <= k < |moves|
      ensures Follows(moves, Point(0, 0), corners, k)
    {
      if k < 7 {
        ExampleVerticesFollowLow(k);
      } else {
        ExampleVerticesFollowHigh(k);
      }
    }
    VerticesUnique(moves, Point(0, 0), corners);
  }

  lemma ExamplePlanMoves()
    ensures PlanMoves(Example()) == ExampleMoves()
  {
    hide PlanMoves;
    var plan, moves := Example(), ExampleMoves();
    forall k | 0 <= k < |plan|
      ensures moves[k] == Move(plan[k].direction, plan[k].distance)
    {
      if k < 7 {
        ExamplePlanMovesAtLow(k);
      } else {
        ExamplePlanMovesAtHigh(k);
      }
    }
  }

  lemma ExampleShoelace()
    ensures ClosedSum(ExampleCorners()) == -84
  {
  }

  /** The example lagoon holds 62 cubic metres: 42 inside the corners, 8 for the corners
      and 12 for the trench between them. */
  lemma ExamplePart1()
    ensures Part1(Example()) == Some(62)
  {
    ExamplePlanMoves();
    ExampleArea();
  }

  /** Once the corners and the trench length are known, the area is the formula on them. */
  lemma AreaFrom(moves: seq<Move>, corners: seq<Point>, trench: int)
    requires |moves| > 0
    requires Vertices(moves, Point(0, 0)) == corners && SumDistances(moves) == trench
    ensures |corners| == |moves|
    ensures Area(moves) == Some(Enclosed(corners, trench))
  {
    VerticesSpec(moves, Point(0, 0));
  }

  lemma ExampleArea()
    ensures Area(ExampleMoves()) == Some(62)
  {
    ExampleVertices();
    ExampleTrench();
    AreaFrom(ExampleMoves(), ExampleCorners(), 38);
    ExampleEnclosed();
  }

  lemma ExampleEnclosed()
    ensures Enclosed(ExampleCorners(), 38) == 62
  {
    ExampleShoelace();
    assert Shoelace(ExampleCorners()) == 42;
    FourteenCorners(ExampleCorners(), 38);
  }

  /** Both examples turn fourteen times: five concave corners and nine convex ones add
      8 cells. */
  lemma FourteenCorners(corners: seq<Point>, trench: int)
    requires |corners| == 14 && trench >= 14
    ensures Enclosed(corners, trench) == Shoelace(corners) + 8 + (trench - 14) / 2
  {
  }

  lemma ExampleTrench()
    ensures SumDistances(ExampleMoves()) == 38
  {
  }

  function ExampleColourCorners(): seq<Point> {
    [ Point(461937, 0), Point(461937, 56407), Point(818608, 56407), Point(818608, 919647),
      Point(1186328, 919647), Point(1186328, 1186328), Point(609066, 1186328),
      Point(609066, 356353), Point(497056, 356353), Point(497056, 1186328),
      Point(5411, 1186328), Point(5411, 500254), Point(0, 500254), Point(0, 0) ]
  }

  function ExampleColourMoves(): seq<Move> {
    [ Move(Right, 461937), Move(Down, 56407), Move(Right, 356671), Move(Down, 863240), Move(Right, 367720),
      Move(Down, 266681), Move(Left, 577262), Move(Up, 829975), Move(Left, 112010), Move(Down, 829975),
      Move(Left, 491645), Move(Up, 686074), Move(Left, 5411), Move(Up, 500254) ]
  }

  lemma ExampleColourMovesDecoded()
    ensures ColourMoves(Example()) == Some(ExampleColourMoves())
  {
    var plan, moves := Example(), ExampleColourMoves();
    forall k | 0 <= k < |plan|
      ensures ColourDirection(plan[k].rgb).Some?
      ensures moves[k] == Move(ColourDirection(plan[k].rgb).value, ColourDistance(plan[k].rgb) as int)
    {
      if k < 7 {
        ExampleColourMovesAtLow(k);
      } else {
        ExampleColourMovesAtHigh(k);
      }
    }
    ColourMovesFrom(plan, moves);
  }

  /** Moves that agree one by one with the colours are what `ColourMoves` decodes. */
  lemma ColourMovesFrom(plan: seq<PlanPart>, moves: seq<Move>)
    requires |moves| == |plan|
    requires forall k :: 0 <= k < |plan| ==>
               ColourDirection(plan[k].rgb).Some? &&
               moves[k] == Move(ColourDirection(plan[k].rgb).value, ColourDistance(plan[k].rgb) as int)
    ensures ColourMoves(plan) == Some(moves)
  {
    var decoded := ColourMoves(plan);
    assert decoded.Some?;
    assert decoded.value == moves;
  }

  lemma ExampleColourVertices()
    ensures Vertices(ExampleColourMoves(), Point(0, 0)) == ExampleColourCorners()
  {
    var moves, corners := ExampleColourMoves(), ExampleColourCorners();
    forall k | 0 <= k < |moves|
      ensures Follows(moves, Point(0, 0), corners, k)
    {
      if k < 7 {
        ExampleColourVerticesFollowLow(k);
      } else {
        ExampleColourVerticesFollowHigh(k);
      }
    }
    VerticesUnique(moves, Point(0, 0), corners);
  }

  lemma ExampleColourShoelace()
    ensures ClosedSum(ExampleColourCorners()) == -1904809882966
  {
    ExampleColourWindowsLow();
    ExampleColourWindowsHigh();
  }

  lemma ExampleColourWindowsLow()
    ensures WindowSum(ExampleColourCorners()) == -653061475998 + WindowSum(ExampleColourCorners()[7..])
  {
    var c := ExampleColourCorners();
    hide WindowSum;
    assert c[0..] == c;
    WindowSumAt(c, 0); WindowSumAt(c, 1); WindowSumAt(c, 2); WindowSumAt(c, 3);
    WindowSumAt(c, 4); WindowSumAt(c, 5); WindowSumAt(c, 6);
  }

  lemma WindowSumAt(points: seq<Point>, k: nat)
    requires k + 1 < |points|
    ensures WindowSum(points[k..]) == ShoelacePart(points[k], points[k + 1]) + WindowSum(points[k + 1..])
  {
    assert points[k..][1..] == points[k + 1..];
  }

  lemma ExampleColourWindowsHigh()
    ensures WindowSum(ExampleColourCorners()[7..]) == -1251748406968
  {
  }

  /** Read from the colours, the example lagoon holds 952408144115. */
  lemma ExamplePart2()
    ensures Part2(Example()) == Some(952408144115)
  {
    ExampleColourMovesDecoded();
    ExampleColourArea();
  }

  lemma ExampleColourArea()
    ensures Area(ExampleColourMoves()) == Some(952408144115)
  {
    ExampleColourVertices();
    ExampleColourTrench();
    AreaFrom(ExampleColourMoves(), ExampleColourCorners(), 6405262);
    ExampleColourEnclosed();
  }

  lemma ExampleColourEnclosed()
    ensures Enclosed(ExampleColourCorners(), 6405262) == 952408144115
  {
    ExampleColourShoelace();
    assert Shoelace(ExampleColourCorners()) == 952404941483;
    FourteenCorners(ExampleColourCorners(), 6405262);
  }

  lemma ExampleColourTrench()
    ensures SumDistances(ExampleColourMoves()) == 6405262
  {
  }

  lemma ExampleVerticesFollowLow(k: nat)
    requires k < 7
    ensures Follows(ExampleMoves(), Point(0, 0), ExampleCorners(), k)
  {
    if k == 0 {} else if k == 1 {} else if k == 2 {} else if k == 3 {} else if k == 4 {}
    else if k == 5 {} else {}
  }

  lemma ExampleVerticesFollowHigh(k: nat)
    requires 7 <= k < 14
    ensures Follows(ExampleMoves(), Point(0, 0), ExampleCorners(), k)
  {
    if k == 7 {} else if k == 8 {} else if k == 9 {} else if k == 10 {} else if k == 11 {}
    else if k == 12 {} else {}
  }

  lemma ExamplePlanMovesAtLow(k: nat)
    requires k < 7
    ensures ExampleMoves()[k] == Move(Example()[k].direction, Example()[k].distance)
  {
    if k == 0 {} else if k == 1 {} else if k == 2 {} else if k == 3 {} else if k == 4 {}
    else if k == 5 {} else {}
  }

  lemma ExamplePlanMovesAtHigh(k: nat)
    requires 7 <= k < 14
    ensures ExampleMoves()[k] == Move(Example()[k].direction, Example()[k].distance)
  {
    if k == 7 {} else if k == 8 {} else if k == 9 {} else if k == 10 {} else if k == 11 {}
    else if k == 12 {} else {}
  }

  lemma ExampleColourMovesAtLow(k: nat)
    requires k < 7
    ensures ColourDirection(Example()[k].rgb).Some? && ExampleColourMoves()[k] == Move(ColourDirection(Example()[k].rgb).value, ColourDistance(Example()[k].rgb) as int)
  {
    if k == 0 {} else if k == 1 {} else if k == 2 {} else if k == 3 {} else if k == 4 {}
    else if k == 5 {} else {}
  }

  lemma ExampleColourMovesAtHigh(k: nat)
    requires 7 <= k < 14
    ensures ColourDirection(Example()[k].rgb).Some? && ExampleColourMoves()[k] == Move(ColourDirection(Example()[k].rgb).value, ColourDistance(Example()[k].rgb) as int)
  {
    if k == 7 {} else if k == 8 {} else if k == 9 {} else if k == 10 {} else if k == 11 {}
    else if k == 12 {} else {}
  }

  lemma ExampleColourVerticesFollowLow(k: nat)
    requires k < 7
    ensures Follows(ExampleColourMoves(), Point(0, 0), ExampleColourCorners(), k)
  {
    if k == 0 {} else if k == 1 {} else if k == 2 {} else if k == 3 {} else if k == 4 {}
    else if k == 5 {} else {}
  }

  lemma ExampleColourVerticesFollowHigh(k: nat)
    requires 7 <= k < 14
    ensures Follows(ExampleColourMoves(), Point(0, 0), ExampleColourCorners(), k)
  {
    if k == 7 {} else if k == 8 {} else if k == 9 {} else if k == 10 {} else if k == 11 {}
    else if k == 12 {} else {}
  }

  /** The first line of the example parses to its plan part. */
  lemma ExampleLine()
    ensures ParseColour("(#70c710)") == Ok(Colour(112, 199, 16))
  {
    var s := "(#70c710)";
    assert s[2..8] == "70c710";
    assert HexValue("7") == Some(7);
    assert HexValue("70") == Some(112) by { assert "70"[..1] == "7"; }
    assert HexValue("70c") == Some(1804) by { assert "70c"[..2] == "70"; }
    assert HexValue("70c7") == Some(28871) by { assert "70c7"[..3] == "70c"; }
    assert HexValue("70c71") == Some(461937) by { assert "70c71"[..4] == "70c7"; }
    assert HexValue("70c710") == Some(7390992) by { assert "70c710"[..5] == "70c71"; }
  }
}
