/** Day 2: games of cubes drawn from a bag. A game is possible when every draw fits the
    bag of 12 red, 13 green and 14 blue cubes; its power is the product of the fewest
    cubes of each colour that make it possible. */
module Day02 {
  import opened Wrappers
  import opened Text
  import Seqs

  datatype CubeSet = CubeSet(red: nat, green: nat, blue: nat)

  datatype Game = Game(id: nat, sets: seq<CubeSet>)

  const Bag := CubeSet(12, 13, 14)

  /** `a` needs no more cubes of any colour than `b` holds. */
  predicate FitsIn(a: CubeSet, b: CubeSet) {
    a.red <= b.red && a.green <= b.green && a.blue <= b.blue
  }

  /** `part1`: the game's id when every draw fits the bag. */
  function Part1(game: Game): (r: Option<nat>)
    ensures r.Some? <==> forall k :: 0 <= k < |game.sets| ==> FitsIn(game.sets[k], Bag)
    ensures r.Some? ==> r.value == game.id
  {
    if forall k :: 0 <= k < |game.sets| ==> FitsIn(game.sets[k], Bag) then Some(game.id) else None
  }

  function Max(a: nat, b: nat): nat {
    if a < b then b else a
  }

  /** The colour-wise maximum of the draws (`reduce` with `max`); there must be a draw,
      as `unwrap` demands. */
  function Minimum(sets: seq<CubeSet>): (m: CubeSet)
    requires |sets| >= 1
    ensures forall k :: 0 <= k < |sets| ==> FitsIn(sets[k], m)
    ensures exists k :: 0 <= k < |sets| && sets[k].red == m.red
    ensures exists k :: 0 <= k < |sets| && sets[k].green == m.green
    ensures exists k :: 0 <= k < |sets| && sets[k].blue == m.blue
  {
    if |sets| == 1 then sets[0]
    else
      var rest := Minimum(sets[1..]);
      assert forall k :: 1 <= k < |sets| ==> sets[k] == sets[1..][k - 1];
      CubeSet(Max(sets[0].red, rest.red), Max(sets[0].green, rest.green), Max(sets[0].blue, rest.blue))
  }

  /** The maximum is the least bag every draw fits in. */
  lemma MinimumIsLeast(sets: seq<CubeSet>, bag: CubeSet)
    requires |sets| >= 1
    ensures FitsIn(Minimum(sets), bag) <==> forall k :: 0 <= k < |sets| ==> FitsIn(sets[k], bag)
  {
    var m := Minimum(sets);
    if forall k :: 0 <= k < |sets| ==> FitsIn(sets[k], bag) {
      var r :| 0 <= r < |sets| && sets[r].red == m.red;
      var g :| 0 <= g < |sets| && sets[g].green == m.green;
      var b :| 0 <= b < |sets| && sets[b].blue == m.blue;
      assert FitsIn(sets[r], bag) && FitsIn(sets[g], bag) && FitsIn(sets[b], bag);
    }
  }

  /** A game is possible exactly when its minimum set fits the bag. */
  lemma PossibleIffMinimumFits(game: Game)
    requires |game.sets| >= 1
    ensures Part1(game).Some? <==> FitsIn(Minimum(game.sets), Bag)
  {
    MinimumIsLeast(game.sets, Bag);
  }

  /** Every draw fits in `bag`, and each of its colours is reached by some draw. */
  predicate Tight(sets: seq<CubeSet>, bag: CubeSet) {
    && (forall k :: 0 <= k < |sets| ==> FitsIn(sets[k], bag))
    && (exists k :: 0 <= k < |sets| && sets[k].red == bag.red)
    && (exists k :: 0 <= k < |sets| && sets[k].green == bag.green)
    && (exists k :: 0 <= k < |sets| && sets[k].blue == bag.blue)
  }

  /** `part2`: the power of the minimum set, the one bag every draw fits in tightly. */
  function Part2(game: Game): (r: nat)
    requires |game.sets| >= 1
    ensures exists bag :: Tight(game.sets, bag) && r == Power(bag)
  {
    var m := Minimum(game.sets);
    assert Tight(game.sets, m);
    Power(m)
  }

  /** There is only one tight bag, so `part2`'s power is determined by the draws. */
  lemma TightUnique(sets: seq<CubeSet>, a: CubeSet, b: CubeSet)
    requires Tight(sets, a) && Tight(sets, b)
    ensures a == b
  {
    var i :| 0 <= i < |sets| && sets[i].red == a.red;
    var j :| 0 <= j < |sets| && sets[j].red == b.red;
    assert FitsIn(sets[i], b) && FitsIn(sets[j], a);
    var i' :| 0 <= i' < |sets| && sets[i'].green == a.green;
    var j' :| 0 <= j' < |sets| && sets[j'].green == b.green;
    assert FitsIn(sets[i'], b) && FitsIn(sets[j'], a);
    var i'' :| 0 <= i'' < |sets| && sets[i''].blue == a.blue;
    var j'' :| 0 <= j'' < |sets| && sets[j''].blue == b.blue;
    assert FitsIn(sets[i''], b) && FitsIn(sets[j''], a);
  }

  function Power(c: CubeSet): nat {
    c.red * c.green * c.blue
  }

  /** The minimum set has the least power among the bags the game is possible with. */
  lemma PowerIsLeast(game: Game, bag: CubeSet)
    requires |game.sets| >= 1
    requires forall k :: 0 <= k < |game.sets| ==> FitsIn(game.sets[k], bag)
    ensures Part2(game) <= bag.red * bag.green * bag.blue
  {
    MinimumIsLeast(game.sets, bag);
    PowerMonotone(Minimum(game.sets), bag);
  }

  lemma PowerMonotone(a: CubeSet, b: CubeSet)
    requires FitsIn(a, b)
    ensures a.red * a.green * a.blue <= b.red * b.green * b.blue
  {
    MulMonotone(a.red, a.green, b.red, b.green);
    MulMonotone(a.red * a.green, a.blue, b.red * b.green, b.blue);
  }

  lemma MulMonotone(a: nat, b: nat, c: nat, d: nat)
    requires a <= c && b <= d
    ensures a * b <= c * d
  {
    assert a * b <= c * b;
    assert c * b <= c * d;
  }

  /** The sums `solve` prints: the ids of the possible games and the powers of all. */
  function SumPossible(games: seq<Game>): (r: nat)
    ensures forall k :: 0 <= k < |games| && Part1(games[k]).Some? ==> games[k].id <= r
    ensures (forall k :: 0 <= k < |games| ==> Part1(games[k]).None?) ==> r == 0
  {
    if |games| == 0 then 0
    else
      var rest := SumPossible(games[1..]);
      assert forall k :: 1 <= k < |games| ==> games[k] == games[1..][k - 1];
      (match Part1(games[0]) case Some(id) => id case None => 0) + rest
  }

  function SumPowers(games: seq<Game>): (r: nat)
    requires forall k :: 0 <= k < |games| ==> |games[k].sets| >= 1
    ensures forall k :: 0 <= k < |games| ==> Part2(games[k]) <= r
  {
    if |games| == 0 then 0
    else
      var rest := SumPowers(games[1..]);
      assert forall k :: 1 <= k < |games| ==> games[k] == games[1..][k - 1];
      Part2(games[0]) + rest
  }

  /** Both sums add up line by line: the sum over two runs of lines is the sum of the two. */
  lemma {:induction false} SumsAppend(a: seq<Game>, b: seq<Game>)
    requires forall k :: 0 <= k < |a| ==> |a[k].sets| >= 1
    requires forall k :: 0 <= k < |b| ==> |b[k].sets| >= 1
    ensures SumPossible(a + b) == SumPossible(a) + SumPossible(b)
    ensures SumPowers(a + b) == SumPowers(a) + SumPowers(b)
  {
    if |a| == 0 {
      assert a + b == b;
    } else {
      assert (a + b)[1..] == a[1..] + b;
      SumsAppend(a[1..], b);
    }
  }

  /** What each game adds to the first sum: its id when it is possible, otherwise 0. */
  function IdsIfPossible(games: seq<Game>): seq<int> {
    seq(|games|, k requires 0 <= k < |games| => if Part1(games[k]).Some? then games[k].id else 0)
  }

  /** The first sum is the sum, over the games, of the id of each possible game. */
  lemma {:induction false} SumPossibleSpec(games: seq<Game>)
    ensures SumPossible(games) == Seqs.Sum(IdsIfPossible(games))
  {
    if |games| > 0 {
      SumPossibleSpec(games[1..]);
      assert IdsIfPossible(games)[1..] == IdsIfPossible(games[1..]);
    }
  }

  /** The power of every game, in order. */
  function Powers(games: seq<Game>): seq<int>
    requires forall k :: 0 <= k < |games| ==> |games[k].sets| >= 1
  {
    seq(|games|, k requires 0 <= k < |games| => Part2(games[k]))
  }

  /** The second sum is the sum of the games' powers. */
  lemma {:induction false} SumPowersSpec(games: seq<Game>)
    requires forall k :: 0 <= k < |games| ==> |games[k].sets| >= 1
    ensures SumPowers(games) == Seqs.Sum(Powers(games))
  {
    if |games| > 0 {
      SumPowersSpec(games[1..]);
      assert Powers(games)[1..] == Powers(games[1..]);
    }
  }

  /** One `"<count> <colour>"` item of a draw: split at the first space, the count a
      `usize`. */
  function ParseItem(item: string): (r: Result<(string, nat)>)
    ensures r.Ok? ==> Contains(item, " ")
  {
    match SplitOnce(item, " ")
    case None => Err
    case Some((count, colour)) =>
      match ParseNat(count)
      case None => Err
      case Some(n) => Ok((colour, n))
  }

  function ParseItems(items: seq<string>): (r: Result<seq<(string, nat)>>)
    ensures r.Ok? <==> forall k :: 0 <= k < |items| ==> ParseItem(items[k]).Ok?
    ensures r.Ok? ==> |r.value| == |items| && forall k :: 0 <= k < |items| ==> Ok(r.value[k]) == ParseItem(items[k])
  {
    if |items| == 0 then Ok([])
    else match ParseItem(items[0])
      case Err => Err
      case Ok(p) =>
        match ParseItems(items[1..])
        case Err => Err
        case Ok(ps) => Ok([p] + ps)
  }

  predicate KnownColour(colour: string) {
    colour == "red" || colour == "green" || colour == "blue"
  }

  /** The assignments of `from_str`, in order, each overwriting its colour. */
  function Assign(s: CubeSet, pairs: seq<(string, nat)>): (r: Result<CubeSet>)
    ensures r.Ok? <==> forall k :: 0 <= k < |pairs| ==> KnownColour(pairs[k].0)
    decreases |pairs|
  {
    if |pairs| == 0 then Ok(s)
    else
      var (colour, n) := pairs[0];
      var next :=
        if colour == "red" then Ok(s.(red := n))
        else if colour == "green" then Ok(s.(green := n))
        else if colour == "blue" then Ok(s.(blue := n))
        else Err;
      match next
      case Err => Err
      case Ok(s') => Assign(s', pairs[1..])
  }

  /** The value a colour ends with: that of its last mention, `default` when it is not
      mentioned. */
  function LastValue(pairs: seq<(string, nat)>, colour: string, default: nat): (v: nat)
    ensures (forall k :: 0 <= k < |pairs| ==> pairs[k].0 != colour) ==> v == default
    ensures v != default ==> exists k :: 0 <= k < |pairs| && pairs[k] == (colour, v)
  {
    if |pairs| == 0 then default
    else if pairs[|pairs| - 1].0 == colour then pairs[|pairs| - 1].1
    else LastValue(pairs[..|pairs| - 1], colour, default)
  }

  /** Each colour of the assigned set is its last mention; colours not mentioned keep
      their value. */
  lemma {:induction false} AssignIsLastMention(s: CubeSet, pairs: seq<(string, nat)>)
    requires Assign(s, pairs).Ok?
    ensures Assign(s, pairs).value ==
              CubeSet(LastValue(pairs, "red", s.red), LastValue(pairs, "green", s.green), LastValue(pairs, "blue", s.blue))
    decreases |pairs|
  {
    if |pairs| > 0 {
      var (colour, n) := pairs[0];
      var s' := if colour == "red" then s.(red := n) else if colour == "green" then s.(green := n) else s.(blue := n);
      AssignIsLastMention(s', pairs[1..]);
      LastValueCons(pairs, "red", s.red, s'.red);
      LastValueCons(pairs, "green", s.green, s'.green);
      LastValueCons(pairs, "blue", s.blue, s'.blue);
    }
  }

  /** Looking up the last mention in `pairs` is looking it up in the tail with the head's
      value as the default. */
  lemma {:induction false} LastValueCons(pairs: seq<(string, nat)>, colour: string, default: nat, default': nat)
    requires |pairs| >= 1
    requires default' == if pairs[0].0 == colour then pairs[0].1 else default
    ensures LastValue(pairs, colour, default) == LastValue(pairs[1..], colour, default')
    decreases |pairs|
  {
    if |pairs| > 1 {
      var last := pairs[|pairs| - 1];
      assert pairs[1..][..|pairs| - 2] == pairs[..|pairs| - 1][1..];
      if last.0 != colour {
        LastValueCons(pairs[..|pairs| - 1], colour, default, default');
      }
    }
  }

  /** `CubeSet::from_str`: every item is parsed before any is assigned, so a malformed
      item and an unknown colour are both errors. */
  function ParseCubeSet(s: string): (r: Result<CubeSet>)
  {
    match ParseItems(Split(s, ", "))
    case Err => Err
    case Ok(pairs) => Assign(CubeSet(0, 0, 0), pairs)
  }

  /** A well-formed draw sets every colour to its last mention and leaves unmentioned
      colours at 0; an unknown colour makes it an error. */
  lemma ParseCubeSetSpec(s: string, pairs: seq<(string, nat)>)
    requires ParseItems(Split(s, ", ")) == Ok(pairs)
    ensures ParseCubeSet(s).Ok? <==> forall k :: 0 <= k < |pairs| ==> KnownColour(pairs[k].0)
    ensures ParseCubeSet(s).Ok? ==>
              ParseCubeSet(s).value == CubeSet(LastValue(pairs, "red", 0), LastValue(pairs, "green", 0), LastValue(pairs, "blue", 0))
  {
    if ParseCubeSet(s).Ok? {
      AssignIsLastMention(CubeSet(0, 0, 0), pairs);
    }
  }

  /** `Game::from_str`: exactly one `": "`, the id is the last space-separated word of the
      header, and the draws are separated by `"; "`. Since `split` never yields nothing, a
      parsed game always has a draw, so `part2`'s `unwrap` cannot fail on it. */
  function ParseGame(line: string): (r: Result<Game>)
    ensures r.Ok? ==> |r.value.sets| >= 1
    ensures r.Ok? ==> |Split(line, ": ")| == 2
  {
    var pieces := Split(line, ": ");
    if |pieces| != 2 then Err
    else
      var words := Split(pieces[0], " ");
      match ParseNat(words[|words| - 1])
      case None => Err
      case Some(id) =>
        match MapAll(Split(pieces[1], "; "), ParseCubeSet)
        case Err => Err
        case Ok(sets) => Ok(Game(id, sets))
  }

  /** An item as written: the count, one space, the colour. */
  function Item(n: nat, colour: string): string {
    NatToString(n) + " " + colour
  }

  /** An item written out is read back as the pair. */
  lemma ParseItemRendered(n: nat, colour: string)
    ensures ParseItem(Item(n, colour)) == Ok((colour, n))
  {
    NatToStringDigits(n);
    SplitOnceAfter(NatToString(n), " ", colour);
    ParseNatToString(n);
  }

  /** A draw written out with all three colours, `"<r> red, <g> green, <b> blue"`. */
  function RenderCubeSet(c: CubeSet): string {
    Join(Items(c), ", ")
  }

  /** A character that is neither a digit nor in the colour is not in the item. */
  lemma ItemAvoids(n: nat, colour: string, x: char)
    requires !IsDigit(x) && x != ' ' && x !in colour
    ensures x !in Item(n, colour)
  {
    NatToStringDigits(n);
  }

  function Items(c: CubeSet): seq<string> {
    [Item(c.red, "red"), Item(c.green, "green"), Item(c.blue, "blue")]
  }

  function Pairs(c: CubeSet): seq<(string, nat)> {
    [("red", c.red), ("green", c.green), ("blue", c.blue)]
  }

  lemma SplitItems(c: CubeSet)
    ensures Split(RenderCubeSet(c), ", ") == Items(c)
  {
    var items := Items(c);
    forall k | 0 <= k < 3 ensures !Contains(items[k] + ", "[..1], ", ") {
      ItemAvoids(c.red, "red", ',');
      ItemAvoids(c.green, "green", ',');
      ItemAvoids(c.blue, "blue", ',');
      SeparatorAbsent(items[k], ", ");
    }
    SplitJoin(items, ", ");
  }

  lemma ParseItemsRendered(c: CubeSet)
    ensures ParseItems(Items(c)) == Ok(Pairs(c))
  {
    ParseItemRendered(c.red, "red");
    ParseItemRendered(c.green, "green");
    ParseItemRendered(c.blue, "blue");
    var items, pairs := Items(c), Pairs(c);
    var r := ParseItems(items);
    assert forall k :: 0 <= k < 3 ==> ParseItem(items[k]) == Ok(pairs[k]);
    assert r.Ok?;
    assert |r.value| == 3 == |pairs|;
    assert forall k :: 0 <= k < 3 ==> r.value[k] == pairs[k];
    assert r.value == pairs;
  }

  lemma ParseCubeSetRendered(c: CubeSet)
    ensures ParseCubeSet(RenderCubeSet(c)) == Ok(c)
  {
    SplitItems(c);
    ParseItemsRendered(c);
    var pairs := Pairs(c);
    assert pairs[1..][1..] == pairs[2..];
    assert Assign(CubeSet(c.red, c.green, 0), pairs[2..]) == Assign(c, []);
    assert Assign(CubeSet(c.red, 0, 0), pairs[1..]) == Assign(CubeSet(c.red, c.green, 0), pairs[2..]);
    assert Assign(CubeSet(0, 0, 0), pairs) == Assign(CubeSet(c.red, 0, 0), pairs[1..]);
  }

  /** A game written out as `"Game <id>: "` followed by its draws separated by `"; "`. */
  function RenderGame(g: Game): string
    requires |g.sets| >= 1
  {
    "Game " + NatToString(g.id) + ": " + Join(RenderDraws(g.sets), "; ")
  }

  /** Each draw written out, in order. */
  function RenderDraws(sets: seq<CubeSet>): (r: seq<string>)
    ensures |r| == |sets| && forall k :: 0 <= k < |sets| ==> r[k] == RenderCubeSet(sets[k])
  {
    seq(|sets|, k requires 0 <= k < |sets| => RenderCubeSet(sets[k]))
  }

  /** A written draw holds no `;` and no `:`. */
  lemma RenderCubeSetAvoids(c: CubeSet)
    ensures ';' !in RenderCubeSet(c) && ':' !in RenderCubeSet(c)
  {
    var items := Items(c);
    forall x | x == ';' || x == ':' ensures x !in RenderCubeSet(c) {
      ItemAvoids(c.red, "red", x);
      ItemAvoids(c.green, "green", x);
      ItemAvoids(c.blue, "blue", x);
      JoinAvoids(items, ", ", x);
    }
  }

  /** The header `"Game <id>"` splits at its one space, and its last word reads as the id. */
  lemma HeaderRendered(id: nat)
    ensures Split("Game " + NatToString(id), " ") == ["Game", NatToString(id)]
    ensures ParseNat(NatToString(id)) == Some(id)
    ensures ':' !in "Game " + NatToString(id)
  {
    var t := NatToString(id);
    NatToStringDigits(id);
    assert forall i :: 0 <= i < |t| ==> IsDigit(t[i]);
    assert ':' !in t;
    assert "Game " + t == Join(["Game", t], " ");
    SeparatorAbsent("Game", " ");
    SeparatorAbsent(t, " ");
    SplitJoin(["Game", t], " ");
    ParseNatToString(id);
  }

  /** Draws written out and joined by `"; "` hold no `:` and read back as the draws. */
  lemma DrawsRendered(sets: seq<CubeSet>)
    requires |sets| >= 1
    ensures ':' !in Join(RenderDraws(sets), "; ")
    ensures MapAll(Split(Join(RenderDraws(sets), "; "), "; "), ParseCubeSet) == Ok(sets)
  {
    var parts := RenderDraws(sets);
    forall k | 0 <= k < |parts| ensures ';' !in parts[k] && ':' !in parts[k] {
      RenderCubeSetAvoids(sets[k]);
    }
    JoinAvoids(parts, "; ", ':');
    forall k | 0 <= k < |parts| ensures !Contains(parts[k] + "; "[..1], "; ") {
      SeparatorAbsent(parts[k], "; ");
    }
    SplitJoin(parts, "; ");
    forall k | 0 <= k < |parts| ensures ParseCubeSet(parts[k]) == Ok(sets[k]) {
      ParseCubeSetRendered(sets[k]);
    }
    var r := MapAll(parts, ParseCubeSet);
    assert r.Ok?;
    assert r.value == sets;
  }

  /** A game written out is read back as itself. */
  lemma ParseGameRendered(g: Game)
    requires |g.sets| >= 1
    ensures ParseGame(RenderGame(g)) == Ok(g)
  {
    var header := "Game " + NatToString(g.id);
    var rest := Join(RenderDraws(g.sets), "; ");
    HeaderRendered(g.id);
    DrawsRendered(g.sets);
    assert RenderGame(g) == Join([header, rest], ": ");
    SeparatorAbsent(header, ": ");
    SeparatorAbsent(rest, ": ");
    SplitJoin([header, rest], ": ");
  }

  /** The example games, already parsed: games 1, 2 and 5 are possible, and the powers
      are 48, 12, 1560, 630 and 36. */
  function Game1(): Game { Game(1, [CubeSet(4, 0, 3), CubeSet(1, 2, 6), CubeSet(0, 2, 0)]) }
  function Game2(): Game { Game(2, [CubeSet(0, 2, 1), CubeSet(1, 3, 4), CubeSet(0, 1, 1)]) }
  function Game3(): Game { Game(3, [CubeSet(20, 8, 6), CubeSet(4, 13, 5), CubeSet(1, 5, 0)]) }
  function Game4(): Game { Game(4, [CubeSet(3, 1, 6), CubeSet(6, 3, 0), CubeSet(14, 3, 15)]) }
  function Game5(): Game { Game(5, [CubeSet(6, 3, 1), CubeSet(1, 2, 2)]) }

  lemma ExampleGame1()
    ensures Part1(Game1()) == Some(1) && Part2(Game1()) == 48
  {
  }

  lemma ExampleGame2()
    ensures Part1(Game2()) == Some(2) && Part2(Game2()) == 12
  {
  }

  lemma ExampleGame3()
    ensures Part1(Game3()) == None && Part2(Game3()) == 1560
  {
    assert !FitsIn(Game3().sets[0], Bag);
  }

  lemma ExampleGame4()
    ensures Part1(Game4()) == None && Part2(Game4()) == 630
  {
    assert !FitsIn(Game4().sets[2], Bag);
  }

  lemma ExampleGame5()
    ensures Part1(Game5()) == Some(5) && Part2(Game5()) == 36
  {
  }
}
