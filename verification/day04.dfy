/** Day 4: scratchcards. Each card is reduced to its number of matches; part one scores
    the cards, part two lets every card win copies of the cards after it. */
module Day04 {
  import opened Wrappers
  import opened Text
  import opened Sets

  function Pow2(n: nat): (p: nat)
    ensures p >= 1
  {
    if n == 0 then 1 else 2 * Pow2(n - 1)
  }

  /** A card's points: nothing without matches, then 1 doubled for every further match
      (`n.checked_sub(1).map(|x| 1 << x).unwrap_or(0)`). */
  function Score(n: nat): (p: nat)
    ensures p == 0 <==> n == 0
  {
    if n == 0 then 0 else Pow2(n - 1)
  }

  /** The first match is worth 1 and every later one doubles the score. */
  lemma ScoreDoubles(n: nat)
    ensures Score(1) == 1
    ensures n >= 1 ==> Score(n + 1) == 2 * Score(n)
  {
  }

  /** `part1`: the sum of the scores. */
  function Part1(values: seq<nat>): (total: nat)
    ensures total == 0 <==> forall k :: 0 <= k < |values| ==> values[k] == 0
  {
    if |values| == 0 then 0 else Score(values[0]) + Part1(values[1..])
  }

  /** Whether card `i` wins a copy of card `k`: it lies among the `values[i]` cards after
      `i` (the end of the table truncates the range by itself). */
  predicate WinsCopy(values: seq<nat>, i: nat, k: nat)
    requires i < |values|
  {
    i < k <= i + values[i]
  }

  /** The number of instances of card `k`: the original plus one per instance of every
      earlier card that wins a copy of it. */
  function Copies(values: seq<nat>, k: nat): (c: nat)
    requires k < |values|
    ensures c >= 1
    decreases k, 1
  {
    1 + Contribution(values, k, k)
  }

  /** The copies of card `k` won by the instances of cards `0..i`. */
  function Contribution(values: seq<nat>, i: nat, k: nat): nat
    requires i <= k < |values|
    decreases i, 0
  {
    if i == 0 then 0
    else Contribution(values, i - 1, k) + (if WinsCopy(values, i - 1, k) then Copies(values, i - 1) else 0)
  }

  /** The total number of instances of cards `0..n`. */
  function TotalCopies(values: seq<nat>, n: nat): (t: nat)
    requires n <= |values|
    ensures t >= n
  {
    if n == 0 then 0 else TotalCopies(values, n - 1) + Copies(values, n - 1)
  }

  /** `part2` as the source runs it: a table of counts starting at 1, and card `i` adds
      its count to the counts of the next `values[i]` cards. */
  method Part2(values: seq<nat>) returns (result: nat)
    ensures result == TotalCopies(values, |values|)
    ensures result >= |values|
  {
    var n := |values|;
    var counts := seq(n, _ => 1);
    result := 0;
    var i := 0;
    while i < n
      invariant i <= n && |counts| == n
      invariant result == TotalCopies(values, i)
      invariant forall k :: i <= k < n ==> counts[k] == 1 + Contribution(values, i, k)
    {
      assert counts[i] == Copies(values, i);
      result := result + counts[i];
      var hi := if i + 1 + values[i] < n then i + 1 + values[i] else n;
      var j := i + 1;
      while j < hi
        invariant i + 1 <= j && (j <= hi || j == i + 1) && |counts| == n && hi <= n
        invariant counts[i] == Copies(values, i)
        invariant forall k :: i < k < j ==> counts[k] == 1 + Contribution(values, i + 1, k)
        invariant forall k :: j <= k < n ==> counts[k] == 1 + Contribution(values, i, k)
      {
        counts := counts[j := counts[j] + counts[i]];
        j := j + 1;
      }
      assert forall k :: hi <= k < n ==> !WinsCopy(values, i, k);
      i := i + 1;
    }
  }

  /** Without any matches no copies are won: every card counts once. */
  lemma {:induction false} NoMatchesNoCopies(values: seq<nat>, n: nat)
    requires n <= |values| && forall k :: 0 <= k < |values| ==> values[k] == 0
    ensures TotalCopies(values, n) == n
  {
    if n > 0 {
      NoMatchesNoCopies(values, n - 1);
      NoContribution(values, n - 1, n - 1);
    }
  }

  lemma {:induction false} NoContribution(values: seq<nat>, i: nat, k: nat)
    requires i <= k < |values| && forall k :: 0 <= k < |values| ==> values[k] == 0
    ensures Contribution(values, i, k) == 0
  {
    if i > 0 {
      NoContribution(values, i - 1, k);
    }
  }

  /** Copies only flow forward: the cards after `n` do not change how many instances of
      the first `n` cards there are. */
  lemma {:induction false} CopiesPrefix(values: seq<nat>, more: seq<nat>, k: nat)
    requires k < |values|
    ensures Copies(values + more, k) == Copies(values, k)
    decreases k, 1
  {
    ContributionPrefix(values, more, k, k);
  }

  lemma {:induction false} ContributionPrefix(values: seq<nat>, more: seq<nat>, i: nat, k: nat)
    requires i <= k < |values|
    ensures Contribution(values + more, i, k) == Contribution(values, i, k)
    decreases i, 0
  {
    if i > 0 {
      ContributionPrefix(values, more, i - 1, k);
      CopiesPrefix(values, more, i - 1);
    }
  }

  /** `parse_number_set`: the whitespace-separated numbers as a set; any word that is
      not a number is an error. */
  function ParseNumberSet(s: string): (r: Result<set<nat>>)
    ensures r.Ok? <==> AllNumbers(SplitWhitespace(s))
    ensures r.Ok? ==> ParsedFrom(SplitWhitespace(s), r.value)
  {
    var words := SplitWhitespace(s);
    NumberSet(words)
  }

  /** Every word is a number. */
  predicate AllNumbers(words: seq<string>) {
    forall k :: 0 <= k < |words| ==> ParseNat(words[k]).Some?
  }

  /** `xs` holds exactly the values of `words`. */
  ghost predicate ParsedFrom(words: seq<string>, xs: set<nat>) {
    forall x :: x in xs <==> exists k :: 0 <= k < |words| && ParseNat(words[k]) == Some(x)
  }

  function NumberSet(words: seq<string>): (r: Result<set<nat>>)
    ensures r.Ok? <==> AllNumbers(words)
    ensures r.Ok? ==> ParsedFrom(words, r.value)
  {
    if |words| == 0 then Ok({})
    else match ParseNat(words[0])
      case None => Err
      case Some(x) =>
        match NumberSet(words[1..])
        case Err => Err
        case Ok(xs) =>
          NumberSetStep(words, x, xs);
          Ok({x} + xs)
  }

  lemma NumberSetStep(words: seq<string>, x: nat, xs: set<nat>)
    requires |words| >= 1 && ParseNat(words[0]) == Some(x)
    requires ParsedFrom(words[1..], xs)
    ensures ParsedFrom(words, {x} + xs)
  {
    forall y | y in {x} + xs ensures exists k :: 0 <= k < |words| && ParseNat(words[k]) == Some(y) {
      if y != x {
        var k :| 0 <= k < |words| - 1 && ParseNat(words[1..][k]) == Some(y);
        assert ParseNat(words[k + 1]) == Some(y);
      }
    }
    forall y | exists k :: 0 <= k < |words| && ParseNat(words[k]) == Some(y) ensures y in {x} + xs {
      var k :| 0 <= k < |words| && ParseNat(words[k]) == Some(y);
      if k > 0 {
        assert ParseNat(words[1..][k - 1]) == Some(y);
      }
    }
  }

  /** Numbers written out with single spaces parse back into the set of those numbers,
      duplicates collapsing. */
  lemma NumberSetRendered(xs: seq<nat>)
    requires |xs| >= 1
    ensures ParseNumberSet(Join(Render(xs), " ")) == Ok(set k | 0 <= k < |xs| :: xs[k])
  {
    var words := Render(xs);
    RenderedWords(xs);
    assert AllNumbers(words);
    var r := ParseNumberSet(Join(words, " "));
    ParsedValues(xs, words, r.value);
  }

  lemma RenderedWords(xs: seq<nat>)
    requires |xs| >= 1
    ensures SplitWhitespace(Join(Render(xs), " ")) == Render(xs)
    ensures forall k :: 0 <= k < |xs| ==> ParseNat(Render(xs)[k]) == Some(xs[k])
  {
    var words := Render(xs);
    forall k | 0 <= k < |words| ensures IsWord(words[k]) {
      assert AllDigits(words[k]);
    }
    SplitWhitespaceJoin(words);
    forall k | 0 <= k < |words| ensures ParseNat(words[k]) == Some(xs[k]) {
      ParseNatToString(xs[k]);
    }
  }

  lemma ParsedValues(xs: seq<nat>, words: seq<string>, values: set<nat>)
    requires |words| == |xs| && forall k :: 0 <= k < |xs| ==> ParseNat(words[k]) == Some(xs[k])
    requires ParsedFrom(words, values)
    ensures values == set k | 0 <= k < |xs| :: xs[k]
  {
    var expected := set k | 0 <= k < |xs| :: xs[k];
    forall x ensures x in values <==> x in expected {
      if x in values {
        var k :| 0 <= k < |words| && ParseNat(words[k]) == Some(x);
        assert xs[k] == x;
      }
      if x in expected {
        var k :| 0 <= k < |xs| && xs[k] == x;
        assert ParseNat(words[k]) == Some(x);
      }
    }
  }

  function Render(xs: seq<nat>): (words: seq<string>)
    ensures |words| == |xs| && forall k :: 0 <= k < |xs| ==> words[k] == NatToString(xs[k])
  {
    if |xs| == 0 then [] else [NatToString(xs[0])] + Render(xs[1..])
  }

  /** The text after the last `": "`; `split` always yields at least one piece. */
  function Body(card: string): (body: string)
    ensures !Contains(body, ": ")
  {
    var pieces := Split(card, ": ");
    pieces[|pieces| - 1]
  }

  /** The pieces of the body around `" | "`. */
  function Halves(card: string): (halves: seq<string>)
    ensures |halves| >= 1
  {
    Split(Body(card), " | ")
  }

  /** `number_of_matches`: the size of the intersection of the two number sets. */
  function NumberOfMatches(card: string): (r: Result<nat>)
  {
    var halves := Halves(card);
    if |halves| != 2 then Err
    else
      match (ParseNumberSet(halves[0]), ParseNumberSet(halves[1]))
      case (Ok(winning), Ok(yours)) => Ok(|winning * yours|)
      case _ => Err
  }

  /** A card is valid exactly when its body splits on `" | "` into two number sets, and
      then it has no more matches than either set has numbers. */
  lemma NumberOfMatchesSpec(card: string)
    ensures NumberOfMatches(card).Ok? <==>
              |Halves(card)| == 2 && ParseNumberSet(Halves(card)[0]).Ok? && ParseNumberSet(Halves(card)[1]).Ok?
    ensures NumberOfMatches(card).Ok? ==>
              && NumberOfMatches(card).value <= |ParseNumberSet(Halves(card)[0]).value|
              && NumberOfMatches(card).value <= |ParseNumberSet(Halves(card)[1]).value|
  {
    var halves := Halves(card);
    if |halves| == 2 && ParseNumberSet(halves[0]).Ok? && ParseNumberSet(halves[1]).Ok? {
      IntersectionSmaller(ParseNumberSet(halves[0]).value, ParseNumberSet(halves[1]).value);
    }
  }

  lemma IntersectionSmaller(a: set<nat>, b: set<nat>)
    ensures |a * b| <= |a| && |a * b| <= |b|
  {
    SubsetCard(a * b, a);
    SubsetCard(a * b, b);
  }

  /** A card whose body holds no `" | "` is an error. */
  lemma MissingSeparator(card: string)
    requires !Contains(Body(card), " | ")
    ensures NumberOfMatches(card).Err?
  {
    assert SplitOnce(Body(card), " | ").None?;
    assert Halves(card) == [Body(card)];
  }

  /** `solve`'s parse: every line reduced to its number of matches, any bad line an
      error (`collect` into a `Result`). */
  function ParseCards(lines: seq<string>): Result<seq<nat>> {
    MapAll(lines, NumberOfMatches)
  }

  /** The puzzle's example cards have 4, 2, 2, 1, 0 and 0 matches: 13 points, and 30
      scratchcards in the end. */
  lemma ExamplePart1()
    ensures Part1([4, 2, 2, 1, 0, 0]) == 13
  {
  }

  lemma ExamplePart2()
    ensures TotalCopies([4, 2, 2, 1, 0, 0], 6) == 30
  {
    var v: seq<nat> := [4, 2, 2, 1, 0, 0];
    assert Copies(v, 0) == 1;
    assert Copies(v, 1) == 2;
    assert Copies(v, 2) == 4;
    assert Copies(v, 3) == 8;
    assert Copies(v, 4) == 14;
    assert Copies(v, 5) == 1;
  }
}
