/** Day 6: boat races. Holding the button for `x` of the race's `time` milliseconds
    gives speed `x` for the remaining `time - x`; a hold wins when the distance covered
    beats the record. */
module Day06 {
  import opened Wrappers
  import opened Text
  import Arith

  datatype Race = Race(time: nat, distance: nat)

  /** The filter of `ways_to_win`, evaluated on signed integers as the source does. */
  predicate Wins(race: Race, x: int) {
    -x * x + race.time as int * x - race.distance as int > 0
  }

  /** The number of winning holds in `[x, time]`. */
  function CountFrom(race: Race, x: nat): (n: nat)
    ensures n <= if x <= race.time then race.time + 1 - x else 0
    decreases race.time + 1 - x
  {
    if x > race.time then 0 else (if Wins(race, x) then 1 else 0) + CountFrom(race, x + 1)
  }

  /** `ways_to_win`: the number of holds in `0..=time` that win. */
  function WaysToWin(race: Race): (n: nat)
    ensures n <= race.time + 1
  {
    CountFrom(race, 0)
  }

  ghost function WinningFrom(race: Race, x: nat): set<nat> {
    set z: nat | x <= z <= race.time && Wins(race, z)
  }

  /** `ways_to_win` is the size of the set of winning holds. */
  lemma {:induction false} CountIsCardinality(race: Race, x: nat)
    ensures CountFrom(race, x) == |WinningFrom(race, x)|
    decreases race.time + 1 - x
  {
    hide Wins;
    if x > race.time {
      assert WinningFrom(race, x) == {};
    } else {
      CountIsCardinality(race, x + 1);
      if Wins(race, x) {
        assert WinningFrom(race, x) == WinningFrom(race, x + 1) + {x};
      } else {
        assert WinningFrom(race, x) == WinningFrom(race, x + 1);
      }
    }
  }

  lemma WaysToWinIsCardinality(race: Race)
    ensures WaysToWin(race) == |WinningFrom(race, 0)|
  {
    CountIsCardinality(race, 0);
  }

  /** Holding for `x` and holding for `time - x` cover the same distance. */
  lemma WinsSymmetric(race: Race, x: int)
    ensures Wins(race, x) <==> Wins(race, race.time - x)
  {
    var t := race.time as int;
    assert -(t - x) * (t - x) + t * (t - x) == -x * x + t * x by {
      assert (t - x) * (t - x) == t * t - 2 * t * x + x * x;
      assert t * (t - x) == t * t - t * x;
    }
  }

  /** The winning holds form an interval: a hold between two winning holds wins. */
  lemma WinsBetween(race: Race, x: int, y: int, z: int)
    requires Wins(race, x) && Wins(race, y) && x <= z <= y
    ensures Wins(race, z)
  {
    var t := race.time as int;
    if z + x <= t {
      assert (-z * z + t * z) - (-x * x + t * x) == (z - x) * (t - z - x);
      MulNonNegative(z - x, t - z - x);
    } else {
      assert (-z * z + t * z) - (-y * y + t * y) == (y - z) * (z + y - t);
      MulNonNegative(y - z, z + y - t);
    }
  }

  lemma MulNonNegative(a: int, b: int)
    requires a >= 0 && b >= 0
    ensures a * b >= 0
  {
  }

  /** `part1`: the product of the ways to win. */
  function Part1(races: seq<Race>): nat {
    if |races| == 0 then 1 else WaysToWin(races[0]) * Part1(races[1..])
  }

  /** The reduction of `part2`: times glued with the fixed factor 100, distances with the
      fixed factor 10000. */
  function MergeFixed(a: Race, b: Race): Race {
    Race(a.time * 100 + b.time, a.distance * 10000 + b.distance)
  }

  function ReduceFixed(races: seq<Race>): Race
    requires |races| >= 1
    decreases |races|
  {
    if |races| == 1 then races[0]
    else MergeFixed(ReduceFixed(races[..|races| - 1]), races[|races| - 1])
  }

  /** `part2` as written: `reduce` then `unwrap`, so no races means a panic (`None`). */
  function Part2Fixed(races: seq<Race>): (r: Option<nat>)
    ensures r.Some? <==> |races| >= 1
    ensures r.Some? ==> r.value <= ReduceFixed(races).time + 1
  {
    if |races| == 0 then None else Some(WaysToWin(ReduceFixed(races)))
  }

  /** The race the fixed factors build from the example races is not the one written by
      joining their digits: the distances 9, 40 and 200 become 900400200, not 940200. */
  lemma FixedFactorsMisreadExample()
    ensures ReduceFixed([Race(7, 9), Race(15, 40), Race(30, 200)]) == Race(71530, 900400200)
    ensures ParseNat(NatToString(9) + NatToString(40) + NatToString(200)) == Some(940200)
  {
    assert [Race(7, 9), Race(15, 40), Race(30, 200)][..2] == [Race(7, 9), Race(15, 40)];
    assert [Race(7, 9), Race(15, 40)][..1] == [Race(7, 9)];
    DigitsOfJoin();
  }

  lemma DigitsOfJoin()
    ensures NatToString(9) + NatToString(40) + NatToString(200) == "940200"
    ensures ParseNat("940200") == Some(940200)
  {
    assert NatToString(40) == NatToString(4) + [DigitChar(0)];
    assert NatToString(200) == NatToString(20) + [DigitChar(0)];
    assert NatToString(20) == NatToString(2) + [DigitChar(0)];
    assert "940200"[..5] == "94020";
    assert "94020"[..4] == "9402";
    assert "9402"[..3] == "940";
    assert "940"[..2] == "94";
    assert "94"[..1] == "9";
    assert "9"[..0] == "";
  }

  /** `10^n`. */
  function Pow10(n: nat): (p: nat)
    ensures p >= 1
  {
    if n == 0 then 1 else 10 * Pow10(n - 1)
  }

  /** Gluing numbers the way the puzzle's kerning does: the decimal digits of `b` after
      those of `a`. */
  function Glue(a: nat, b: nat): nat {
    a * Pow10(|NatToString(b)|) + b
  }

  /** `Glue` writes the digits of `b` after the digits of `a`. */
  lemma {:induction false} GlueIsDigitConcat(a: nat, b: nat)
    ensures DigitsValue(NatToString(a) + NatToString(b)) == Glue(a, b)
  {
    DigitsValueOfNatToString(b);
    DigitsValueConcat(NatToString(a), NatToString(b));
    DigitsValueOfNatToString(a);
  }

  lemma {:induction false} DigitsValueConcat(s: string, t: string)
    requires AllDigits(s) && AllDigits(t)
    ensures AllDigits(s + t)
    ensures DigitsValue(s + t) == DigitsValue(s) * Pow10(|t|) + DigitsValue(t)
    decreases |t|
  {
    if |t| == 0 {
      assert s + t == s;
    } else {
      var u, t' := s + t, t[..|t| - 1];
      assert u[..|u| - 1] == s + t';
      DigitsValueConcat(s, t');
      var d: int, q: int := DigitsValue(s), Pow10(|t| - 1);
      assert DigitsValue(u) == DigitsValue(s + t') * 10 + DigitValue(t[|t| - 1]);
      assert Pow10(|t|) == 10 * q;
      Arith.Assoc(d, q, 10);
    }
  }

  /** The corrected reduction: times and distances glued digit by digit. */
  function MergeGlued(a: Race, b: Race): Race {
    Race(Glue(a.time, b.time), Glue(a.distance, b.distance))
  }

  function ReduceGlued(races: seq<Race>): Race
    requires |races| >= 1
    decreases |races|
  {
    if |races| == 1 then races[0]
    else MergeGlued(ReduceGlued(races[..|races| - 1]), races[|races| - 1])
  }

  /** The merged race's time reads as the races' times written one after another. */
  lemma {:induction false} ReduceGluedReadsDigits(races: seq<Race>)
    requires |races| >= 1
    ensures DigitsValue(TimesText(races)) == ReduceGlued(races).time
    ensures DigitsValue(DistancesText(races)) == ReduceGlued(races).distance
    decreases |races|
  {
    if |races| == 1 {
      DigitsValueOfNatToString(races[0].time);
      DigitsValueOfNatToString(races[0].distance);
    } else {
      var init, last := races[..|races| - 1], races[|races| - 1];
      ReduceGluedReadsDigits(init);
      assert TimesText(races) == TimesText(init) + NatToString(last.time);
      assert DistancesText(races) == DistancesText(init) + NatToString(last.distance);
      DigitsValueConcat(TimesText(init), NatToString(last.time));
      DigitsValueConcat(DistancesText(init), NatToString(last.distance));
      DigitsValueOfNatToString(last.time);
      DigitsValueOfNatToString(last.distance);
    }
  }

  /** The times written one after another, without separators. */
  function TimesText(races: seq<Race>): (s: string)
    requires |races| >= 1
    ensures AllDigits(s)
    decreases |races|
  {
    if |races| == 1 then NatToString(races[0].time)
    else
      var s := TimesText(races[..|races| - 1]) + NatToString(races[|races| - 1].time);
      DigitsValueConcat(TimesText(races[..|races| - 1]), NatToString(races[|races| - 1].time));
      s
  }

  function DistancesText(races: seq<Race>): (s: string)
    requires |races| >= 1
    ensures AllDigits(s)
    decreases |races|
  {
    if |races| == 1 then NatToString(races[0].distance)
    else
      var s := DistancesText(races[..|races| - 1]) + NatToString(races[|races| - 1].distance);
      DigitsValueConcat(DistancesText(races[..|races| - 1]), NatToString(races[|races| - 1].distance));
      s
  }

  /** `part2` with the races glued digit by digit. */
  function Part2(races: seq<Race>): (r: Option<nat>)
    ensures r.Some? <==> |races| >= 1
    ensures r.Some? ==> r.value <= ReduceGlued(races).time + 1
  {
    if |races| == 0 then None else Some(WaysToWin(ReduceGlued(races)))
  }

  /** `parse_line`: the numbers after the first `": "`, separated by whitespace. */
  function ParseLine(line: string): (r: Result<seq<nat>>)
    ensures r.Ok? ==> Contains(line, ": ")
  {
    match SplitOnce(line, ": ")
    case None => Err
    case Some((_, numbers)) => ParseNats(SplitWhitespace(numbers))
  }

  function ParseNats(words: seq<string>): (r: Result<seq<nat>>)
    ensures r.Ok? <==> forall k :: 0 <= k < |words| ==> ParseNat(words[k]).Some?
    ensures r.Ok? ==> |r.value| == |words| && forall k :: 0 <= k < |words| ==> Some(r.value[k]) == ParseNat(words[k])
  {
    if |words| == 0 then Ok([])
    else match ParseNat(words[0])
      case None => Err
      case Some(x) =>
        match ParseNats(words[1..])
        case Err => Err
        case Ok(xs) => Ok([x] + xs)
  }

  /** `zip`: pairs up times and distances, stopping at the shorter list. */
  function Zip(times: seq<nat>, distances: seq<nat>): (races: seq<Race>)
    ensures |races| == if |times| < |distances| then |times| else |distances|
    ensures forall k :: 0 <= k < |races| ==> races[k] == Race(times[k], distances[k])
  {
    if |times| == 0 || |distances| == 0 then []
    else [Race(times[0], distances[0])] + Zip(times[1..], distances[1..])
  }

  /** `parse_input`: the first line holds the times and the rest the distances; a
      missing newline or a bad line panics (`None`). */
  function ParseInput(input: string): (races: Option<seq<Race>>)
    ensures races.Some? ==> Contains(input, "\n")
  {
    match SplitOnce(input, "\n")
    case None => None
    case Some((times, distances)) =>
      match (ParseLine(times), ParseLine(distances))
      case (Ok(ts), Ok(ds)) => Some(Zip(ts, ds))
      case _ => None
  }

  /** The numbers written in decimal, one word each. */
  function Words(ns: seq<nat>): (words: seq<string>)
    ensures |words| == |ns|
    ensures forall k :: 0 <= k < |ns| ==> words[k] == NatToString(ns[k])
  {
    seq(|ns|, k requires 0 <= k < |ns| => NatToString(ns[k]))
  }

  /** A line written as `"<name>: "` followed by its numbers separated by spaces. */
  function RenderLine(name: string, ns: seq<nat>): string
    requires |ns| >= 1
  {
    name + ": " + Join(Words(ns), " ")
  }

  /** A written line reads back as its numbers, whatever name precedes them. */
  lemma ParseLineRendered(name: string, ns: seq<nat>)
    requires |ns| >= 1 && ':' !in name
    ensures ParseLine(RenderLine(name, ns)) == Ok(ns)
  {
    var words := Words(ns);
    forall k | 0 <= k < |words| ensures IsWord(words[k]) {
      NatToStringDigits(ns[k]);
      forall j | 0 <= j < |words[k]| ensures !IsWhitespace(words[k][j]) {
        assert words[k][j] in words[k];
      }
    }
    SplitWhitespaceJoin(words);
    SeparatorAbsent(name, ": ");
    SplitOnceAt(name, ": ", Join(words, " "));
    forall k | 0 <= k < |ns| ensures ParseNat(words[k]) == Some(ns[k]) {
      ParseNatToString(ns[k]);
    }
    var r := ParseNats(words);
    assert r.Ok? && |r.value| == |ns|;
    assert forall k :: 0 <= k < |ns| ==> r.value[k] == ns[k];
    assert r.value == ns;
  }

  /** The races written as the puzzle does: a `Time:` line, a newline and a `Distance:`
      line. */
  function RenderRaces(races: seq<Race>): string
    requires |races| >= 1
  {
    RenderLine("Time", seq(|races|, k requires 0 <= k < |races| => races[k].time))
      + "\n" + RenderLine("Distance", seq(|races|, k requires 0 <= k < |races| => races[k].distance))
  }

  /** Written races read back as themselves. */
  lemma ParseInputRendered(races: seq<Race>)
    requires |races| >= 1
    ensures ParseInput(RenderRaces(races)) == Some(races)
  {
    var times := seq(|races|, k requires 0 <= k < |races| => races[k].time);
    var distances := seq(|races|, k requires 0 <= k < |races| => races[k].distance);
    var first := RenderLine("Time", times);
    var words := Words(times);
    forall k | 0 <= k < |words| ensures '\n' !in words[k] {
      NatToStringDigits(times[k]);
    }
    JoinAvoids(words, " ", '\n');
    assert '\n' !in first;
    SeparatorAbsent(first, "\n");
    SplitOnceAt(first, "\n", RenderLine("Distance", distances));
    ParseLineRendered("Time", times);
    ParseLineRendered("Distance", distances);
    var zipped := Zip(times, distances);
    assert forall k :: 0 <= k < |races| ==> zipped[k] == races[k];
    assert zipped == races;
  }

  lemma ExampleRace1()
    ensures WaysToWin(Race(7, 9)) == 4
  {
  }

  lemma ExampleRace2()
    ensures WaysToWin(Race(15, 40)) == 8
  {
    var r := Race(15, 40);
    assert CountFrom(r, 12) == 0;
    assert CountFrom(r, 8) == 4;
    assert CountFrom(r, 4) == 8;
  }

  lemma ExampleRace3()
    ensures WaysToWin(Race(30, 200)) == 9
  {
    var r := Race(30, 200);
    assert CountFrom(r, 26) == 0;
    assert CountFrom(r, 21) == 0;
    assert CountFrom(r, 16) == 4;
    assert CountFrom(r, 11) == 9;
    assert CountFrom(r, 6) == 9;
  }

  /** The example races win in 4, 8 and 9 ways, so part one gives 288. */
  lemma ExamplePart1()
    ensures Part1([Race(7, 9), Race(15, 40), Race(30, 200)]) == 288
  {
    ExampleRace1();
    ExampleRace2();
    ExampleRace3();
  }
}
