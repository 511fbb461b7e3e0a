/** Day 7: Camel Cards. A hand of five cards is ranked by its type, then card by card;
    part one sorts the bids by hand and sums rank times amount. */
module Day07 {
  import opened Wrappers
  import opened Text
  import Seqs

  /** `card_value`: `'2'..'9'` are worth their digit, then `T J Q K A` are 10 to 14. */
  function CardValue(card: char): (v: Option<nat>)
    ensures v.Some? <==> card in "23456789TJQKA"
    ensures v.Some? ==> 2 <= v.value <= 14
  {
    if IsDigit(card) && card > '1' then Some(card as int - '0' as int)
    else if card == 'T' then Some(10)
    else if card == 'J' then Some(11)
    else if card == 'Q' then Some(12)
    else if card == 'K' then Some(13)
    else if card == 'A' then Some(14)
    else None
  }

  /** The card values in the order of `"23456789TJQKA"`: a card's value is 2 plus its
      position there. */
  lemma CardValueIsPosition(k: nat)
    requires k < 13
    ensures CardValue("23456789TJQKA"[k]) == Some(k + 2)
  {
  }

  /** Derived `Ord` on the enum: declaration order. */
  datatype HandType = HighCard | OnePair | TwoPair | ThreeOfAKind | FullHouse | FourOfAKind | FiveOfAKind

  function TypeRank(t: HandType): nat {
    match t
    case HighCard => 0
    case OnePair => 1
    case TwoPair => 2
    case ThreeOfAKind => 3
    case FullHouse => 4
    case FourOfAKind => 5
    case FiveOfAKind => 6
  }

  datatype Hand = Hand(handType: HandType, handValue: nat)

  /** Derived `Ord` on `Hand`: by type, then by value. */
  predicate HandLess(a: Hand, b: Hand) {
    TypeRank(a.handType) < TypeRank(b.handType)
    || (a.handType == b.handType && a.handValue < b.handValue)
  }

  datatype Bid = Bid(hand: Hand, amount: nat)

  /** How often `c` occurs in `s`. */
  function Count(s: string, c: char): (n: nat)
    ensures n <= |s|
    ensures c in s ==> n >= 1
  {
    if |s| == 0 then 0 else (if s[0] == c then 1 else 0) + Count(s[1..], c)
  }

  /** The distinct cards of `s`, each once (the keys of the `Counter`). */
  function Distinct(s: string): (d: string)
    ensures forall c :: c in d <==> c in s
    ensures forall i, j :: 0 <= i < j < |d| ==> d[i] != d[j]
  {
    if |s| == 0 then []
    else if s[0] in s[1..] then Distinct(s[1..])
    else [s[0]] + Distinct(s[1..])
  }

  /** The multiplicities of the distinct cards. */
  function Multiplicities(s: string): (ms: seq<nat>)
    ensures |ms| == |Distinct(s)|
    ensures forall k :: 0 <= k < |ms| ==> ms[k] == Count(s, Distinct(s)[k])
  {
    var d := Distinct(s);
    seq(|d|, k requires 0 <= k < |d| => Count(s, d[k]))
  }

  /** `Count` is the multiplicity of the multiset of cards. */
  lemma {:induction false} CountIsMultiplicity(s: string, c: char)
    ensures Count(s, c) == multiset(s)[c]
  {
    if |s| > 0 {
      assert s == [s[0]] + s[1..];
      assert multiset(s) == multiset([s[0]]) + multiset(s[1..]);
      CountIsMultiplicity(s[1..], c);
    }
  }

  /** The counts of the cards of `d` in `s`, added up. */
  function CountsSum(s: string, d: string): nat {
    if |d| == 0 then 0 else Count(s, d[0]) + CountsSum(s, d[1..])
  }

  predicate NoRepeats(d: string) {
    forall i, j :: 0 <= i < j < |d| ==> d[i] != d[j]
  }

  lemma {:induction false} CountsSumNone(d: string)
    ensures CountsSum([], d) == 0
  {
    if |d| > 0 {
      CountsSumNone(d[1..]);
    }
  }

  /** Dropping the first card of `s` takes one from the counts of `d` when `d` holds it
      once, and nothing when `d` does not hold it. */
  lemma {:induction false} CountsSumStep(s: string, d: string)
    requires |s| > 0 && NoRepeats(d)
    ensures CountsSum(s, d) == CountsSum(s[1..], d) + (if s[0] in d then 1 else 0)
  {
    if |d| > 0 {
      assert NoRepeats(d[1..]) by {
        forall i, j | 0 <= i < j < |d[1..]| ensures d[1..][i] != d[1..][j] {
          assert d[1..][i] == d[i + 1] && d[1..][j] == d[j + 1];
        }
      }
      CountsSumStep(s, d[1..]);
      assert s[0] in d <==> s[0] == d[0] || s[0] in d[1..];
      if s[0] == d[0] {
        assert s[0] !in d[1..] by {
          forall j | 0 <= j < |d[1..]| ensures d[1..][j] != d[0] {
            assert d[1..][j] == d[j + 1];
          }
        }
      }
    }
  }

  /** Counting every card of `s` once each, through a list holding each card once,
      gives the length of `s`. */
  lemma {:induction false} CountsSumCovering(s: string, d: string)
    requires NoRepeats(d) && forall i :: 0 <= i < |s| ==> s[i] in d
    ensures CountsSum(s, d) == |s|
  {
    if |s| == 0 {
      CountsSumNone(d);
    } else {
      assert s[0] in d;
      CountsSumStep(s, d);
      assert forall i :: 0 <= i < |s[1..]| ==> s[1..][i] == s[i + 1];
      CountsSumCovering(s[1..], d);
    }
  }

  lemma {:induction false} SumCounts(s: string, d: string)
    ensures Seqs.Sum(seq(|d|, k requires 0 <= k < |d| => Count(s, d[k]))) == CountsSum(s, d)
  {
    var xs := seq(|d|, k requires 0 <= k < |d| => Count(s, d[k]));
    if |d| > 0 {
      assert xs[1..] == seq(|d[1..]|, k requires 0 <= k < |d[1..]| => Count(s, d[1..][k]));
      SumCounts(s, d[1..]);
    }
  }

  /** What the `Counter` holds: every multiplicity is that card's number of copies in
      the hand, at least one, and together they add up to the number of cards. */
  lemma MultiplicitiesMeaning(s: string)
    ensures forall k :: 0 <= k < |Multiplicities(s)| ==>
      Multiplicities(s)[k] == multiset(s)[Distinct(s)[k]] >= 1
    ensures Seqs.Sum(Multiplicities(s)) == |s|
  {
    var d := Distinct(s);
    forall k | 0 <= k < |d| ensures Multiplicities(s)[k] == multiset(s)[d[k]] >= 1 {
      CountIsMultiplicity(s, d[k]);
      assert d[k] in s;
    }
    SumCounts(s, d);
    assert forall i :: 0 <= i < |s| ==> s[i] in d;
    CountsSumCovering(s, d);
  }

  /** `(first, second)` are the two largest entries of `xs` (the first two of
      `most_common`), 0 standing for an entry that is missing. */
  ghost predicate IsTopTwo(xs: seq<nat>, first: nat, second: nat) {
    && second <= first
    && (forall i :: 0 <= i < |xs| ==> xs[i] <= first)
    && (forall i, j :: 0 <= i < |xs| && 0 <= j < |xs| && i != j ==> xs[i] <= second || xs[j] <= second)
    && (|xs| >= 1 ==> exists i :: 0 <= i < |xs| && xs[i] == first)
    && (|xs| >= 2 ==> exists i, j :: 0 <= i < |xs| && 0 <= j < |xs| && i != j && xs[i] == first && xs[j] == second)
    && (|xs| < 2 ==> second == 0)
    && (|xs| == 0 ==> first == 0)
  }

  /** One more entry for a running pair of largest entries. */
  function Push(x: nat, first: nat, second: nat): (nat, nat) {
    if x > first then (x, first) else if x > second then (first, x) else (first, second)
  }

  lemma PushKeepsTopTwo(xs: seq<nat>, first: nat, second: nat)
    requires |xs| >= 1 && IsTopTwo(xs[1..], first, second)
    ensures IsTopTwo(xs, Push(xs[0], first, second).0, Push(xs[0], first, second).1)
  {
    var t, x := xs[1..], xs[0];
    assert forall i :: 1 <= i < |xs| ==> xs[i] == t[i - 1];
    var (a, b) := Push(x, first, second);
    if |t| == 0 {
      assert xs[0] == a;
    } else {
      var i :| 0 <= i < |t| && t[i] == first;
      assert xs[i + 1] == first;
      if x > first {
        assert xs[0] == a && xs[i + 1] == b;
      } else if x > second {
        assert xs[i + 1] == a && xs[0] == b;
      } else if |t| == 1 {
        assert xs[i + 1] == a && xs[0] == b;
      } else {
        var i, j :| 0 <= i < |t| && 0 <= j < |t| && i != j && t[i] == first && t[j] == second;
        assert xs[i + 1] == a && xs[j + 1] == b;
      }
    }
  }

  function TopTwo(xs: seq<nat>): (r: (nat, nat))
    ensures IsTopTwo(xs, r.0, r.1)
  {
    if |xs| == 0 then (0, 0)
    else
      var (a, b) := TopTwo(xs[1..]);
      PushKeepsTopTwo(xs, a, b);
      Push(xs[0], a, b)
  }

  /** The hand type from the two largest multiplicities; a hand of five cards has a
      largest multiplicity between 1 and 5, so the source's `panic!` cannot be reached. */
  function TypeOf(first: nat, second: nat): HandType
    requires 1 <= first <= 5
  {
    if first == 5 then FiveOfAKind
    else if first == 4 then FourOfAKind
    else if first == 3 then (if second == 2 then FullHouse else ThreeOfAKind)
    else if first == 2 then (if second == 2 then TwoPair else OnePair)
    else HighCard
  }

  /** The largest multiplicity of a non-empty hand lies between 1 and its length. */
  lemma TopMultiplicityBounds(s: string)
    requires |s| >= 1
    ensures 1 <= TopTwo(Multiplicities(s)).0 <= |s|
  {
    var ms := Multiplicities(s);
    assert s[0] in Distinct(s);
    var k :| 0 <= k < |Distinct(s)| && Distinct(s)[k] == s[0];
    assert ms[k] >= 1;
    var i :| 0 <= i < |ms| && ms[i] == TopTwo(ms).0;
  }

  /** The fold `acc * 100 + v` over the card values. */
  function FoldValue(vs: seq<nat>): nat {
    if |vs| == 0 then 0 else FoldValue(vs[..|vs| - 1]) * 100 + vs[|vs| - 1]
  }

  /** Lexicographic order on equally long sequences. */
  predicate LexLess(xs: seq<nat>, ys: seq<nat>)
    requires |xs| == |ys|
  {
    |xs| > 0 && (xs[0] < ys[0] || (xs[0] == ys[0] && LexLess(xs[1..], ys[1..])))
  }

  predicate Digits100(xs: seq<nat>) {
    forall k :: 0 <= k < |xs| ==> xs[k] < 100
  }

  /** Comparing the folded values of two hands compares their cards one by one, from
      the first card, because every card value is below 100. */
  lemma {:induction false} FoldValueOrder(xs: seq<nat>, ys: seq<nat>)
    requires |xs| == |ys| && Digits100(xs) && Digits100(ys)
    ensures FoldValue(xs) < FoldValue(ys) <==> LexLess(xs, ys)
    ensures FoldValue(xs) == FoldValue(ys) <==> xs == ys
    decreases |xs|
  {
    if |xs| > 0 {
      var n := |xs| - 1;
      var xi, yi := xs[..n], ys[..n];
      FoldValueOrder(xi, yi);
      LexSnoc(xi, yi, xs[n], ys[n]);
      assert xi + [xs[n]] == xs && yi + [ys[n]] == ys;
      if xi != yi {
        assert FoldValue(xi) != FoldValue(yi);
        assert xs != ys by { assert xs[..n] != ys[..n]; }
      }
    }
  }

  /** Lexicographic order extended by one more entry on both sides. */
  lemma {:induction false} LexSnoc(xs: seq<nat>, ys: seq<nat>, a: nat, b: nat)
    requires |xs| == |ys|
    ensures LexLess(xs + [a], ys + [b]) <==> LexLess(xs, ys) || (xs == ys && a < b)
    decreases |xs|
  {
    if |xs| > 0 {
      assert (xs + [a])[1..] == xs[1..] + [a] && (ys + [b])[1..] == ys[1..] + [b];
      LexSnoc(xs[1..], ys[1..], a, b);
      if xs[0] == ys[0] && xs[1..] == ys[1..] {
        assert xs == ys by { assert xs == [xs[0]] + xs[1..] && ys == [ys[0]] + ys[1..]; }
      }
    } else {
      assert xs == ys;
    }
  }

  /** The card values of a hand, `None` if a card is unknown. */
  function CardValues(s: string): (vs: Option<seq<nat>>)
    ensures vs.Some? <==> forall k :: 0 <= k < |s| ==> s[k] in "23456789TJQKA"
    ensures vs.Some? ==> |vs.value| == |s| && forall k :: 0 <= k < |s| ==> Some(vs.value[k]) == CardValue(s[k])
  {
    if |s| == 0 then Some([])
    else match CardValue(s[0])
      case None => None
      case Some(v) =>
        match CardValues(s[1..])
        case None =>
          assert forall k :: 1 <= k < |s| ==> s[1..][k - 1] == s[k];
          None
        case Some(vs) => Some([v] + vs)
  }

  /** `Hand::from_str`: five cards, typed by their two largest multiplicities and valued
      by the fold of their card values. */
  function ParseHand(s: string): (r: Result<Hand>)
    ensures r.Ok? <==> |s| == 5 && forall k :: 0 <= k < 5 ==> s[k] in "23456789TJQKA"
  {
    if |s| != 5 then Err
    else
      var (first, second) := TopTwo(Multiplicities(s));
      TopMultiplicityBounds(s);
      match CardValues(s)
      case None => Err
      case Some(vs) => Ok(Hand(TypeOf(first, second), FoldValue(vs)))
  }

  /** Two parsed hands of the same type compare as their cards do, first card first. */
  lemma ParsedHandOrder(s: string, t: string)
    requires ParseHand(s).Ok? && ParseHand(t).Ok?
    ensures var a, b := ParseHand(s).value, ParseHand(t).value;
            HandLess(a, b) <==>
              TypeRank(a.handType) < TypeRank(b.handType)
              || (a.handType == b.handType && LexLess(CardValues(s).value, CardValues(t).value))
  {
    var vs, ws := CardValues(s).value, CardValues(t).value;
    assert Digits100(vs) && Digits100(ws) by {
      forall k | 0 <= k < 5 ensures vs[k] < 100 && ws[k] < 100 {
        assert Some(vs[k]) == CardValue(s[k]) && Some(ws[k]) == CardValue(t[k]);
      }
    }
    FoldValueOrder(vs, ws);
  }

  /** `Bid::from_str`: a hand and an amount separated by the first space. */
  function ParseBid(line: string): (r: Result<Bid>)
    ensures r.Ok? ==> Contains(line, " ")
  {
    match SplitOnce(line, " ")
    case None => Err
    case Some((hand, amount)) =>
      match ParseHand(hand)
      case Err => Err
      case Ok(h) =>
        match ParseNat(amount)
        case None => Err
        case Some(n) => Ok(Bid(h, n))
  }

  /** `parse_input`: every line a bid; a bad line aborts (`expect`), modelled as
      `None`. */
  function ParseBids(lines: seq<string>): (r: Option<seq<Bid>>)
    ensures r.Some? <==> forall k :: 0 <= k < |lines| ==> ParseBid(lines[k]).Ok?
    ensures r.Some? ==> |r.value| == |lines| && forall k :: 0 <= k < |lines| ==> Ok(r.value[k]) == ParseBid(lines[k])
  {
    if |lines| == 0 then Some([])
    else match ParseBid(lines[0])
      case Err => None
      case Ok(b) =>
        match ParseBids(lines[1..])
        case None => None
        case Some(bs) => Some([b] + bs)
  }

  /** One step of the stable sort: `b`, which came before every bid of `sorted` in the
      input, goes before the first of them whose hand is not smaller. */
  function Insert(b: Bid, sorted: seq<Bid>): seq<Bid> {
    if |sorted| == 0 then [b]
    else if !HandLess(sorted[0].hand, b.hand) then [b] + sorted
    else [sorted[0]] + Insert(b, sorted[1..])
  }

  /** Inserting adds exactly `b`. */
  lemma {:induction false} InsertPermutes(b: Bid, sorted: seq<Bid>)
    ensures multiset(Insert(b, sorted)) == multiset(sorted) + multiset{b}
  {
    if |sorted| > 0 && HandLess(sorted[0].hand, b.hand) {
      InsertPermutes(b, sorted[1..]);
      assert [sorted[0]] + sorted[1..] == sorted;
    }
  }

  /** Inserting into a sorted sequence keeps it sorted. */
  lemma {:induction false} InsertSorted(b: Bid, sorted: seq<Bid>)
    requires Sorted(sorted)
    ensures Sorted(Insert(b, sorted))
  {
    if |sorted| > 0 {
      if !HandLess(sorted[0].hand, b.hand) {
        PrependSorted(b, sorted);
      } else {
        var rest := Insert(b, sorted[1..]);
        InsertSorted(b, sorted[1..]);
        InsertPermutes(b, sorted[1..]);
        forall k | 0 <= k < |rest| ensures !HandLess(rest[k].hand, sorted[0].hand) {
          assert rest[k] in multiset(rest);
          if rest[k] != b {
            var j :| 0 <= j < |sorted[1..]| && sorted[1..][j] == rest[k];
            assert sorted[j + 1] == rest[k];
          }
        }
        PrependSorted(sorted[0], rest);
      }
    }
  }

  /** A bid no larger than the head of a sorted sequence can go in front of it. */
  lemma PrependSorted(b: Bid, sorted: seq<Bid>)
    requires Sorted(sorted)
    requires forall k :: 0 <= k < |sorted| ==> !HandLess(sorted[k].hand, b.hand)
    ensures Sorted([b] + sorted)
  {
    var r := [b] + sorted;
    forall i, j | 0 <= i < j < |r| ensures !HandLess(r[j].hand, r[i].hand) {
      assert r[j] == sorted[j - 1];
      if i > 0 {
        assert r[i] == sorted[i - 1];
      }
    }
  }

  /** Ascending by hand: no bid is followed by one with a smaller hand. */
  predicate Sorted(bids: seq<Bid>) {
    forall i, j :: 0 <= i < j < |bids| ==> !HandLess(bids[j].hand, bids[i].hand)
  }

  /** The stable sort (`sort_by`): each bid inserted into the sorted later bids. */
  function Sort(bids: seq<Bid>): seq<Bid> {
    if |bids| == 0 then [] else Insert(bids[0], Sort(bids[1..]))
  }

  /** The sort orders the bids by hand and keeps every bid. */
  lemma {:induction false} SortSpec(bids: seq<Bid>)
    ensures Sorted(Sort(bids))
    ensures multiset(Sort(bids)) == multiset(bids)
  {
    if |bids| > 0 {
      SortSpec(bids[1..]);
      InsertSorted(bids[0], Sort(bids[1..]));
      InsertPermutes(bids[0], Sort(bids[1..]));
      assert [bids[0]] + bids[1..] == bids;
    }
  }

  /** The winnings of bids ranked `rank`, `rank + 1`, ... */
  function Winnings(bids: seq<Bid>, rank: nat): nat {
    if |bids| == 0 then 0 else rank * bids[0].amount + Winnings(bids[1..], rank + 1)
  }

  /** `part1`: the bids sorted by hand, each amount times its 1-based rank. */
  function Part1(bids: seq<Bid>): nat {
    Winnings(Sort(bids), 1)
  }

  /** Every bid's amount counts at least once: the winnings are at least the total
      amount. */
  lemma {:induction false} WinningsAtLeastTotal(bids: seq<Bid>, rank: nat)
    requires rank >= 1
    ensures Winnings(bids, rank) >= Total(bids)
  {
    if |bids| > 0 {
      WinningsAtLeastTotal(bids[1..], rank + 1);
    }
  }

  function Total(bids: seq<Bid>): nat {
    if |bids| == 0 then 0 else bids[0].amount + Total(bids[1..])
  }

  /** The example hands, already parsed, win 6440 in total. */
  lemma ExamplePart1()
    ensures Part1([ Bid(Hand(OnePair, 302100313), 765),
                    Bid(Hand(ThreeOfAKind, 1005051105), 684),
                    Bid(Hand(TwoPair, 1313060707), 28),
                    Bid(Hand(TwoPair, 1310111110), 220),
                    Bid(Hand(ThreeOfAKind, 1212121114), 483) ]) == 6440
  {
  }
}
