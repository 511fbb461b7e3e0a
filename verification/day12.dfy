/** Day 12: the hot springs. A record lists springs as operational `.`, damaged `#` or
    unknown `?`; the counts list the lengths of the contiguous groups of damaged springs.
    The answer for a row is the number of ways to decide the unknown springs so that the
    groups come out as the counts.

    The source has two solutions: a brute force that tries every bit pattern on the
    unknown springs, and a memoised recursion over suffixes of the record and the counts.
    The model proves both equal to one left-to-right count, `Ways`, and so to each other.
    Integer arithmetic follows Rust's checked semantics: a `usize` subtraction below zero
    panics. */
module Day12 {
  import opened Wrappers
  import opened Text
  import opened Seqs
  import Arith

  /** Every spring is `.`, `#` or `?`. */
  predicate WellFormed(r: string) {
    forall k :: 0 <= k < |r| ==> r[k] == '.' || r[k] == '#' || r[k] == '?'
  }

  /** Every spring is decided: `.` or `#`. */
  predicate Decided(r: string) {
    forall k :: 0 <= k < |r| ==> r[k] == '.' || r[k] == '#'
  }

  /** Every count is at least 1. */
  predicate Positive(counts: seq<nat>) {
    forall k :: 0 <= k < |counts| ==> counts[k] >= 1
  }

  // ---------------------------------------------------------------------------------
  // Groups of a decided record

  /** The length of the run of springs other than `.` that starts `s`. */
  function RunLength(s: string): (k: nat)
    ensures k <= |s| && (k == |s| || s[k] == '.')
    ensures forall j :: 0 <= j < k ==> s[j] != '.'
    decreases |s|
  {
    if |s| == 0 || s[0] == '.' then 0 else 1 + RunLength(s[1..])
  }

  /** The lengths of the maximal runs of springs other than `.`, left to right. */
  function Groups(s: string): (g: seq<nat>)
    ensures Positive(g)
    decreases |s|
  {
    if |s| == 0 then []
    else if s[0] == '.' then Groups(s[1..])
    else
      var k := RunLength(s);
      [k] + Groups(s[k..])
  }

  /** The lengths of the non-empty pieces, in order. */
  function NonEmptyLengths(parts: seq<string>): seq<nat> {
    if |parts| == 0 then []
    else (if |parts[0]| == 0 then [] else [|parts[0]|]) + NonEmptyLengths(parts[1..])
  }

  /** `is_correct`: the non-empty pieces between the `.`s have the lengths `counts`. */
  predicate IsCorrect(record: string, counts: seq<nat>) {
    NonEmptyLengths(Split(record, ".")) == counts
  }

  /** Splitting on `.` and dropping the empty pieces reads off the groups. */
  lemma {:induction false} SplitGroups(s: string)
    ensures NonEmptyLengths(Split(s, ".")) == Groups(s)
    decreases |s|
  {
    match SplitOnce(s, ".")
    case None =>
      NoCharOccurrence(s, '.');
      if |s| > 0 {
        assert RunLength(s) == |s|;
        assert Groups(s) == [|s|] + Groups(s[|s|..]);
      }
    case Some((before, after)) =>
      assert Split(s, ".") == [before] + Split(after, ".");
      NoCharOccurrence(before, '.');
      assert s[|before|] == '.' by {
        assert s == before + "." + after;
      }
      assert s[|before|..][1..] == after by {
        assert s == before + "." + after;
      }
      SplitGroups(after);
      if |before| == 0 {
        assert s[1..] == after;
      } else {
        assert s[..|before|] == before by {
          assert s == before + "." + after;
        }
        assert RunLength(s) == |before|;
        assert Groups(s[|before|..]) == Groups(after);
      }
  }

  /** A decided record is correct exactly when its groups are the counts. */
  lemma IsCorrectGroups(s: string, counts: seq<nat>)
    ensures IsCorrect(s, counts) <==> Groups(s) == counts
  {
    SplitGroups(s);
  }

  // ---------------------------------------------------------------------------------
  // The left-to-right count

  /** The springs of `r` after the first `k`, or none when `k` runs past the end: the
      source's `record[(i + n + 1).min(record.len())..]`. */
  function After(r: string, k: nat): string {
    if k < |r| then r[k..] else []
  }

  /** The number of ways to decide the unknown springs of `r` so that its groups are
      `counts`, reading `r` from the left: a `.` is skipped, a `#` starts the first group,
      and a `?` may do either. */
  function Ways(r: string, counts: seq<nat>): nat
    decreases |r|, 1
  {
    if |r| == 0 then (if |counts| == 0 then 1 else 0)
    else if r[0] == '.' then Ways(r[1..], counts)
    else if r[0] == '#' then GroupHere(r, counts)
    else Ways(r[1..], counts) + GroupHere(r, counts)
  }

  /** The ways in which the first group starts at the first spring of `r`: it covers
      `counts[0]` springs, none of them `.`, and the spring after it, if any, is not `#`. */
  function GroupHere(r: string, counts: seq<nat>): nat
    requires |r| > 0
    decreases |r|, 0
  {
    if |counts| == 0 || counts[0] == 0 then 0
    else
      var n := counts[0];
      if n <= |r| && '.' !in r[..n] && (n == |r| || r[n] != '#') then Ways(After(r, n + 1), counts[1..])
      else 0
  }

  /** Deciding the first spring as `#` or `?` does not change a group starting there. */
  lemma GroupHereFirst(r: string, counts: seq<nat>, c: char)
    requires |r| > 0 && r[0] != '.' && c != '.'
    ensures GroupHere(r[0 := c], counts) == GroupHere(r, counts)
  {
    if |counts| > 0 && counts[0] > 0 && counts[0] <= |r| {
      var n := counts[0];
      assert ('.' in r[0 := c][..n]) == ('.' in r[..n]) by {
        assert r[0 := c][..n][1..] == r[..n][1..];
      }
      assert After(r[0 := c], n + 1) == After(r, n + 1);
    }
  }

  /** Ways are additive over an unknown spring inside the record: the ways with it `#`
      plus the ways with it `.`. */
  lemma {:induction false} WaysSplit(r: string, counts: seq<nat>, i: nat)
    requires i < |r| && r[i] == '?'
    ensures Ways(r, counts) == Ways(r[i := '#'], counts) + Ways(r[i := '.'], counts)
    decreases |r|, 1
  {
    if i == 0 {
      GroupHereFirst(r, counts, '#');
      assert r[0 := '.'][1..] == r[1..];
    } else {
      assert r[i := '#'][1..] == r[1..][i - 1 := '#'];
      assert r[i := '.'][1..] == r[1..][i - 1 := '.'];
      if r[0] == '.' {
        WaysSplit(r[1..], counts, i - 1);
      } else if r[0] == '#' {
        GroupHereSplit(r, counts, i);
      } else {
        WaysSplit(r[1..], counts, i - 1);
        GroupHereSplit(r, counts, i);
      }
    }
  }

  /** The same for a group starting at the first spring, when the unknown spring is
      further right. */
  lemma {:induction false} GroupHereSplit(r: string, counts: seq<nat>, i: nat)
    requires 0 < i < |r| && r[i] == '?'
    ensures GroupHere(r, counts) == GroupHere(r[i := '#'], counts) + GroupHere(r[i := '.'], counts)
    decreases |r|, 0
  {
    if |counts| > 0 && counts[0] > 0 && counts[0] <= |r| {
      var n := counts[0];
      var h, d := r[i := '#'], r[i := '.'];
      if i < n {
        assert '.' in d[..n] by {
          assert d[..n][i] == '.';
        }
        assert ('.' in h[..n]) == ('.' in r[..n]) by {
          forall j | 0 <= j < n ensures (h[..n][j] == '.') == (r[..n][j] == '.') {
          }
        }
        assert After(h, n + 1) == After(r, n + 1);
      } else if i == n {
        assert h[..n] == r[..n] && d[..n] == r[..n];
        assert After(d, n + 1) == After(r, n + 1);
      } else {
        assert h[..n] == r[..n] && d[..n] == r[..n];
        assert h[n] == r[n] && d[n] == r[n];
        var rest := r[n + 1..];
        assert After(h, n + 1) == rest[i - n - 1 := '#'];
        assert After(d, n + 1) == rest[i - n - 1 := '.'];
        WaysSplit(rest, counts[1..], i - n - 1);
      }
    }
  }

  /** On a decided record there is one way exactly when its groups are the counts. */
  lemma {:induction false} WaysDecided(c: string, counts: seq<nat>)
    requires Decided(c)
    ensures Ways(c, counts) == if Groups(c) == counts then 1 else 0
    decreases |c|
  {
    if |c| == 0 {
    } else if c[0] == '.' {
      WaysDecided(c[1..], counts);
    } else {
      var k := RunLength(c);
      assert Groups(c) == [k] + Groups(c[k..]);
      var tail := After(c, k + 1);
      assert Groups(c[k..]) == Groups(tail) by {
        if k < |c| {
          assert c[k..][1..] == tail;
        }
      }
      WaysDecided(tail, if |counts| > 0 then counts[1..] else []);
      if |counts| > 0 && counts[0] > 0 {
        var n := counts[0];
        var fits := n <= |c| && '.' !in c[..n] && (n == |c| || c[n] != '#');
        if n == k {
          assert fits;
        } else if n < k {
          assert n < |c| && c[n] == '#';
        } else if n <= |c| {
          assert c[..n][k] == '.';
        }
        assert fits <==> n == k;
        if n == k {
          assert (Groups(c) == counts) == (Groups(tail) == counts[1..]) by {
            assert counts == [n] + counts[1..];
          }
        }
      }
    }
  }

  /** With no groups left there is one way if no spring is `#`, and none otherwise. */
  lemma {:induction false} WaysNoGroups(r: string)
    ensures Ways(r, []) == if '#' in r then 0 else 1
    decreases |r|
  {
    if |r| > 0 {
      WaysNoGroups(r[1..]);
      assert ('#' in r) == (r[0] == '#' || '#' in r[1..]) by {
        assert r == [r[0]] + r[1..];
      }
    }
  }

  /** The shortest record that holds the groups `counts`: their lengths and one `.`
      between each two. */
  function Need(counts: seq<nat>): nat {
    if |counts| == 0 then 0
    else
      SumNonneg(counts);
      Sum(counts) + |counts| - 1
  }

  lemma SumNonneg(counts: seq<nat>)
    ensures Sum(counts) >= 0
  {
  }

  /** A record shorter than `Need(counts)` cannot hold the groups. */
  lemma {:induction false} WaysTooShort(r: string, counts: seq<nat>)
    requires |r| < Need(counts)
    ensures Ways(r, counts) == 0
    decreases |r|
  {
    if |r| > 0 {
      if r[0] != '#' {
        WaysTooShort(r[1..], counts);
      }
      if r[0] != '.' && counts[0] > 0 && counts[0] <= |r| {
        var n := counts[0];
        var rest := counts[1..];
        assert Sum(counts) == n + Sum(rest);
        SumNonneg(rest);
        if |rest| > 0 {
          if n + 1 < |r| {
            WaysTooShort(r[n + 1..], rest);
          } else {
            assert After(r, n + 1) == [];
            assert Ways([], rest) == 0;
          }
        }
      }
    }
  }

  // ---------------------------------------------------------------------------------
  // Deciding the unknown springs one at a time

  /** The number of unknown springs. */
  function Unknowns(r: string): nat {
    if |r| == 0 then 0 else (if r[0] == '?' then 1 else 0) + Unknowns(r[1..])
  }

  /** Deciding one unknown spring leaves one fewer. */
  lemma {:induction false} UnknownsUpdate(r: string, i: nat, c: char)
    requires i < |r| && r[i] == '?' && c != '?'
    ensures Unknowns(r[i := c]) == Unknowns(r) - 1
    decreases |r|
  {
    if i > 0 {
      assert r[i := c][1..] == r[1..][i - 1 := c];
      UnknownsUpdate(r[1..], i - 1, c);
    }
  }

  lemma {:induction false} NoUnknowns(r: string)
    ensures Unknowns(r) == 0 <==> '?' !in r
    decreases |r|
  {
    if |r| > 0 {
      NoUnknowns(r[1..]);
      assert r == [r[0]] + r[1..];
    }
  }

  /** `replacen('?', c, 1)`: the leftmost unknown spring decided as `c`. */
  function ReplaceFirst(r: string, c: char): (r': string)
    ensures |r'| == |r|
  {
    match Find(r, "?")
    case None => r
    case Some(i) =>
      OccursAtChar(r, '?', i);
      r[i := c]
  }

  /** The number of decided versions of `r` that `is_correct` accepts, deciding the
      leftmost unknown spring first. */
  function Arrangements(r: string, counts: seq<nat>): nat
    decreases Unknowns(r)
  {
    match Find(r, "?")
    case None => if IsCorrect(r, counts) then 1 else 0
    case Some(i) =>
      OccursAtChar(r, '?', i);
      UnknownsUpdate(r, i, '#');
      UnknownsUpdate(r, i, '.');
      Arrangements(r[i := '#'], counts) + Arrangements(r[i := '.'], counts)
  }

  lemma NoUnknownFound(r: string)
    requires Find(r, "?").None?
    ensures '?' !in r
  {
    NoCharOccurrence(r, '?');
  }

  /** Counting the decided versions is the left-to-right count. */
  lemma {:induction false} ArrangementsWays(r: string, counts: seq<nat>)
    requires WellFormed(r)
    ensures Arrangements(r, counts) == Ways(r, counts)
    decreases Unknowns(r)
  {
    match Find(r, "?")
    case None =>
      NoUnknownFound(r);
      assert Decided(r);
      IsCorrectGroups(r, counts);
      WaysDecided(r, counts);
    case Some(i) =>
      OccursAtChar(r, '?', i);
      UnknownsUpdate(r, i, '#');
      UnknownsUpdate(r, i, '.');
      ArrangementsWays(r[i := '#'], counts);
      ArrangementsWays(r[i := '.'], counts);
      WaysSplit(r, counts, i);
  }

  // ---------------------------------------------------------------------------------
  // The brute force of `possible_arrangements`

  function Pow2(n: nat): (p: nat)
    ensures p >= 1
  {
    if n == 0 then 1 else 2 * Pow2(n - 1)
  }

  /** The spring `(i >> shift) & 1` stands for. */
  function BitSpring(i: nat, shift: nat): char {
    if (i / Pow2(shift)) % 2 == 1 then '#' else '.'
  }

  /** The fold of `possible_arrangements` for the number `i`: for `shift` from its start
      up to `q`, the leftmost unknown spring is decided by bit `shift` of `i`. */
  function Fill(r: string, i: nat, shift: nat, q: nat): string
    decreases q - shift
  {
    if shift >= q then r else Fill(ReplaceFirst(r, BitSpring(i, shift)), i, shift + 1, q)
  }

  /** How many of the numbers below `n` satisfy `f`: `(0..n).filter(f).count()`. */
  function CountBelow(f: nat -> bool, n: nat): nat {
    if n == 0 then 0 else CountBelow(f, n - 1) + (if f(n - 1) then 1 else 0)
  }

  lemma {:induction false} CountBelowExt(f: nat -> bool, g: nat -> bool, n: nat)
    requires forall i: nat :: i < n ==> f(i) == g(i)
    ensures CountBelow(f, n) == CountBelow(g, n)
  {
    if n > 0 {
      CountBelowExt(f, g, n - 1);
    }
  }

  /** The numbers below `2n` are the even ones `2t` and the odd ones `2t + 1`, `t < n`. */
  lemma {:induction false} CountBelowHalves(f: nat -> bool, n: nat)
    ensures CountBelow(f, 2 * n) == CountBelow((t: nat) => f(2 * t), n) + CountBelow((t: nat) => f(2 * t + 1), n)
  {
    if n > 0 {
      CountBelowHalves(f, n - 1);
      assert CountBelow(f, 2 * n) == CountBelow(f, 2 * (n - 1)) + (if f(2 * n - 2) then 1 else 0)
                                     + (if f(2 * n - 1) then 1 else 0);
    }
  }

  datatype Row = Row(record: string, counts: seq<nat>)

  /** `possible_arrangements`: each number below `2^q`, `q` the number of unknown
      springs, decides them all; the accepted results are counted. */
  function PossibleArrangements(row: Row): nat {
    var q := Unknowns(row.record);
    CountBelow((i: nat) => IsCorrect(Fill(row.record, i, 0, q), row.counts), Pow2(q))
  }

  /** The fold with the bits taken off the number one at a time. */
  function FillBits(r: string, j: nat, m: nat): string
    decreases m
  {
    if m == 0 then r else FillBits(ReplaceFirst(r, if j % 2 == 1 then '#' else '.'), j / 2, m - 1)
  }

  lemma DivDouble(i: nat, a: nat)
    requires a > 0
    ensures i / (a * 2) == (i / a) / 2
  {
    var k, b := (i / a) / 2, (i / a) % 2;
    assert i == a * (i / a) + i % a;
    assert i / a == 2 * k + b;
    assert a * (2 * k + b) == (a * 2) * k + a * b;
    assert 0 <= a * b <= a;
    Arith.DivModUnique(i, a * 2, k, a * b + i % a);
  }

  /** `i >> shift`. */
  function Shr(i: nat, shift: nat): nat {
    Quot(i, Pow2(shift))
  }

  function Quot(a: nat, b: nat): nat
    requires b > 0
  {
    a / b
  }

  lemma {:induction false} FillShift(r: string, i: nat, shift: nat, q: nat)
    requires shift <= q
    ensures Fill(r, i, shift, q) == FillBits(r, Shr(i, shift), q - shift)
    decreases q - shift
  {
    if shift < q {
      var r' := ReplaceFirst(r, BitSpring(i, shift));
      FillShift(r', i, shift + 1, q);
      DivDouble(i, Pow2(shift));
      assert Pow2(shift + 1) == Pow2(shift) * 2;
    }
  }

  /** How many bit patterns of `m` bits give a record satisfying `accept`. */
  function CountBits(accept: string -> bool, r: string, m: nat): nat {
    CountBelow((j: nat) => accept(FillBits(r, j, m)), Pow2(m))
  }

  /** The lowest bit decides the leftmost unknown spring. */
  lemma FillBitsLowest(r: string, t: nat, m: nat)
    requires m >= 1
    ensures FillBits(r, 2 * t, m) == FillBits(ReplaceFirst(r, '.'), t, m - 1)
    ensures FillBits(r, 2 * t + 1, m) == FillBits(ReplaceFirst(r, '#'), t, m - 1)
  {
    assert (2 * t) % 2 == 0 && (2 * t) / 2 == t;
    assert (2 * t + 1) % 2 == 1 && (2 * t + 1) / 2 == t;
  }

  /** Splitting the bit patterns on their lowest bit. */
  lemma CountBitsHalves(accept: string -> bool, r: string, m: nat)
    requires m >= 1
    ensures CountBits(accept, r, m) ==
              CountBits(accept, ReplaceFirst(r, '#'), m - 1) + CountBits(accept, ReplaceFirst(r, '.'), m - 1)
  {
    var f := (j: nat) => accept(FillBits(r, j, m));
    var half := Pow2(m - 1);
    var hash, dot := ReplaceFirst(r, '#'), ReplaceFirst(r, '.');
    CountBelowHalves(f, half);
    forall t: nat | t < half
      ensures f(2 * t) == accept(FillBits(dot, t, m - 1))
      ensures f(2 * t + 1) == accept(FillBits(hash, t, m - 1))
    {
      FillBitsLowest(r, t, m);
    }
    CountBelowExt((t: nat) => f(2 * t), (t: nat) => accept(FillBits(dot, t, m - 1)), half);
    CountBelowExt((t: nat) => f(2 * t + 1), (t: nat) => accept(FillBits(hash, t, m - 1)), half);
  }

  /** With no unknown spring the one bit pattern leaves the record as it is. */
  lemma CountBitsNone(accept: string -> bool, r: string)
    ensures CountBits(accept, r, 0) == if accept(r) then 1 else 0
  {
    assert Pow2(0) == 1 && FillBits(r, 0, 0) == r;
    assert CountBits(accept, r, 0) == CountBelow((j: nat) => accept(FillBits(r, j, 0)), 1);
  }

  /** `is_correct` against fixed counts, as a test on records. */
  function Accepts(counts: seq<nat>): string -> bool {
    s => IsCorrect(s, counts)
  }

  /** Trying every bit pattern on the `m` unknown springs counts the decided versions. */
  lemma {:induction false} CountBitsArrangements(r: string, counts: seq<nat>, m: nat)
    requires Unknowns(r) == m
    ensures CountBits(Accepts(counts), r, m) == Arrangements(r, counts)
    decreases m
  {
    hide *;
    match Find(r, "?")
    case None =>
      DecidedArrangements(r, counts);
      CountBitsNone(Accepts(counts), r);
    case Some(i) =>
      var hash, dot := SplitArrangements(r, counts, i);
      CountBitsHalves(Accepts(counts), r, m);
      CountBitsArrangements(hash, counts, m - 1);
      CountBitsArrangements(dot, counts, m - 1);
  }

  /** A decided record has one arrangement if it is correct and none otherwise. */
  lemma DecidedArrangements(r: string, counts: seq<nat>)
    requires Find(r, "?").None?
    ensures Unknowns(r) == 0
    ensures Arrangements(r, counts) == if Accepts(counts)(r) then 1 else 0
  {
    NoUnknownFound(r);
    NoUnknowns(r);
  }

  /** Deciding the leftmost unknown spring both ways splits the arrangements. */
  lemma SplitArrangements(r: string, counts: seq<nat>, i: nat) returns (hash: string, dot: string)
    requires Find(r, "?") == Some(i)
    ensures Unknowns(r) >= 1
    ensures hash == ReplaceFirst(r, '#') && Unknowns(hash) == Unknowns(r) - 1
    ensures dot == ReplaceFirst(r, '.') && Unknowns(dot) == Unknowns(r) - 1
    ensures Arrangements(r, counts) == Arrangements(hash, counts) + Arrangements(dot, counts)
  {
    OccursAtChar(r, '?', i);
    UnknownsUpdate(r, i, '#');
    UnknownsUpdate(r, i, '.');
    hash, dot := r[i := '#'], r[i := '.'];
  }

  /** The fold over the shifts of a fixed number decides the springs as the bits taken
      off one at a time. */
  lemma FillCountBits(accept: string -> bool, r: string, q: nat)
    ensures CountBelow((i: nat) => accept(Fill(r, i, 0, q)), Pow2(q)) == CountBits(accept, r, q)
  {
    forall i: nat | i < Pow2(q)
      ensures accept(Fill(r, i, 0, q)) == accept(FillBits(r, i, q))
    {
      FillShift(r, i, 0, q);
      assert Shr(i, 0) == i;
    }
    CountBelowExt((i: nat) => accept(Fill(r, i, 0, q)), (j: nat) => accept(FillBits(r, j, q)), Pow2(q));
  }

  /** `possible_arrangements` counts the decided versions of the record that
      `is_correct` accepts, which on a well-formed record is the left-to-right count. */
  lemma PossibleArrangementsSpec(row: Row)
    ensures PossibleArrangements(row) == Arrangements(row.record, row.counts)
    ensures WellFormed(row.record) ==> PossibleArrangements(row) == Ways(row.record, row.counts)
  {
    var q := Unknowns(row.record);
    var accept := Accepts(row.counts);
    FillCountBits(accept, row.record, q);
    CountBelowExt((i: nat) => IsCorrect(Fill(row.record, i, 0, q), row.counts),
                  (i: nat) => accept(Fill(row.record, i, 0, q)), Pow2(q));
    CountBitsArrangements(row.record, row.counts, q);
    if WellFormed(row.record) {
      ArrangementsWays(row.record, row.counts);
    }
  }

  // ---------------------------------------------------------------------------------
  // The recursion of `possible_arrangements_dp`

  /** The room the groups after the first need, and the first group itself. */
  lemma NeedFirst(counts: seq<nat>)
    requires |counts| > 0
    ensures |counts| == 1 ==> Need(counts) == counts[0]
    ensures |counts| > 1 ==> Need(counts) == counts[0] + 1 + Need(counts[1..])
    ensures Need(counts) >= counts[0]
  {
    SumNonneg(counts[1..]);
  }

  /** A group of `n` damaged springs can start at `i`: it covers no operational spring
      and is not followed by a damaged one. */
  predicate FitsAt(record: string, i: nat, n: nat)
    requires i + n <= |record|
  {
    '.' !in record[i..i + n] && (i + n == |record| || record[i + n] != '#')
  }

  /** How many start positions the loop tries for the first group: the record's length
      less the room the groups need, plus one, or none when the record is too short. */
  function Starts(record: string, counts: seq<nat>): nat
    requires |counts| > 0
  {
    if |record| >= Need(counts) then |record| - Need(counts) + 1 else 0
  }

  /** `possible_arrangements_dp` without its table: with no groups left, one way exactly
      when no spring is `#`; otherwise the loop over the start positions of the first
      group. A record too short for the groups tries no start. */
  function Dp(record: string, counts: seq<nat>): nat
    decreases |counts|, 1, 0
  {
    if |counts| == 0 then (if '#' in record then 0 else 1)
    else Scan(record, counts, 0)
  }

  /** The loop from start position `i` on. A start counts the ways for the rest when the
      group there covers no `.` and the spring after it is not `#`; the loop stops after
      a start on a `#`, since the first group cannot begin after a damaged spring. */
  function Scan(record: string, counts: seq<nat>, i: nat): nat
    requires |counts| > 0 && i <= Starts(record, counts)
    decreases |counts|, 0, Starts(record, counts) - i
  {
    if i == Starts(record, counts) then 0
    else
      NeedFirst(counts);
      var n := counts[0];
      var here :=
        if FitsAt(record, i, n)
        then Dp(After(record, i + n + 1), counts[1..]) else 0;
      here + (if i < |record| && record[i] == '#' then 0 else Scan(record, counts, i + 1))
  }

  lemma SuffixWellFormed(r: string, k: nat)
    requires WellFormed(r)
    ensures WellFormed(After(r, k))
    ensures k <= |r| ==> WellFormed(r[k..])
  {
  }

  /** The recursion computes the left-to-right count. */
  lemma {:induction false} DpWays(record: string, counts: seq<nat>)
    requires WellFormed(record) && Positive(counts)
    ensures Dp(record, counts) == Ways(record, counts)
    decreases |counts|, 1, 0
  {
    if |counts| == 0 {
      WaysNoGroups(record);
    } else {
      ScanWays(record, counts, 0);
      assert record[0..] == record;
    }
  }

  /** The loop from `i` on counts the ways for the springs from `i` on. */
  lemma {:induction false} ScanWays(record: string, counts: seq<nat>, i: nat)
    requires WellFormed(record) && Positive(counts)
    requires |counts| > 0 && i <= Starts(record, counts) && i <= |record|
    ensures Scan(record, counts, i) == Ways(record[i..], counts)
    decreases |counts|, 0, Starts(record, counts) - i
  {
    NeedFirst(counts);
    var x := record[i..];
    if i == Starts(record, counts) {
      WaysTooShort(x, counts);
    } else {
      GroupHereAt(record, counts, i);
      assert x[1..] == record[i + 1..];
      if record[i] != '#' {
        ScanWays(record, counts, i + 1);
      }
    }
  }

  /** A group starting at `i` as the loop sees it is a group starting at the first
      spring of the suffix from `i`. */
  lemma GroupHereAt(record: string, counts: seq<nat>, i: nat)
    requires WellFormed(record) && Positive(counts)
    requires |counts| > 0 && i < Starts(record, counts) && i + counts[0] <= |record|
    ensures i < |record|
    ensures GroupHere(record[i..], counts) ==
      if FitsAt(record, i, counts[0])
      then Dp(After(record, i + counts[0] + 1), counts[1..]) else 0
    decreases |counts|, 0, 0
  {
    hide *;
    var n := counts[0];
    PositiveTail(counts);
    GroupHereSuffix(record, i, counts);
    SuffixWellFormed(record, i + n + 1);
    DpWays(After(record, i + n + 1), counts[1..]);
  }

  lemma PositiveTail(counts: seq<nat>)
    requires |counts| > 0 && Positive(counts)
    ensures counts[0] > 0 && Positive(counts[1..])
  {
  }

  /** A group at the first spring of the suffix from `i` is a group at `i`. */
  lemma GroupHereSuffix(record: string, i: nat, counts: seq<nat>)
    requires |counts| > 0 && counts[0] > 0 && i + counts[0] <= |record|
    ensures i < |record|
    ensures GroupHere(record[i..], counts) ==
      if FitsAt(record, i, counts[0]) then Ways(After(record, i + counts[0] + 1), counts[1..]) else 0
  {
    hide *;
    var x, n := record[i..], counts[0];
    GroupHereUnfold(x, counts);
    FitsAtIs(record, i, n);
    AfterSuffix(record, i, n + 1);
    assert x[..n] == record[i..i + n];
    assert n < |x| ==> x[n] == record[i + n];
  }

  lemma GroupHereUnfold(x: string, counts: seq<nat>)
    requires |counts| > 0 && 0 < counts[0] <= |x|
    ensures GroupHere(x, counts) ==
      var n := counts[0];
      if '.' !in x[..n] && (n == |x| || x[n] != '#') then Ways(After(x, n + 1), counts[1..]) else 0
  {
  }

  lemma FitsAtIs(record: string, i: nat, n: nat)
    requires i + n <= |record|
    ensures FitsAt(record, i, n) == ('.' !in record[i..i + n] && (i + n == |record| || record[i + n] != '#'))
  {
  }

  lemma AfterSuffix(record: string, i: nat, k: nat)
    requires i <= |record|
    ensures After(record[i..], k) == After(record, i + k)
  {
  }

  /** `possible_arrangements_dp` as written, with `usize` arithmetic checked: the number
      of starts `record.len() - (counts.len() - 1 + sum) - n + 1` underflows, and so
      panics, when the record is shorter than the groups need; `nth(i).unwrap()` panics
      past the end of the record. */
  function DpAsWritten(record: string, counts: seq<nat>): Result<nat>
    decreases |counts|, 1, 0
  {
    if |counts| == 0 then Ok(if '#' in record then 0 else 1)
    else if |record| < Need(counts) then Err
    else ScanAsWritten(record, counts, 0)
  }

  function ScanAsWritten(record: string, counts: seq<nat>, i: nat): Result<nat>
    requires |counts| > 0 && |record| >= Need(counts) && i <= Starts(record, counts)
    decreases |counts|, 0, Starts(record, counts) - i
  {
    if i == Starts(record, counts) then Ok(0)
    else
      NeedFirst(counts);
      var n := counts[0];
      var here :-
        if FitsAt(record, i, n)
        then DpAsWritten(After(record, i + n + 1), counts[1..]) else Ok(0);
      if i >= |record| then Err
      else if record[i] == '#' then Ok(here)
      else
        var rest :- ScanAsWritten(record, counts, i + 1);
        Ok(here + rest)
  }

  /** As written, the recursion panics exactly on a record too short for its groups, and
      otherwise agrees with the corrected one: every inner call gets a record with room
      for its groups. */
  lemma {:induction false} DpAsWrittenSpec(record: string, counts: seq<nat>)
    requires Positive(counts)
    ensures DpAsWritten(record, counts) == if |counts| > 0 && |record| < Need(counts) then Err else Ok(Dp(record, counts))
    decreases |counts|, 1, 0
  {
    if |counts| > 0 && |record| >= Need(counts) {
      ScanAsWrittenSpec(record, counts, 0);
    }
  }

  lemma {:induction false} ScanAsWrittenSpec(record: string, counts: seq<nat>, i: nat)
    requires Positive(counts)
    requires |counts| > 0 && |record| >= Need(counts) && i <= Starts(record, counts)
    ensures ScanAsWritten(record, counts, i) == Ok(Scan(record, counts, i))
    decreases |counts|, 0, Starts(record, counts) - i
  {
    hide *;
    if i == Starts(record, counts) {
      ScanEnd(record, counts, i);
    } else {
      var rest := ScanInner(record, counts, i);
      DpAsWrittenSpec(rest, counts[1..]);
      ScanTurn(record, counts, i);
      if record[i] != '#' {
        ScanAsWrittenSpec(record, counts, i + 1);
      }
    }
  }

  lemma ScanEnd(record: string, counts: seq<nat>, i: nat)
    requires |counts| > 0 && |record| >= Need(counts) && i == Starts(record, counts)
    ensures ScanAsWritten(record, counts, i) == Ok(0) && Scan(record, counts, i) == 0
  {
  }

  /** The record an inner call of the loop at `i` gets has room for the other groups. */
  lemma ScanInner(record: string, counts: seq<nat>, i: nat) returns (rest: string)
    requires Positive(counts)
    requires |counts| > 0 && |record| >= Need(counts) && i < Starts(record, counts)
    ensures rest == After(record, i + counts[0] + 1)
    ensures i < |record| && i + counts[0] <= |record| && Positive(counts[1..])
    ensures |counts| > 1 ==> |rest| >= Need(counts[1..])
  {
    NeedFirst(counts);
    rest := After(record, i + counts[0] + 1);
  }

  /** One turn of the loop, as written and corrected, once the inner call agrees. */
  lemma ScanTurn(record: string, counts: seq<nat>, i: nat)
    requires |counts| > 0 && |record| >= Need(counts) && i < Starts(record, counts)
    requires i < |record| && i + counts[0] <= |record|
    requires var rest := After(record, i + counts[0] + 1);
      DpAsWritten(rest, counts[1..]) == Ok(Dp(rest, counts[1..]))
    ensures var here := if FitsAt(record, i, counts[0]) then Dp(After(record, i + counts[0] + 1), counts[1..]) else 0;
      && Scan(record, counts, i) == here + (if record[i] == '#' then 0 else Scan(record, counts, i + 1))
      && ScanAsWritten(record, counts, i) ==
           if record[i] == '#' then Ok(here)
           else match ScanAsWritten(record, counts, i + 1)
             case Ok(x) => Ok(here + x)
             case Err => Err
  {
    ScanTurnCorrected(record, counts, i);
    ScanTurnAsWritten(record, counts, i);
  }

  lemma ScanTurnCorrected(record: string, counts: seq<nat>, i: nat)
    requires |counts| > 0 && i < Starts(record, counts) && i + counts[0] <= |record| && i < |record|
    ensures var here := if FitsAt(record, i, counts[0]) then Dp(After(record, i + counts[0] + 1), counts[1..]) else 0;
      Scan(record, counts, i) == here + (if record[i] == '#' then 0 else Scan(record, counts, i + 1))
  {
  }

  lemma ScanTurnAsWritten(record: string, counts: seq<nat>, i: nat)
    requires |counts| > 0 && |record| >= Need(counts) && i < Starts(record, counts)
    requires i < |record| && i + counts[0] <= |record|
    requires var rest := After(record, i + counts[0] + 1);
      DpAsWritten(rest, counts[1..]) == Ok(Dp(rest, counts[1..]))
    ensures var here := if FitsAt(record, i, counts[0]) then Dp(After(record, i + counts[0] + 1), counts[1..]) else 0;
      ScanAsWritten(record, counts, i) ==
        if record[i] == '#' then Ok(here)
        else match ScanAsWritten(record, counts, i + 1)
          case Ok(x) => Ok(here + x)
          case Err => Err
  {
  }

  /** A record with no room for two groups: as written the recursion panics, although
      no decided version has two groups. */
  lemma TooShortPanics()
    ensures DpAsWritten(".", [1, 1]) == Err
    ensures Ways(".", [1, 1]) == 0
    ensures PossibleArrangements(Row(".", [1, 1])) == 0
  {
    assert Need([1, 1]) == 3 by {
      NeedFirst([1, 1]);
      assert [1, 1][1..] == [1];
      NeedFirst([1]);
    }
    PossibleArrangementsSpec(Row(".", [1, 1]));
    assert "."[1..] == [];
  }

  /** On a well-formed record with positive counts the recursion and the brute force
      agree. */
  lemma DpPossibleArrangements(row: Row)
    requires WellFormed(row.record) && Positive(row.counts)
    ensures Dp(row.record, row.counts) == PossibleArrangements(row)
  {
    DpWays(row.record, row.counts);
    PossibleArrangementsSpec(row);
  }

  // ---------------------------------------------------------------------------------
  // The memo table

  /** The memo table for a record `R` and counts `C` is indexed by the number of groups
      left and the number of springs left; every entry filled in holds the count for
      those suffixes. */
  predicate TableSound(R: string, C: seq<nat>, table: seq<seq<Option<nat>>>)
  {
    |table| == |C| + 1 &&
    (forall c :: 0 <= c < |table| ==> |table[c]| == |R| + 1) &&
    forall c, l :: 0 <= c <= |C| && 0 <= l <= |R| && table[c][l].Some? ==>
      table[c][l].value == Cell(R, C, c, l)
  }

  /** The count for the last `c` groups of `C` in the last `l` springs of `R`. */
  function Cell(R: string, C: seq<nat>, c: nat, l: nat): nat
    requires c <= |C| && l <= |R|
  {
    Dp(R[|R| - l..], C[|C| - c..])
  }

  /** A table with nothing filled in is sound. */
  function EmptyTable(R: string, C: seq<nat>): (table: seq<seq<Option<nat>>>)
    ensures TableSound(R, C, table)
    ensures forall c, l :: 0 <= c <= |C| && 0 <= l <= |R| ==> table[c][l] == None
  {
    seq(|C| + 1, _ => seq(|R| + 1, _ => None))
  }

  lemma SuffixAfter(R: string, record: string, k: nat)
    requires |record| <= |R| && record == R[|R| - |record|..]
    ensures |After(record, k)| <= |R| && After(record, k) == R[|R| - |After(record, k)|..]
  {
  }

  /** Storing the count for a pair of suffixes keeps the table sound. */
  lemma TableStore(R: string, C: seq<nat>, table: seq<seq<Option<nat>>>, c: nat, l: nat, v: nat)
    requires TableSound(R, C, table) && c <= |C| && l <= |R|
    requires v == Dp(R[|R| - l..], C[|C| - c..])
    ensures TableSound(R, C, table[c := table[c][l := Some(v)]])
  {
  }

  /** One turn of the loop: the start at `i` contributes `here`, and the loop goes on
      unless the spring at `i` is `#`. */
  lemma ScanStep(record: string, counts: seq<nat>, i: nat, here: nat)
    requires |counts| > 0 && i < Starts(record, counts) && i + counts[0] <= |record|
    requires here == if FitsAt(record, i, counts[0])
                     then Dp(After(record, i + counts[0] + 1), counts[1..]) else 0
    ensures i < |record| && record[i] == '#' ==> Scan(record, counts, i) == here
    ensures !(i < |record| && record[i] == '#') ==> Scan(record, counts, i) == here + Scan(record, counts, i + 1)
  {
  }

  /** `possible_arrangements_dp`: the suffixes `record` and `counts` of `R` and `C`
      looked up in, and then stored in, the memo table. */
  method PossibleArrangementsDp(R: string, C: seq<nat>, record: string, counts: seq<nat>,
                                table: seq<seq<Option<nat>>>)
    returns (result: nat, table': seq<seq<Option<nat>>>)
    requires |record| <= |R| && record == R[|R| - |record|..]
    requires |counts| <= |C| && counts == C[|C| - |counts|..]
    requires TableSound(R, C, table)
    ensures result == Dp(record, counts)
    ensures TableSound(R, C, table')
    decreases |counts|, 2
  {
    if |counts| == 0 {
      return (if '#' in record then 0 else 1), table;
    }
    table' := table;
    if table[|counts|][|record|].None? {
      var total;
      total, table' := TryStarts(R, C, record, counts, table');
      TableStore(R, C, table', |counts|, |record|, total);
      table' := table'[|counts| := table'[|counts|][|record| := Some(total)]];
    }
    result := table'[|counts|][|record|].value;
  }

  /** The loop of `possible_arrangements_dp` over the start positions of the first
      group, summing the counts for the rest of the record after each start that fits. */
  method TryStarts(R: string, C: seq<nat>, record: string, counts: seq<nat>,
                   table: seq<seq<Option<nat>>>)
    returns (total: nat, table': seq<seq<Option<nat>>>)
    requires |record| <= |R| && record == R[|R| - |record|..]
    requires 0 < |counts| <= |C| && counts == C[|C| - |counts|..]
    requires TableSound(R, C, table)
    ensures total == Dp(record, counts)
    ensures TableSound(R, C, table')
    decreases |counts|, 1
  {
    NeedFirst(counts);
    var n := counts[0];
    var starts := if |record| >= Need(counts) then |record| - Need(counts) + 1 else 0;
    table' := table;
    total := 0;
    var i := 0;
    while i < starts
      invariant 0 <= i <= starts
      invariant total + Scan(record, counts, i) == Scan(record, counts, 0)
      invariant TableSound(R, C, table')
    {
      var here;
      here, table' := StartAt(R, C, record, counts, i, table');
      ScanStep(record, counts, i, here);
      total := total + here;
      if i < |record| && record[i] == '#' {
        break;
      }
      i := i + 1;
    }
  }

  /** The contribution of the start at `i`: the count for the rest of the record after
      the group, when the group fits there. */
  method StartAt(R: string, C: seq<nat>, record: string, counts: seq<nat>, i: nat,
                 table: seq<seq<Option<nat>>>)
    returns (here: nat, table': seq<seq<Option<nat>>>)
    requires |record| <= |R| && record == R[|R| - |record|..]
    requires 0 < |counts| <= |C| && counts == C[|C| - |counts|..]
    requires i + counts[0] <= |record|
    requires TableSound(R, C, table)
    ensures here == if FitsAt(record, i, counts[0])
                    then Dp(After(record, i + counts[0] + 1), counts[1..]) else 0
    ensures TableSound(R, C, table')
    decreases |counts|, 0, 0
  {
    var n := counts[0];
    here, table' := 0, table;
    if FitsAt(record, i, n) {
      SuffixAfter(R, record, i + n + 1);
      assert counts[1..] == C[|C| - |counts[1..]|..];
      here, table' := PossibleArrangementsDp(R, C, After(record, i + n + 1), counts[1..], table);
    }
  }

  /** `calculate_answer` for one row: a fresh table for the row's record and counts. */
  method ArrangementsDp(row: Row) returns (n: nat)
    ensures n == Dp(row.record, row.counts)
  {
    var table := EmptyTable(row.record, row.counts);
    assert row.record == row.record[|row.record| - |row.record|..];
    assert row.counts == row.counts[|row.counts| - |row.counts|..];
    n, table := PossibleArrangementsDp(row.record, row.counts, row.record, row.counts, table);
  }

  // ---------------------------------------------------------------------------------
  // Unfolding, parsing and the answers

  /** `k` copies of `r` with a `?` between neighbours. */
  function Intersperse(r: string, k: nat): string
    requires k >= 1
  {
    if k == 1 then r else Intersperse(r, k - 1) + "?" + r
  }

  /** `k` copies of `c` one after another. */
  function Cycle(c: seq<nat>, k: nat): seq<nat> {
    if k == 0 then [] else Cycle(c, k - 1) + c
  }

  /** Position `j` of the interspersed copies is the `?` between two copies when it
      falls on the last place of a block of `|r| + 1`, and otherwise the spring at the
      same offset in `r`. */
  lemma {:induction false} IntersperseAt(r: string, k: nat)
    requires k >= 1
    ensures |Intersperse(r, k)| == k * (|r| + 1) - 1
    ensures forall j :: 0 <= j < |Intersperse(r, k)| ==>
      Intersperse(r, k)[j] == if j % (|r| + 1) == |r| then '?' else r[j % (|r| + 1)]
  {
    var m := |r| + 1;
    if k == 1 {
      forall j | 0 <= j < |r| ensures j % m == j {
        Arith.DivModUnique(j, m, 0, j);
      }
    } else {
      hide *;
      IntersperseAt(r, k - 1);
      IntersperseStep(r, k);
      var prev := Intersperse(r, k - 1);
      var s := Intersperse(r, k);
      assert |prev| == (k - 2) * m + |r| by {
        assert (k - 1) * m == (k - 2) * m + m;
      }
      assert |s| == k * m - 1 by {
        assert k * m == (k - 2) * m + 2 * m;
      }
      forall j | 0 <= j < |s|
        ensures s[j] == if j % m == |r| then '?' else r[j % m]
      {
        if j < |prev| {
          assert s[j] == prev[j];
        } else if j == |prev| {
          Arith.DivModUnique(j, m, k - 2, |r|);
        } else {
          var t := j - |prev| - 1;
          assert j == m * (k - 1) + t by {
            assert m * (k - 1) == (k - 2) * m + m;
          }
          Arith.DivModUnique(j, m, k - 1, t);
          assert s[j] == r[t];
        }
      }
    }
  }

  lemma IntersperseStep(r: string, k: nat)
    requires k >= 2
    ensures Intersperse(r, k) == Intersperse(r, k - 1) + "?" + r
  {
  }

  /** Position `j` of the copies is position `j % |c|` of `c`. */
  lemma {:induction false} CycleAt(c: seq<nat>, k: nat)
    ensures |Cycle(c, k)| == k * |c|
    ensures forall j :: 0 <= j < |Cycle(c, k)| ==> Cycle(c, k)[j] == c[j % |c|]
  {
    if k > 0 {
      CycleAt(c, k - 1);
      var prev := Cycle(c, k - 1);
      forall j | 0 <= j < |Cycle(c, k)| ensures Cycle(c, k)[j] == c[j % |c|] {
        if j < |prev| {
          assert Cycle(c, k)[j] == prev[j];
        } else {
          Arith.DivModUnique(j, |c|, k - 1, j - |prev|);
        }
      }
    }
  }

  /** `Row::unfolded`: five copies of the record joined by `?`, and the counts repeated
      five times. */
  function Unfolded(row: Row): (u: Row)
    ensures |u.record| == 5 * |row.record| + 4
    ensures forall j :: 0 <= j < |u.record| ==>
      u.record[j] == if j % (|row.record| + 1) == |row.record| then '?' else row.record[j % (|row.record| + 1)]
    ensures |u.counts| == 5 * |row.counts|
    ensures forall j :: 0 <= j < |u.counts| ==> u.counts[j] == row.counts[j % |row.counts|]
  {
    IntersperseAt(row.record, 5);
    CycleAt(row.counts, 5);
    Row(Intersperse(row.record, 5), Cycle(row.counts, 5))
  }

  /** Unfolding keeps a well-formed record well-formed and positive counts positive. */
  lemma UnfoldedWellFormed(row: Row)
    requires WellFormed(row.record) && Positive(row.counts)
    ensures WellFormed(Unfolded(row).record) && Positive(Unfolded(row).counts)
  {
    var u := Unfolded(row);
    forall j | 0 <= j < |u.record| ensures u.record[j] == '.' || u.record[j] == '#' || u.record[j] == '?' {
      var t := j % (|row.record| + 1);
      if t != |row.record| {
        assert u.record[j] == row.record[t];
      }
    }
    forall j | 0 <= j < |u.counts| ensures u.counts[j] >= 1 {
      assert u.counts[j] == row.counts[j % |row.counts|];
    }
  }

  /** The comma-separated counts; one that is not a number spoils the row. */
  function ParseCounts(pieces: seq<string>): (r: Result<seq<nat>>)
    ensures r.Ok? <==> forall k :: 0 <= k < |pieces| ==> ParseNat(pieces[k]).Some?
    ensures r.Ok? ==> |r.value| == |pieces| && forall k :: 0 <= k < |pieces| ==> Some(r.value[k]) == ParseNat(pieces[k])
  {
    if |pieces| == 0 then Ok([])
    else match ParseNat(pieces[0])
      case None => Err
      case Some(x) =>
        match ParseCounts(pieces[1..])
        case Err => Err
        case Ok(xs) => Ok([x] + xs)
  }

  /** `Row::from_str`: the record before the first space, and after it the counts. */
  function ParseRow(line: string): (r: Result<Row>)
    ensures r.Ok? ==> ' ' !in r.value.record && |r.value.counts| >= 1
  {
    match SplitOnce(line, " ")
    case None => Err
    case Some((record, numbers)) =>
      NoCharOccurrence(record, ' ');
      var counts :- ParseCounts(Split(numbers, ","));
      Ok(Row(record, counts))
  }

  /** A row written out as in the puzzle input. */
  function RenderRow(row: Row): string
    requires |row.counts| >= 1
  {
    row.record + " " + Join(RenderCounts(row.counts), ",")
  }

  function RenderCounts(xs: seq<nat>): (pieces: seq<string>)
    ensures |pieces| == |xs| && forall k :: 0 <= k < |xs| ==> pieces[k] == NatToString(xs[k])
  {
    if |xs| == 0 then [] else [NatToString(xs[0])] + RenderCounts(xs[1..])
  }

  lemma {:induction false} ParseCountsRendered(xs: seq<nat>)
    ensures ParseCounts(RenderCounts(xs)) == Ok(xs)
  {
    if |xs| > 0 {
      ParseNatToString(xs[0]);
      assert RenderCounts(xs)[1..] == RenderCounts(xs[1..]);
      ParseCountsRendered(xs[1..]);
      assert [xs[0]] + xs[1..] == xs;
    }
  }

  /** A row with a space-free record and at least one count is parsed back from its
      rendering. */
  lemma ParseRendered(row: Row)
    requires ' ' !in row.record && |row.counts| >= 1
    ensures ParseRow(RenderRow(row)) == Ok(row)
  {
    var pieces := RenderCounts(row.counts);
    forall k | 0 <= k < |pieces| ensures ',' !in pieces[k] {
      assert AllDigits(NatToString(row.counts[k]));
    }
    SplitJoinChar(pieces, ',');
    SplitOnceAfter(row.record, " ", Join(pieces, ","));
    ParseCountsRendered(row.counts);
  }

  /** `parse_input`: every line a row; a bad line aborts (`expect`), modelled as `Err`. */
  function ParseInput(input: string): (r: Result<seq<Row>>)
    ensures r.Ok? ==> |r.value| == |Lines(input)|
  {
    ParseRows(Lines(input))
  }

  function ParseRows(lines: seq<string>): (r: Result<seq<Row>>)
    ensures r.Ok? <==> forall k :: 0 <= k < |lines| ==> ParseRow(lines[k]).Ok?
    ensures r.Ok? ==> |r.value| == |lines| && forall k :: 0 <= k < |lines| ==> Ok(r.value[k]) == ParseRow(lines[k])
  {
    MapAll(lines, ParseRow)
  }

  /** The sum over the rows of the recursion's counts. */
  function TotalDp(rows: seq<Row>): nat {
    if |rows| == 0 then 0 else TotalDp(rows[..|rows| - 1]) + Dp(rows[|rows| - 1].record, rows[|rows| - 1].counts)
  }

  /** The sum over the rows of the brute-force counts. */
  function TotalArrangements(rows: seq<Row>): nat {
    if |rows| == 0 then 0 else TotalArrangements(rows[..|rows| - 1]) + PossibleArrangements(rows[|rows| - 1])
  }

  predicate Valid(row: Row) {
    WellFormed(row.record) && Positive(row.counts)
  }

  /** On valid rows the two sums agree. */
  lemma {:induction false} TotalsAgree(rows: seq<Row>)
    requires forall k :: 0 <= k < |rows| ==> Valid(rows[k])
    ensures TotalDp(rows) == TotalArrangements(rows)
  {
    if |rows| > 0 {
      TotalsAgree(rows[..|rows| - 1]);
      DpPossibleArrangements(rows[|rows| - 1]);
    }
  }

  /** `calculate_answer`: a fresh table per row, and the counts summed. */
  method CalculateAnswer(rows: seq<Row>) returns (total: nat)
    ensures total == TotalDp(rows)
    ensures (forall k :: 0 <= k < |rows| ==> Valid(rows[k])) ==> total == TotalArrangements(rows)
  {
    total := 0;
    for i := 0 to |rows|
      invariant total == TotalDp(rows[..i])
    {
      var n := ArrangementsDp(rows[i]);
      assert rows[..i + 1][..i] == rows[..i];
      total := total + n;
    }
    assert rows[..|rows|] == rows;
    if forall k :: 0 <= k < |rows| ==> Valid(rows[k]) {
      TotalsAgree(rows);
    }
  }

  /** `part1`. */
  method Part1(rows: seq<Row>) returns (answer: nat)
    ensures (forall k :: 0 <= k < |rows| ==> Valid(rows[k])) ==> answer == TotalArrangements(rows)
  {
    answer := CalculateAnswer(rows);
  }

  /** `part2`: the answer for the unfolded rows; unfolding keeps valid rows valid, so it
      is still the brute-force count. */
  method Part2(rows: seq<Row>) returns (answer: nat)
    ensures (forall k :: 0 <= k < |rows| ==> Valid(rows[k])) ==>
      answer == TotalArrangements(seq(|rows|, k requires 0 <= k < |rows| => Unfolded(rows[k])))
  {
    var unfolded := seq(|rows|, k requires 0 <= k < |rows| => Unfolded(rows[k]));
    if forall k :: 0 <= k < |rows| ==> Valid(rows[k]) {
      forall k | 0 <= k < |unfolded| ensures Valid(unfolded[k]) {
        UnfoldedWellFormed(rows[k]);
      }
    }
    answer := CalculateAnswer(unfolded);
  }

  /** The example `#.#.###` has groups 1, 1, 3. */
  lemma IsCorrectExample()
    ensures IsCorrect("#.#.###", [1, 1, 3])
  {
    assert Groups("###") == [3] by {
      assert "###"[1..] == "##" && "##"[1..] == "#" && "#"[1..] == [];
      assert RunLength("###") == 3;
      assert "###"[3..] == [];
    }
    assert Groups("#.###") == [1, 3] by {
      assert "#.###"[1..] == ".###" && ".###"[1..] == "###";
      assert RunLength("#.###") == 1;
      assert Groups(".###") == [3];
    }
    assert Groups("#.#.###") == [1, 1, 3] by {
      assert "#.#.###"[1..] == ".#.###" && ".#.###"[1..] == "#.###";
      assert RunLength("#.#.###") == 1;
      assert Groups(".#.###") == [1, 3];
    }
    IsCorrectGroups("#.#.###", [1, 1, 3]);
  }
}
