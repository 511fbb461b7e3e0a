/** Day 19: parts rated in four categories flow through named workflows of rules.

    Part one follows one part from workflow `in` until it is accepted or rejected.
    Part two pushes boxes of ratings through the same workflows and obtains disjoint
    boxes that hold exactly the accepted parts with ratings 1 to 4000.

    `usize` arithmetic is checked, as in a debug build: `LT(0)` cannot be inverted or
    turned into a range, and a panic is `Err`. The chain of workflow lookups is
    bounded by `fuel`; running out of fuel is also `Err`. */
module Day19 {
  import opened Wrappers
  import opened Text
  import Seqs

  // ---------------------------------------------------------------------------------
  // Parts, comparisons and rules

  datatype Category = X | M | A | S

  function CategoryName(c: Category): string {
    match c
    case X => "x"
    case M => "m"
    case A => "a"
    case S => "s"
  }

  /** `RatingCategory::from_str`: one of the four letters. */
  function ParseCategory(s: string): (r: Result<Category>)
    ensures forall c :: r == Ok(c) <==> s == CategoryName(c)
  {
    if s == "x" then Ok(X)
    else if s == "m" then Ok(M)
    else if s == "a" then Ok(A)
    else if s == "s" then Ok(S)
    else Err
  }

  datatype Part = Part(x: nat, m: nat, a: nat, s: nat)

  /** `RatingCategory::get`. */
  function Get(c: Category, p: Part): nat {
    match c
    case X => p.x
    case M => p.m
    case A => p.a
    case S => p.s
  }

  /** `Part::value`: the sum of the four ratings. */
  function Value(p: Part): nat {
    p.x + p.m + p.a + p.s
  }

  datatype Comparison = LT(rhs: nat) | GT(rhs: nat)

  /** `Comparison::test`. */
  predicate Test(cmp: Comparison, lhs: nat) {
    match cmp
    case LT(r) => lhs < r
    case GT(r) => lhs > r
  }

  /** `Comparison::inverted`: the comparison that holds exactly where `cmp` fails.
      `LT(0)` has none, and `0 - 1` panics. */
  function Inverted(cmp: Comparison): (r: Result<Comparison>)
    ensures r.Err? <==> cmp == LT(0)
    ensures r.Ok? ==> forall v: nat :: Test(r.value, v) <==> !Test(cmp, v)
  {
    match cmp
    case LT(r) => if r == 0 then Err else Ok(GT(r - 1))
    case GT(r) => Ok(LT(r + 1))
  }

  datatype Target = Accept | Reject | Next(name: string)

  /** `RuleTarget::from_str`: `A`, `R`, or the name of a workflow. */
  function ParseTarget(s: string): (t: Target)
    ensures t == Accept <==> s == "A"
    ensures t == Reject <==> s == "R"
    ensures t.Next? ==> t.name == s
  {
    if s == "A" then Accept else if s == "R" then Reject else Next(s)
  }

  function TargetName(t: Target): string {
    match t
    case Accept => "A"
    case Reject => "R"
    case Next(name) => name
  }

  datatype Rule = Conditional(cat: Category, cmp: Comparison, target: Target) | Unconditional(target: Target)

  /** `Rule::eval`: the rule's target when its condition holds for the part. */
  function EvalRule(rule: Rule, p: Part): (r: Option<Target>)
    ensures r.Some? <==> rule.Unconditional? || Test(rule.cmp, Get(rule.cat, p))
    ensures r.Some? ==> r.value == rule.target
  {
    match rule
    case Conditional(c, cmp, t) => if Test(cmp, Get(c, p)) then Some(t) else None
    case Unconditional(t) => Some(t)
  }

  datatype Workflow = Workflow(name: string, rules: seq<Rule>)

  /** `Workflow::eval`: the target of the first rule that applies; when none does,
      `expect` panics. */
  function EvalRules(rules: seq<Rule>, p: Part): (r: Result<Target>)
    ensures r.Ok? <==> exists k :: 0 <= k < |rules| && EvalRule(rules[k], p).Some?
    ensures r.Ok? ==> exists k :: 0 <= k < |rules| && EvalRule(rules[k], p) == Some(r.value) &&
                                  forall j :: 0 <= j < k ==> EvalRule(rules[j], p).None?
  {
    if |rules| == 0 then Err
    else match EvalRule(rules[0], p)
      case Some(t) => Ok(t)
      case None =>
        var r := EvalRules(rules[1..], p);
        assert r.Ok? ==> exists k :: 0 <= k < |rules| && EvalRule(rules[k], p) == Some(r.value) &&
                                     forall j :: 0 <= j < k ==> EvalRule(rules[j], p).None? by {
          if r.Ok? {
            var k :| 0 <= k < |rules[1..]| && EvalRule(rules[1..][k], p) == Some(r.value) &&
                     forall j :: 0 <= j < k ==> EvalRule(rules[1..][j], p).None?;
            assert EvalRule(rules[k + 1], p) == Some(r.value);
            assert forall j :: 0 <= j < k + 1 ==> EvalRule(rules[j], p).None? by {
              forall j | 0 <= j < k + 1 ensures EvalRule(rules[j], p).None? {
                if j > 0 {
                  assert rules[j] == rules[1..][j - 1];
                }
              }
            }
          }
        }
        assert (exists k :: 0 <= k < |rules| && EvalRule(rules[k], p).Some?) ==>
               (exists k :: 0 <= k < |rules[1..]| && EvalRule(rules[1..][k], p).Some?) by {
          if exists k :: 0 <= k < |rules| && EvalRule(rules[k], p).Some? {
            var k :| 0 <= k < |rules| && EvalRule(rules[k], p).Some?;
            assert rules[1..][k - 1] == rules[k];
          }
        }
        r
  }

  /** The workflows by name. */
  type System = map<string, Workflow>

  /** `System::_is_accepted`: follow the targets from `target`. A missing workflow
      panics in `unwrap`; a chain longer than `fuel` is also `Err`. */
  function AcceptedFrom(sys: System, target: Target, p: Part, fuel: nat): (r: Result<bool>)
    ensures target == Accept ==> r == Ok(true)
    ensures target == Reject ==> r == Ok(false)
    ensures r.Ok? && target.Next? ==>
      fuel > 0 && target.name in sys && EvalRules(sys[target.name].rules, p).Ok?
    decreases fuel
  {
    match target
    case Accept => Ok(true)
    case Reject => Ok(false)
    case Next(name) =>
      if fuel == 0 || name !in sys then Err
      else
        var t :- EvalRules(sys[name].rules, p);
        AcceptedFrom(sys, t, p, fuel - 1)
  }

  /** An answer found with some fuel is the answer with any more fuel. */
  lemma {:induction false} AcceptedFuel(sys: System, target: Target, p: Part, fuel: nat, more: nat)
    requires AcceptedFrom(sys, target, p, fuel).Ok? && fuel <= more
    ensures AcceptedFrom(sys, target, p, more) == AcceptedFrom(sys, target, p, fuel)
    decreases fuel
  {
    if target.Next? {
      var t := EvalRules(sys[target.name].rules, p).value;
      AcceptedFuel(sys, t, p, fuel - 1, more - 1);
    }
  }

  /** `System::is_accepted`: start at workflow `in`. */
  function IsAccepted(sys: System, p: Part, fuel: nat): (r: Result<bool>)
    ensures r.Ok? ==> "in" in sys && fuel > 0
  {
    AcceptedFrom(sys, Next("in"), p, fuel)
  }

  // ---------------------------------------------------------------------------------
  // Ranges and boxes of ratings

  datatype Range = Range(min: nat, max: nat)

  /** `Range::default`: ratings 1 to 4000. */
  const DefaultRange := Range(1, 4000)

  predicate Holds(r: Range, v: nat) {
    r.min <= v <= r.max
  }

  predicate NonEmpty(r: Range) {
    r.min <= r.max
  }

  /** `Range::intersection`: `None` when one range lies wholly above the other, and
      otherwise the range of the values in both. */
  function Intersection(a: Range, b: Range): (r: Option<Range>)
    ensures r.None? ==> forall v: nat :: !(Holds(a, v) && Holds(b, v))
    ensures r.Some? ==> forall v: nat :: Holds(r.value, v) <==> Holds(a, v) && Holds(b, v)
    ensures NonEmpty(a) && NonEmpty(b) && r.Some? ==> NonEmpty(r.value)
  {
    if a.min > b.max || b.min > a.max then None
    else Some(Range(if a.min >= b.min then a.min else b.min, if a.max <= b.max then a.max else b.max))
  }

  /** Two non-empty ranges intersect exactly when they share a value. */
  lemma IntersectionShared(a: Range, b: Range)
    requires NonEmpty(a) && NonEmpty(b)
    ensures Intersection(a, b).Some? <==> exists v: nat :: Holds(a, v) && Holds(b, v)
  {
    if Intersection(a, b).Some? {
      var v := if a.min >= b.min then a.min else b.min;
      assert Holds(a, v) && Holds(b, v);
    }
  }

  lemma IntersectionCommutes(a: Range, b: Range)
    ensures Intersection(a, b) == Intersection(b, a)
  {
  }

  /** The values a range holds. */
  function Values(r: Range): set<nat> {
    set v: nat | v <= r.max && Holds(r, v)
  }

  /** `Range::elements`: `max - min + 1`, where `max - min` panics below zero. */
  function Elements(r: Range): (n: Result<nat>)
    ensures n.Ok? <==> NonEmpty(r)
  {
    if r.max < r.min then Err else Ok(r.max - r.min + 1)
  }

  /** The number of elements is the number of values the range holds. */
  lemma {:induction false} ElementsCount(r: Range)
    requires NonEmpty(r)
    ensures Elements(r) == Ok(|Values(r)|)
    decreases r.max - r.min
  {
    if r.max == r.min {
      assert Values(r) == {r.min};
    } else {
      var shorter := Range(r.min, r.max - 1);
      ElementsCount(shorter);
      assert Values(r) == Values(shorter) + {r.max};
    }
  }

  /** The values `Range::from(cmp)` holds: those that pass the comparison, kept below
      the default maximum for `GT` and above the default minimum for `LT`. */
  predicate Admits(cmp: Comparison, v: nat) {
    Test(cmp, v) && if cmp.GT? then v <= DefaultRange.max else DefaultRange.min <= v
  }

  /** `Range::from(&Comparison)`: the default range with one end replaced so that it
      holds the values that pass the comparison; `LT(0)` panics in `0 - 1`. */
  function RangeFrom(cmp: Comparison): (r: Result<Range>)
    ensures r.Err? <==> cmp == LT(0)
    ensures r.Ok? ==> forall v: nat :: Holds(r.value, v) <==> Admits(cmp, v)
  {
    match cmp
    case GT(a) => Ok(Range(a + 1, DefaultRange.max))
    case LT(b) => if b == 0 then Err else Ok(Range(DefaultRange.min, b - 1))
  }

  datatype PartRange = PartRange(x: Range, m: Range, a: Range, s: Range)

  const DefaultBox := PartRange(DefaultRange, DefaultRange, DefaultRange, DefaultRange)

  function RangeOf(pr: PartRange, c: Category): Range {
    match c
    case X => pr.x
    case M => pr.m
    case A => pr.a
    case S => pr.s
  }

  function WithRange(pr: PartRange, c: Category, r: Range): PartRange {
    match c
    case X => pr.(x := r)
    case M => pr.(m := r)
    case A => pr.(a := r)
    case S => pr.(s := r)
  }

  /** The part's ratings all lie in the box. */
  predicate Inside(pr: PartRange, p: Part) {
    Holds(pr.x, p.x) && Holds(pr.m, p.m) && Holds(pr.a, p.a) && Holds(pr.s, p.s)
  }

  lemma InsideCategory(pr: PartRange, p: Part)
    ensures Inside(pr, p) <==> forall c :: Holds(RangeOf(pr, c), Get(c, p))
  {
    if forall c :: Holds(RangeOf(pr, c), Get(c, p)) {
      assert Holds(RangeOf(pr, X), Get(X, p)) && Holds(RangeOf(pr, M), Get(M, p));
      assert Holds(RangeOf(pr, A), Get(A, p)) && Holds(RangeOf(pr, S), Get(S, p));
    }
  }

  predicate InDefault(p: Part) {
    Inside(DefaultBox, p)
  }

  predicate NonEmptyBox(pr: PartRange) {
    NonEmpty(pr.x) && NonEmpty(pr.m) && NonEmpty(pr.a) && NonEmpty(pr.s)
  }

  /** A box as the workflows produce it: no range empty, and every range within the
      default range. */
  predicate Proper(pr: PartRange) {
    NonEmptyBox(pr) && WithinDefault(pr)
  }

  /** Every range of the box lies within the default range. */
  predicate WithinDefault(pr: PartRange) {
    forall c :: DefaultRange.min <= RangeOf(pr, c).min && RangeOf(pr, c).max <= DefaultRange.max
  }

  /** `PartRange::intersection`: category by category; `None` as soon as one category
      has no common value. */
  function BoxIntersection(a: PartRange, b: PartRange): (r: Option<PartRange>)
    ensures r.None? ==> forall p :: !(Inside(a, p) && Inside(b, p))
    ensures r.Some? ==> forall p :: Inside(r.value, p) <==> Inside(a, p) && Inside(b, p)
    ensures NonEmptyBox(a) && NonEmptyBox(b) && r.Some? ==> NonEmptyBox(r.value)
  {
    var x :- Intersection(a.x, b.x);
    var m :- Intersection(a.m, b.m);
    var a' :- Intersection(a.a, b.a);
    var s :- Intersection(a.s, b.s);
    Some(PartRange(x, m, a', s))
  }

  /** `PartRange::bound`: the chosen category cut down to `Range::from(cmp)`, the other
      three untouched; `None` when the category has no value left. */
  function Bound(pr: PartRange, cat: Category, cmp: Comparison): (r: Result<Option<PartRange>>)
    ensures r.Err? <==> cmp == LT(0)
    ensures r.Ok? && r.value.Some? ==> forall c :: c != cat ==> RangeOf(r.value.value, c) == RangeOf(pr, c)
    ensures r.Ok? && r.value.Some? ==> forall p :: Inside(r.value.value, p) <==> Inside(pr, p) && Admits(cmp, Get(cat, p))
    ensures r.Ok? && r.value.None? ==> forall p :: Inside(pr, p) ==> !Admits(cmp, Get(cat, p))
    ensures Proper(pr) && r.Ok? && r.value.Some? ==> Proper(r.value.value)
  {
    var from :- RangeFrom(cmp);
    match Intersection(RangeOf(pr, cat), from)
    case None =>
      assert forall p :: Inside(pr, p) ==> !Admits(cmp, Get(cat, p)) by {
        forall p | Inside(pr, p) ensures !Admits(cmp, Get(cat, p)) {
          InsideSplit(pr, cat, p);
        }
      }
      Ok(None)
    case Some(nr) =>
      BoundSome(pr, cat, cmp, nr);
      Ok(Some(WithRange(pr, cat, nr)))
  }

  lemma BoundSome(pr: PartRange, cat: Category, cmp: Comparison, nr: Range)
    requires RangeFrom(cmp).Ok? && Intersection(RangeOf(pr, cat), RangeFrom(cmp).value) == Some(nr)
    ensures forall c :: c != cat ==> RangeOf(WithRange(pr, cat, nr), c) == RangeOf(pr, c)
    ensures forall p :: Inside(WithRange(pr, cat, nr), p) <==> Inside(pr, p) && Admits(cmp, Get(cat, p))
    ensures Proper(pr) ==> Proper(WithRange(pr, cat, nr))
  {
    var b := WithRange(pr, cat, nr);
    WithRangeOf(pr, cat, nr);
    forall p ensures Inside(b, p) <==> Inside(pr, p) && Admits(cmp, Get(cat, p)) {
      InsideSplit(pr, cat, p);
      InsideSplit(b, cat, p);
      var v := Get(cat, p);
      assert Holds(nr, v) <==> Holds(RangeOf(pr, cat), v) && Holds(RangeFrom(cmp).value, v);
    }
    if Proper(pr) {
      var before := RangeOf(pr, cat);
      assert DefaultRange.min <= before.min && before.max <= DefaultRange.max;
      assert NonEmpty(RangeFrom(cmp).value);
      assert NonEmpty(nr) && before.min <= nr.min && nr.max <= before.max;
      forall c ensures DefaultRange.min <= RangeOf(b, c).min && RangeOf(b, c).max <= DefaultRange.max {
        if c != cat {
          assert RangeOf(b, c) == RangeOf(pr, c);
        }
      }
      match cat {
        case X => case M => case A => case S =>
      }
    }
  }

  /** Replacing one category's range changes only that category. */
  lemma WithRangeOf(pr: PartRange, cat: Category, r: Range)
    ensures RangeOf(WithRange(pr, cat, r), cat) == r
    ensures forall c :: c != cat ==> RangeOf(WithRange(pr, cat, r), c) == RangeOf(pr, c)
  {
  }

  /** A part is in a box when its rating in `cat` is in that category's range and its
      other ratings are in theirs. */
  lemma InsideSplit(pr: PartRange, cat: Category, p: Part)
    ensures Inside(pr, p) <==> Holds(RangeOf(pr, cat), Get(cat, p)) && forall c :: c != cat ==> Holds(RangeOf(pr, c), Get(c, p))
  {
    InsideCategory(pr, p);
  }

  /** `PartRange::elements`: the product of the four range sizes. */
  function Volume(pr: PartRange): (n: Result<nat>)
    ensures n.Ok? <==> NonEmptyBox(pr)
  {
    var x :- Elements(pr.x);
    var m :- Elements(pr.m);
    var a :- Elements(pr.a);
    var s :- Elements(pr.s);
    Ok(x * m * a * s)
  }

  /** The parts a box holds. */
  function Points(b: PartRange): set<Part> {
    set x, m, a, s | x in Values(b.x) && m in Values(b.m) && a in Values(b.a) && s in Values(b.s) :: Part(x, m, a, s)
  }

  lemma PointsInside(b: PartRange, p: Part)
    ensures p in Points(b) <==> Inside(b, p)
  {
    if Inside(b, p) {
      assert p.x in Values(b.x) && p.m in Values(b.m) && p.a in Values(b.a) && p.s in Values(b.s);
      assert p == Part(p.x, p.m, p.a, p.s);
    }
  }

  /** How far the ranges of a box reach beyond a single value, added up. */
  function Spread(b: PartRange): nat
    requires NonEmptyBox(b)
  {
    (b.x.max - b.x.min) + (b.m.max - b.m.min) + (b.a.max - b.a.min) + (b.s.max - b.s.min)
  }

  /** A box's volume is the number of parts it holds. */
  lemma {:induction false} VolumeCount(b: PartRange)
    requires NonEmptyBox(b)
    ensures Volume(b) == Ok(|Points(b)|)
    decreases Spread(b)
  {
    if Spread(b) == 0 {
      VolumeSingle(b);
    } else {
      var c := if b.x.min < b.x.max then X else if b.m.min < b.m.max then M else if b.a.min < b.a.max then A else S;
      var r := RangeOf(b, c);
      var low, high := WithRange(b, c, Range(r.min, r.max - 1)), WithRange(b, c, Range(r.max, r.max));
      CutSmaller(b, c);
      PointsSplit(b, c);
      VolumeSplit(b, c);
      hide *;
      VolumeCount(low);
      VolumeCount(high);
    }
  }

  /** Both halves of a cut box are boxes again, each with a smaller spread. */
  lemma CutSmaller(b: PartRange, c: Category)
    requires NonEmptyBox(b) && RangeOf(b, c).min < RangeOf(b, c).max
    ensures var r := RangeOf(b, c);
      && NonEmptyBox(WithRange(b, c, Range(r.min, r.max - 1))) && Spread(WithRange(b, c, Range(r.min, r.max - 1))) < Spread(b)
      && NonEmptyBox(WithRange(b, c, Range(r.max, r.max))) && Spread(WithRange(b, c, Range(r.max, r.max))) < Spread(b)
  {
    match c { case X => case M => case A => case S => }
  }

  /** A box of single values holds one part. */
  lemma VolumeSingle(b: PartRange)
    requires NonEmptyBox(b) && Spread(b) == 0
    ensures Volume(b) == Ok(1) && |Points(b)| == 1
  {
    var only := Part(b.x.min, b.m.min, b.a.min, b.s.min);
    forall p ensures p in Points(b) <==> p == only {
      PointsInside(b, p);
    }
    assert Points(b) == {only};
    VolumeLens(b);
    assert Len(b.x) == 1 && Len(b.m) == 1 && Len(b.a) == 1 && Len(b.s) == 1;
  }

  /** Cutting the last value off one range splits the box's parts in two. */
  lemma PointsSplit(b: PartRange, c: Category)
    requires NonEmptyBox(b) && RangeOf(b, c).min < RangeOf(b, c).max
    ensures var r := RangeOf(b, c);
      |Points(b)| == |Points(WithRange(b, c, Range(r.min, r.max - 1)))| + |Points(WithRange(b, c, Range(r.max, r.max)))|
  {
    var r := RangeOf(b, c);
    var low, high := WithRange(b, c, Range(r.min, r.max - 1)), WithRange(b, c, Range(r.max, r.max));
    forall p ensures (p in Points(b) <==> p in Points(low) || p in Points(high)) && !(p in Points(low) && p in Points(high)) {
      InsideCut(b, c, p);
      PointsInside(b, p);
      PointsInside(low, p);
      PointsInside(high, p);
    }
    DisjointUnion(Points(b), Points(low), Points(high));
  }

  lemma DisjointUnion<T>(u: set<T>, a: set<T>, b: set<T>)
    requires forall p :: (p in u <==> p in a || p in b) && !(p in a && p in b)
    ensures |u| == |a| + |b|
  {
    assert u == a + b;
    assert a * b == {};
  }

  /** A part of the box lies in exactly one of the two halves. */
  lemma InsideCut(b: PartRange, c: Category, p: Part)
    requires RangeOf(b, c).min < RangeOf(b, c).max
    ensures var r := RangeOf(b, c);
      && (Inside(b, p) <==> Inside(WithRange(b, c, Range(r.min, r.max - 1)), p) || Inside(WithRange(b, c, Range(r.max, r.max)), p))
      && !(Inside(WithRange(b, c, Range(r.min, r.max - 1)), p) && Inside(WithRange(b, c, Range(r.max, r.max)), p))
  {
    var r := RangeOf(b, c);
    var low, high := WithRange(b, c, Range(r.min, r.max - 1)), WithRange(b, c, Range(r.max, r.max));
    WithRangeOf(b, c, Range(r.min, r.max - 1));
    WithRangeOf(b, c, Range(r.max, r.max));
    InsideSplit(b, c, p);
    InsideSplit(low, c, p);
    InsideSplit(high, c, p);
  }

  /** The number of values in a non-empty range. */
  function Len(r: Range): int {
    r.max - r.min + 1
  }

  lemma VolumeLens(b: PartRange)
    requires NonEmptyBox(b)
    ensures Volume(b) == Ok(Len(b.x) * Len(b.m) * Len(b.a) * Len(b.s))
  {
  }

  /** The volume splits the same way. */
  lemma VolumeSplit(b: PartRange, c: Category)
    requires NonEmptyBox(b) && RangeOf(b, c).min < RangeOf(b, c).max
    ensures var r := RangeOf(b, c);
      && NonEmptyBox(WithRange(b, c, Range(r.min, r.max - 1)))
      && Volume(b).value == Volume(WithRange(b, c, Range(r.min, r.max - 1))).value + Volume(WithRange(b, c, Range(r.max, r.max))).value
  {
    match c
    case X => VolumeSplitAt(b, b.(x := Range(b.x.min, b.x.max - 1)), b.(x := Range(b.x.max, b.x.max)), Len(b.x), Len(b.m), Len(b.a), Len(b.s));
    case M => VolumeSplitAt(b, b.(m := Range(b.m.min, b.m.max - 1)), b.(m := Range(b.m.max, b.m.max)), Len(b.m), Len(b.x), Len(b.a), Len(b.s));
    case A => VolumeSplitAt(b, b.(a := Range(b.a.min, b.a.max - 1)), b.(a := Range(b.a.max, b.a.max)), Len(b.a), Len(b.x), Len(b.m), Len(b.s));
    case S => VolumeSplitAt(b, b.(s := Range(b.s.min, b.s.max - 1)), b.(s := Range(b.s.max, b.s.max)), Len(b.s), Len(b.x), Len(b.m), Len(b.a));
  }

  /** The split of a volume whose cut range has `n` values and whose other three ranges
      have `p`, `q` and `t`, in any order of the four factors. */
  lemma VolumeSplitAt(b: PartRange, low: PartRange, high: PartRange, n: int, p: int, q: int, t: int)
    requires NonEmptyBox(b) && NonEmptyBox(low) && NonEmptyBox(high)
    requires var f := [Len(b.x), Len(b.m), Len(b.a), Len(b.s)];
      var g := [Len(low.x), Len(low.m), Len(low.a), Len(low.s)];
      var h := [Len(high.x), Len(high.m), Len(high.a), Len(high.s)];
      || (f == [n, p, q, t] && g == [n - 1, p, q, t] && h == [1, p, q, t])
      || (f == [p, n, q, t] && g == [p, n - 1, q, t] && h == [p, 1, q, t])
      || (f == [p, q, n, t] && g == [p, q, n - 1, t] && h == [p, q, 1, t])
      || (f == [p, q, t, n] && g == [p, q, t, n - 1] && h == [p, q, t, 1])
    ensures Volume(b).value == Volume(low).value + Volume(high).value
  {
    VolumeLens(b);
    VolumeLens(low);
    VolumeLens(high);
    hide *;
    Peel4(n, p, q, t);
  }

  /** Taking one off any factor of a product of four takes off the product of the
      other three. */
  lemma Peel4(n: int, p: int, q: int, t: int)
    ensures n * p * q * t == (n - 1) * p * q * t + p * q * t
    ensures p * n * q * t == p * (n - 1) * q * t + p * q * t
    ensures p * q * n * t == p * q * (n - 1) * t + p * q * t
    ensures p * q * t * n == p * q * t * (n - 1) + p * q * t
  {
    var u := p * q * t;
    assert n * p * q * t == n * u && (n - 1) * p * q * t == (n - 1) * u;
    assert p * n * q * t == n * u && p * (n - 1) * q * t == (n - 1) * u;
    assert p * q * n * t == n * u && p * q * (n - 1) * t == (n - 1) * u;
    assert p * q * t * n == n * u && p * q * t * (n - 1) == (n - 1) * u;
  }

  // ---------------------------------------------------------------------------------
  // Boxes through the workflows

  /** `Rule::fallthrough_range`: the default box bounded by the inverted comparison;
      `unwrap` panics when that leaves nothing. */
  function Fallthrough(cat: Category, cmp: Comparison): (r: Result<PartRange>)
    ensures r.Ok? ==> forall p :: Inside(r.value, p) <==> InDefault(p) && !Test(cmp, Get(cat, p))
    ensures r.Ok? ==> Proper(r.value)
  {
    var inv :- Inverted(cmp);
    var b :- Bound(DefaultBox, cat, inv);
    if b.None? then Err
    else
      assert WithinDefault(b.value) by {
        forall c ensures DefaultRange.min <= RangeOf(b.value, c).min && RangeOf(b.value, c).max <= DefaultRange.max {
          if c != cat {
            assert RangeOf(b.value, c) == DefaultRange;
          } else {
            assert b.value == WithRange(DefaultBox, cat, Intersection(DefaultRange, RangeFrom(inv).value).value);
          }
        }
      }
      Ok(b.value)
  }

  /** The number of boxes that hold the part. */
  function CountInside(boxes: seq<PartRange>, p: Part): nat {
    if |boxes| == 0 then 0
    else (if Inside(boxes[0], p) then 1 else 0) + CountInside(boxes[1..], p)
  }

  lemma {:induction false} CountAppend(a: seq<PartRange>, b: seq<PartRange>, p: Part)
    ensures CountInside(a + b, p) == CountInside(a, p) + CountInside(b, p)
  {
    if |a| > 0 {
      assert (a + b)[0] == a[0] && (a + b)[1..] == a[1..] + b;
      assert CountInside(a + b, p) == (if Inside(a[0], p) then 1 else 0) + CountInside(a[1..] + b, p);
      CountAppend(a[1..], b, p);
      assert CountInside(a, p) == (if Inside(a[0], p) then 1 else 0) + CountInside(a[1..], p);
    } else {
      assert a + b == b;
    }
  }

  predicate AllProper(boxes: seq<PartRange>) {
    forall k :: 0 <= k < |boxes| ==> Proper(boxes[k])
  }

  /** `filter_map(|x| x.intersection(state))`. */
  function IntersectAll(boxes: seq<PartRange>, state: PartRange): seq<PartRange> {
    if |boxes| == 0 then []
    else
      match BoxIntersection(boxes[0], state)
      case None => IntersectAll(boxes[1..], state)
      case Some(b) => [b] + IntersectAll(boxes[1..], state)
  }

  /** Cutting the boxes down to `state` keeps a part's count when the part is in
      `state`, and leaves none otherwise. */
  lemma {:induction false} IntersectAllCount(boxes: seq<PartRange>, state: PartRange, p: Part)
    ensures CountInside(IntersectAll(boxes, state), p) == if Inside(state, p) then CountInside(boxes, p) else 0
    ensures AllProper(boxes) && Proper(state) ==> AllProper(IntersectAll(boxes, state))
  {
    if |boxes| > 0 {
      IntersectAllCount(boxes[1..], state, p);
      if AllProper(boxes) && Proper(state) && BoxIntersection(boxes[0], state).Some? {
        WithinDefaultIntersection(boxes[0], state);
      }
    }
  }

  /** `filter_map(|pr| pr.bound(cat, cmp))`; a panicking bound stops everything. */
  function BoundAll(boxes: seq<PartRange>, cat: Category, cmp: Comparison): Result<seq<PartRange>> {
    if |boxes| == 0 then Ok([])
    else
      var b :- Bound(boxes[0], cat, cmp);
      var rest :- BoundAll(boxes[1..], cat, cmp);
      Ok(if b.Some? then [b.value] + rest else rest)
  }

  /** Bounding the boxes keeps a part's count when `Range::from(cmp)` holds its rating,
      and leaves none otherwise. */
  lemma {:induction false} BoundAllCount(boxes: seq<PartRange>, cat: Category, cmp: Comparison, p: Part)
    requires BoundAll(boxes, cat, cmp).Ok?
    ensures CountInside(BoundAll(boxes, cat, cmp).value, p) ==
      if Admits(cmp, Get(cat, p)) then CountInside(boxes, p) else 0
    ensures AllProper(boxes) ==> AllProper(BoundAll(boxes, cat, cmp).value)
  {
    if |boxes| > 0 {
      BoundAllCount(boxes[1..], cat, cmp, p);
    }
  }

  /** `System::eval_workflow`: the boxes of accepted ratings from workflow `name`.
      A missing workflow panics in `unwrap`; the depth is bounded by `fuel`. */
  function WorkflowBoxes(sys: System, name: string, fuel: nat): (r: Result<seq<PartRange>>)
    ensures r.Ok? ==> name in sys && fuel > 0
    decreases fuel, 0
  {
    if fuel == 0 || name !in sys then Err
    else RulesBoxes(sys, sys[name].rules, DefaultBox, fuel - 1)
  }

  /** `Rule::eval_range`: the boxes of accepted ratings for which the rule fires. */
  function RuleBoxes(sys: System, rule: Rule, fuel: nat): Result<seq<PartRange>>
    decreases fuel, 1
  {
    match rule
    case Conditional(cat, cmp, target) =>
      (match target
       case Accept =>
         var b :- Bound(DefaultBox, cat, cmp);
         Ok(if b.Some? then [b.value] else [])
       case Reject => Ok([])
       case Next(name) =>
         var boxes :- WorkflowBoxes(sys, name, fuel);
         BoundAll(boxes, cat, cmp))
    case Unconditional(target) =>
      (match target
       case Accept => Ok([DefaultBox])
       case Reject => Ok([])
       case Next(name) => WorkflowBoxes(sys, name, fuel))
  }

  /** `Workflow::eval_range`: the rules in order, each cut down to `state`, the ratings
      that fell through the earlier rules. The scan stops after an unconditional rule
      or when nothing falls through. */
  function RulesBoxes(sys: System, rules: seq<Rule>, state: PartRange, fuel: nat): Result<seq<PartRange>>
    decreases fuel, 2, |rules|
  {
    if |rules| == 0 then Ok([])
    else
      var here :- RuleBoxes(sys, rules[0], fuel);
      var result := IntersectAll(here, state);
      match rules[0]
      case Unconditional(_) => Ok(result)
      case Conditional(cat, cmp, _) =>
        var fallthrough :- Fallthrough(cat, cmp);
        match BoxIntersection(state, fallthrough)
        case None => Ok(result)
        case Some(next) =>
          var rest :- RulesBoxes(sys, rules[1..], next, fuel);
          Ok(result + rest)
  }

  /** The boxes from a workflow are non-empty, and a part lies in exactly one of them
      when its ratings are in range and the workflow accepts it, and in none
      otherwise; in particular the boxes are pairwise disjoint. */
  lemma {:induction false} WorkflowBoxesSpec(sys: System, name: string, fuel: nat, p: Part)
    requires WorkflowBoxes(sys, name, fuel).Ok?
    ensures AllProper(WorkflowBoxes(sys, name, fuel).value)
    ensures CountInside(WorkflowBoxes(sys, name, fuel).value, p) ==
      if InDefault(p) && AcceptedFrom(sys, Next(name), p, fuel) == Ok(true) then 1 else 0
    decreases fuel, 0
  {
    assert WithinDefault(DefaultBox);
    RulesBoxesSpec(sys, sys[name].rules, DefaultBox, fuel - 1, p);
  }

  lemma {:induction false} RuleBoxesSpec(sys: System, rule: Rule, fuel: nat, p: Part)
    requires RuleBoxes(sys, rule, fuel).Ok?
    ensures AllProper(RuleBoxes(sys, rule, fuel).value)
    ensures CountInside(RuleBoxes(sys, rule, fuel).value, p) ==
      if InDefault(p) && EvalRule(rule, p).Some? && AcceptedFrom(sys, EvalRule(rule, p).value, p, fuel) == Ok(true)
      then 1 else 0
    decreases fuel, 1
  {
    match rule
    case Conditional(cat, cmp, target) =>
      InsideCategory(DefaultBox, p);
      match target {
        case Accept =>
        case Reject =>
        case Next(name) =>
          WorkflowBoxesSpec(sys, name, fuel, p);
          BoundAllCount(WorkflowBoxes(sys, name, fuel).value, cat, cmp, p);
      }
    case Unconditional(target) =>
      match target
      case Accept =>
      case Reject =>
      case Next(name) =>
        WorkflowBoxesSpec(sys, name, fuel, p);
  }

  lemma {:induction false} RulesBoxesSpec(sys: System, rules: seq<Rule>, state: PartRange, fuel: nat, p: Part)
    requires Proper(state)
    requires RulesBoxes(sys, rules, state, fuel).Ok?
    ensures AllProper(RulesBoxes(sys, rules, state, fuel).value)
    ensures CountInside(RulesBoxes(sys, rules, state, fuel).value, p) ==
      if Inside(state, p) && EvalRules(rules, p).Ok? && AcceptedFrom(sys, EvalRules(rules, p).value, p, fuel) == Ok(true)
      then 1 else 0
    decreases fuel, 2, |rules|
  {
    if |rules| > 0 {
      var rule := rules[0];
      var here := RuleBoxes(sys, rule, fuel).value;
      RuleBoxesSpec(sys, rule, fuel, p);
      IntersectAllCount(here, state, p);
      WithinDefaultInside(state, p);
      match rule
      case Unconditional(_) =>
      case Conditional(cat, cmp, _) =>
        var fallthrough := Fallthrough(cat, cmp).value;
        match BoxIntersection(state, fallthrough)
        case None =>
        case Some(next) =>
          WithinDefaultIntersection(state, fallthrough);
          RulesBoxesSpec(sys, rules[1..], next, fuel, p);
          CountAppend(IntersectAll(here, state), RulesBoxes(sys, rules[1..], next, fuel).value, p);
    }
  }

  lemma WithinDefaultInside(state: PartRange, p: Part)
    requires WithinDefault(state)
    ensures Inside(state, p) ==> InDefault(p)
  {
    InsideCategory(state, p);
    InsideCategory(DefaultBox, p);
  }

  lemma WithinDefaultIntersection(a: PartRange, b: PartRange)
    requires WithinDefault(a) && BoxIntersection(a, b).Some?
    ensures WithinDefault(BoxIntersection(a, b).value)
  {
    var r := BoxIntersection(a, b).value;
    forall c ensures DefaultRange.min <= RangeOf(r, c).min && RangeOf(r, c).max <= DefaultRange.max {
      assert RangeOf(r, c) == Intersection(RangeOf(a, c), RangeOf(b, c)).value;
    }
  }

  /** No part lies in two boxes of a workflow's result. */
  lemma WorkflowBoxesDisjoint(sys: System, name: string, fuel: nat, p: Part)
    requires WorkflowBoxes(sys, name, fuel).Ok?
    ensures CountInside(WorkflowBoxes(sys, name, fuel).value, p) <= 1
  {
    WorkflowBoxesSpec(sys, name, fuel, p);
  }

  // ---------------------------------------------------------------------------------
  // The answers

  /** The sum of the values of the accepted parts; a part whose evaluation panics
      aborts the whole sum. */
  function AcceptedValue(sys: System, parts: seq<Part>, fuel: nat): (r: Result<nat>)
    ensures r.Ok? ==> r.value <= SumValues(parts)
    ensures r.Ok? && (forall k :: 0 <= k < |parts| ==> IsAccepted(sys, parts[k], fuel) == Ok(true)) ==>
      r.value == SumValues(parts)
  {
    if |parts| == 0 then Ok(0)
    else
      var rest :- AcceptedValue(sys, parts[..|parts| - 1], fuel);
      var last := parts[|parts| - 1];
      var accepted :- IsAccepted(sys, last, fuel);
      Ok(rest + if accepted then Value(last) else 0)
  }

  /** The values of all the parts added up. */
  function SumValues(parts: seq<Part>): nat {
    if |parts| == 0 then 0 else SumValues(parts[..|parts| - 1]) + Value(parts[|parts| - 1])
  }

  /** `part1` is defined exactly when `is_accepted` is for every part, and adds up
      nothing when every part is rejected. */
  lemma {:induction false} AcceptedValueSpec(sys: System, parts: seq<Part>, fuel: nat)
    ensures AcceptedValue(sys, parts, fuel).Ok? <==> forall k :: 0 <= k < |parts| ==> IsAccepted(sys, parts[k], fuel).Ok?
    ensures (forall k :: 0 <= k < |parts| ==> IsAccepted(sys, parts[k], fuel) == Ok(false)) ==> AcceptedValue(sys, parts, fuel) == Ok(0)
  {
    if |parts| > 0 {
      AcceptedValueSpec(sys, parts[..|parts| - 1], fuel);
      assert forall k :: 0 <= k < |parts| - 1 ==> parts[..|parts| - 1][k] == parts[k];
    }
  }

  /** What each part adds to `part1`: its value when it is accepted, otherwise 0. */
  function AcceptedValues(sys: System, parts: seq<Part>, fuel: nat): seq<int> {
    seq(|parts|, k requires 0 <= k < |parts| => if IsAccepted(sys, parts[k], fuel) == Ok(true) then Value(parts[k]) else 0)
  }

  /** `part1`, when no evaluation panics, is the sum of the values of the accepted parts. */
  lemma {:induction false} AcceptedValueSum(sys: System, parts: seq<Part>, fuel: nat)
    requires AcceptedValue(sys, parts, fuel).Ok?
    ensures AcceptedValue(sys, parts, fuel).value == Seqs.Sum(AcceptedValues(sys, parts, fuel))
  {
    if |parts| > 0 {
      var init, last := parts[..|parts| - 1], parts[|parts| - 1];
      var v := if IsAccepted(sys, last, fuel) == Ok(true) then Value(last) else 0;
      AcceptedValueLast(sys, parts, fuel);
      AcceptedValuesLast(sys, parts, fuel);
      hide *;
      AcceptedValueSum(sys, init, fuel);
      Seqs.SumAppend(AcceptedValues(sys, init, fuel), [v]);
      SumSingle(v);
    }
  }

  lemma SumSingle(v: int)
    ensures Seqs.Sum([v]) == v
  {
    assert [v][1..] == [];
  }

  /** The last part adds its value when accepted. */
  lemma AcceptedValueLast(sys: System, parts: seq<Part>, fuel: nat)
    requires |parts| > 0 && AcceptedValue(sys, parts, fuel).Ok?
    ensures var last := parts[|parts| - 1];
      && AcceptedValue(sys, parts[..|parts| - 1], fuel).Ok?
      && AcceptedValue(sys, parts, fuel).value ==
         AcceptedValue(sys, parts[..|parts| - 1], fuel).value + if IsAccepted(sys, last, fuel) == Ok(true) then Value(last) else 0
  {
  }

  lemma AcceptedValuesLast(sys: System, parts: seq<Part>, fuel: nat)
    requires |parts| > 0
    ensures var last := parts[|parts| - 1];
      AcceptedValues(sys, parts, fuel) ==
      AcceptedValues(sys, parts[..|parts| - 1], fuel) + [if IsAccepted(sys, last, fuel) == Ok(true) then Value(last) else 0]
  {
    var init, last := parts[..|parts| - 1], parts[|parts| - 1];
    var v := if IsAccepted(sys, last, fuel) == Ok(true) then Value(last) else 0;
    var all, front := AcceptedValues(sys, parts, fuel), AcceptedValues(sys, init, fuel);
    hide IsAccepted, Value;
    assert |all| == |front + [v]|;
    forall k | 0 <= k < |all| ensures all[k] == (front + [v])[k] {
      if k < |init| {
        assert parts[k] == init[k];
      }
    }
  }

  /** The sum of the volumes of the boxes. */
  function TotalVolume(boxes: seq<PartRange>): (r: Result<nat>)
    ensures r.Ok? <==> forall k :: 0 <= k < |boxes| ==> NonEmptyBox(boxes[k])
  {
    if |boxes| == 0 then Ok(0)
    else
      var v :- Volume(boxes[0]);
      var rest :- TotalVolume(boxes[1..]);
      assert forall k :: 1 <= k < |boxes| ==> boxes[k] == boxes[1..][k - 1];
      Ok(v + rest)
  }

  /** `part2`: the volumes of the boxes from workflow `in` added up. */
  function Part2(sys: System, fuel: nat): (r: Result<nat>)
    ensures r.Ok? <==> WorkflowBoxes(sys, "in", fuel).Ok?
  {
    var boxes :- WorkflowBoxes(sys, "in", fuel);
    WorkflowBoxesSpec(sys, "in", fuel, Part(1, 1, 1, 1));
    TotalVolume(boxes)
  }

  /** The boxes `part2` adds up hold each in-range part once when workflow `in`
      accepts it and not at all otherwise, and none of their sizes panics. */
  lemma Part2Spec(sys: System, fuel: nat, p: Part)
    requires WorkflowBoxes(sys, "in", fuel).Ok?
    ensures Part2(sys, fuel).Ok?
    ensures CountInside(WorkflowBoxes(sys, "in", fuel).value, p) == if InDefault(p) && IsAccepted(sys, p, fuel) == Ok(true) then 1 else 0
  {
    WorkflowBoxesSpec(sys, "in", fuel, p);
  }

  /** The parts in any of the boxes. */
  function Union(boxes: seq<PartRange>): set<Part> {
    if |boxes| == 0 then {} else Points(boxes[0]) + Union(boxes[1..])
  }

  lemma {:induction false} UnionCount(boxes: seq<PartRange>, p: Part)
    ensures p in Union(boxes) <==> CountInside(boxes, p) > 0
  {
    if |boxes| > 0 {
      UnionCount(boxes[1..], p);
      PointsInside(boxes[0], p);
    }
  }

  /** When no part lies in two of the boxes, their volumes add up to the number of
      parts in their union. */
  lemma {:induction false} TotalVolumeUnion(boxes: seq<PartRange>)
    requires TotalVolume(boxes).Ok?
    requires forall p :: CountInside(boxes, p) <= 1
    ensures TotalVolume(boxes) == Ok(|Union(boxes)|)
  {
    hide Volume, Points, Inside, NonEmptyBox;
    if |boxes| > 0 {
      var first, rest := boxes[0], boxes[1..];
      forall p ensures CountInside(rest, p) <= 1 && !(p in Points(first) && p in Union(rest)) {
        assert CountInside(boxes, p) <= 1;
        PointsInside(first, p);
        UnionCount(rest, p);
      }
      TotalVolumeUnion(rest);
      VolumeCount(first);
      DisjointUnion(Union(boxes), Points(first), Union(rest));
    }
  }

  /** The distinct parts with ratings 1 to 4000 that workflow `in` accepts. */
  function AcceptedParts(sys: System, fuel: nat): set<Part> {
    set p | p in Points(DefaultBox) && IsAccepted(sys, p, fuel) == Ok(true)
  }

  /** `part2` is the number of distinct parts with ratings 1 to 4000 that `is_accepted`
      accepts. */
  lemma Part2Count(sys: System, fuel: nat)
    requires WorkflowBoxes(sys, "in", fuel).Ok?
    ensures Part2(sys, fuel) == Ok(|AcceptedParts(sys, fuel)|)
  {
    var boxes := WorkflowBoxes(sys, "in", fuel).value;
    forall p ensures CountInside(boxes, p) <= 1 && (p in Union(boxes) <==> p in AcceptedParts(sys, fuel)) {
      Part2Spec(sys, fuel, p);
      UnionCount(boxes, p);
      PointsInside(DefaultBox, p);
    }
    assert Union(boxes) == AcceptedParts(sys, fuel);
    assert Part2(sys, fuel) == TotalVolume(boxes);
    WorkflowBoxesSpec(sys, "in", fuel, Part(1, 1, 1, 1));
    assert TotalVolume(boxes).Ok? by {
      assert forall k :: 0 <= k < |boxes| ==> Proper(boxes[k]);
    }
    TotalVolumeUnion(boxes);
  }

  // ---------------------------------------------------------------------------------
  // Parsing

  /** `Rule::from_str`: `cat<val:target`, `cat>val:target`, or a bare target. */
  function ParseRule(s: string): (r: Result<Rule>)
    ensures !Contains(s, ":") ==> r == Ok(Unconditional(ParseTarget(s)))
    ensures Contains(s, ":") && r.Ok? ==> r.value.Conditional?
  {
    match SplitOnce(s, ":")
    case Some((cond, target)) =>
      (match SplitOnce(cond, "<")
       case Some((cat, val)) =>
         var c :- ParseCategory(cat);
         var v :- OkOr(ParseNat(val));
         Ok(Conditional(c, LT(v), ParseTarget(target)))
       case None =>
         match SplitOnce(cond, ">")
         case Some((cat, val)) =>
           var c :- ParseCategory(cat);
           var v :- OkOr(ParseNat(val));
           Ok(Conditional(c, GT(v), ParseTarget(target)))
         case None => Err)
    case None => Ok(Unconditional(ParseTarget(s)))
  }

  function ParseRules(pieces: seq<string>): (r: Result<seq<Rule>>)
    ensures r.Ok? <==> forall k :: 0 <= k < |pieces| ==> ParseRule(pieces[k]).Ok?
    ensures r.Ok? ==> |r.value| == |pieces| && forall k :: 0 <= k < |pieces| ==> Ok(r.value[k]) == ParseRule(pieces[k])
  {
    if |pieces| == 0 then Ok([])
    else match ParseRule(pieces[0])
      case Err => Err
      case Ok(rule) =>
        match ParseRules(pieces[1..])
        case Err => Err
        case Ok(rules) => Ok([rule] + rules)
  }

  /** `Workflow::from_str`: the name before the first `{`, then the rules separated by
      commas, with the last character (the closing brace) dropped; `len() - 1` panics
      when nothing follows the brace. */
  function ParseWorkflow(s: string): (r: Result<Workflow>)
    ensures r.Ok? ==> '{' !in r.value.name && |r.value.rules| >= 1
  {
    match SplitOnce(s, "{")
    case None => Err
    case Some((name, rules)) =>
      NoCharOccurrence(name, '{');
      if |rules| == 0 then Err
      else
        var rs :- ParseRules(Split(rules[..|rules| - 1], ","));
        Ok(Workflow(name, rs))
  }

  /** Every line parsed as a workflow, or `Err` when one of them is not. */
  function ParseWorkflows(lines: seq<string>): (r: Result<seq<Workflow>>)
    ensures r.Ok? <==> forall k :: 0 <= k < |lines| ==> ParseWorkflow(lines[k]).Ok?
    ensures r.Ok? ==> |r.value| == |lines| && forall k :: 0 <= k < |lines| ==> Ok(r.value[k]) == ParseWorkflow(lines[k])
  {
    MapAll(lines, ParseWorkflow)
  }

  /** Workflows keyed by name, a later workflow replacing an earlier one of the same
      name, as collecting into a `HashMap` does. */
  function Index(ws: seq<Workflow>): (sys: System)
    ensures forall n :: n in sys ==> sys[n].name == n
  {
    if |ws| == 0 then map[]
    else Index(ws[..|ws| - 1])[ws[|ws| - 1].name := ws[|ws| - 1]]
  }

  /** Every workflow's name is a key of the index. */
  lemma {:induction false} IndexNames(ws: seq<Workflow>)
    ensures forall k :: 0 <= k < |ws| ==> ws[k].name in Index(ws)
  {
    if |ws| > 0 {
      var init := ws[..|ws| - 1];
      IndexNames(init);
      assert forall k :: 0 <= k < |init| ==> init[k] == ws[k];
    }
  }

  /** Every key of the index holds the last workflow with that name. */
  lemma {:induction false} IndexLast(ws: seq<Workflow>, n: string)
    requires n in Index(ws)
    ensures exists k :: 0 <= k < |ws| && ws[k] == Index(ws)[n] && forall j :: k < j < |ws| ==> ws[j].name != n
  {
    var init := ws[..|ws| - 1];
    var w := ws[|ws| - 1];
    if n == w.name {
      assert ws[|ws| - 1] == Index(ws)[n];
    } else {
      IndexLast(init, n);
      var k :| 0 <= k < |init| && init[k] == Index(init)[n] && forall j :: k < j < |init| ==> init[j].name != n;
      assert ws[k] == init[k];
      forall j | k < j < |ws| ensures ws[j].name != n {
        if j < |init| {
          assert ws[j] == init[j];
        }
      }
    }
  }

  /** `System::from_str`: one workflow per line, keyed by its name; a bad line spoils
      the system. */
  function ParseSystem(lines: seq<string>): (r: Result<System>)
    ensures r.Ok? <==> forall k :: 0 <= k < |lines| ==> ParseWorkflow(lines[k]).Ok?
  {
    var ws :- ParseWorkflows(lines);
    Ok(Index(ws))
  }

  /** `Part::from_str`: the text inside the outer braces split on commas, the number
      after each `=` read in order into x, m, a and s; anything but four ratings is an
      error. Slicing a text shorter than two characters panics. */
  function ParsePart(s: string): (r: Result<Part>)
    ensures r.Ok? ==> |s| >= 2 && |Split(s[1..|s| - 1], ",")| == 4
  {
    if |s| < 2 then Err
    else
      var values :- ParseRatings(Split(s[1..|s| - 1], ","));
      if |values| != 4 then Err else Ok(Part(values[0], values[1], values[2], values[3]))
  }

  function ParseRatings(pieces: seq<string>): (r: Result<seq<nat>>)
    ensures r.Ok? ==> |r.value| == |pieces|
  {
    if |pieces| == 0 then Ok([])
    else
      var v :- match SplitOnce(pieces[0], "=")
               case None => Err
               case Some((_, v)) => OkOr(ParseNat(v));
      var rest :- ParseRatings(pieces[1..]);
      Ok([v] + rest)
  }

  function ParseParts(lines: seq<string>): (r: Result<seq<Part>>)
    ensures r.Ok? <==> forall k :: 0 <= k < |lines| ==> ParsePart(lines[k]).Ok?
    ensures r.Ok? ==> |r.value| == |lines| && forall k :: 0 <= k < |lines| ==> Ok(r.value[k]) == ParsePart(lines[k])
  {
    if |lines| == 0 then Ok([])
    else
      var p :- ParsePart(lines[0]);
      var rest :- ParseParts(lines[1..]);
      Ok([p] + rest)
  }

  /** `parse_input`: the workflows and the parts, separated by a blank line. */
  function ParseInput(input: string): (r: Result<(System, seq<Part>)>)
    ensures r.Ok? ==> Text.Contains(input, "\n\n")
  {
    match SplitOnce(input, "\n\n")
    case None => Err
    case Some((workflows, parts)) =>
      var sys :- ParseSystem(Lines(workflows));
      var ps :- ParseParts(Lines(parts));
      Ok((sys, ps))
  }

  // ---------------------------------------------------------------------------------
  // Rendering and parsing back

  /** The four ratings of a part as `name=value` texts. */
  function RatingPieces(p: Part): seq<string> {
    ["x=" + NatToString(p.x), "m=" + NatToString(p.m), "a=" + NatToString(p.a), "s=" + NatToString(p.s)]
  }

  /** A part as the puzzle writes it, `{x=…,m=…,a=…,s=…}`. */
  function RenderPart(p: Part): string {
    "{" + Join(RatingPieces(p), ",") + "}"
  }

  lemma NoCommaInNumber(n: nat, c: char)
    requires !IsDigit(c)
    ensures c !in NatToString(n)
  {
    assert AllDigits(NatToString(n));
  }

  /** A rendered rating `c=n` is read back as `n`. */
  lemma RatingRendered(name: string, n: nat)
    requires '=' !in name
    ensures ParseRatings([name + "=" + NatToString(n)]) == Ok([n])
  {
    var piece := name + "=" + NatToString(n);
    SplitOnceAfter(name, "=", NatToString(n));
    ParseNatToString(n);
    assert OkOr(ParseNat(NatToString(n))) == Ok(n);
    assert [piece][0] == piece && [piece][1..] == [];
    assert ParseRatings([]) == Ok([]);
    assert [n] + [] == [n];
  }

  lemma BracesInner(j: string)
    ensures var s := "{" + j + "}"; |s| >= 2 && s[1..|s| - 1] == j
  {
  }

  /** The four rating pieces are `name=value` for the names `x`, `m`, `a`, `s`, and hold no
      comma. */
  lemma PiecesShape(p: Part, names: seq<string>, values: seq<nat>)
    requires names == ["x", "m", "a", "s"] && values == [p.x, p.m, p.a, p.s]
    ensures forall k :: 0 <= k < 4 ==> ',' !in RatingPieces(p)[k]
    ensures forall k :: 0 <= k < 4 ==> '=' !in names[k] && RatingPieces(p)[k] == names[k] + "=" + NatToString(values[k])
  {
    NoCommaInNumber(p.x, ','); NoCommaInNumber(p.m, ',');
    NoCommaInNumber(p.a, ','); NoCommaInNumber(p.s, ',');
    forall k | 0 <= k < 4
      ensures '=' !in names[k] && RatingPieces(p)[k] == names[k] + "=" + NatToString(values[k])
    {
    }
  }

  lemma PiecesRendered(p: Part)
    ensures forall k :: 0 <= k < 4 ==> ',' !in RatingPieces(p)[k]
    ensures ParseRatings(RatingPieces(p)) == Ok([p.x, p.m, p.a, p.s])
  {
    var names := ["x", "m", "a", "s"];
    var values := [p.x, p.m, p.a, p.s];
    PiecesShape(p, names, values);
    RatingsRendered(RatingPieces(p), values, names);
  }

  /** Parsing a rendered part gives the part back. */
  lemma ParsePartRendered(p: Part)
    ensures ParsePart(RenderPart(p)) == Ok(p)
  {
    var pieces := RatingPieces(p);
    var j := Join(pieces, ",");
    BracesInner(j);
    PiecesRendered(p);
    SplitJoinChar(pieces, ',');
    assert ParseRatings(Split(j, ",")) == Ok([p.x, p.m, p.a, p.s]);
  }

  lemma {:induction false} RatingsRendered(pieces: seq<string>, values: seq<nat>, names: seq<string>)
    requires |pieces| == |values| == |names|
    requires forall k :: 0 <= k < |pieces| ==> '=' !in names[k] && pieces[k] == names[k] + "=" + NatToString(values[k])
    ensures ParseRatings(pieces) == Ok(values)
  {
    if |pieces| > 0 {
      RatingRendered(names[0], values[0]);
      RatingsRendered(pieces[1..], values[1..], names[1..]);
      assert [values[0]] + values[1..] == values;
    }
  }

  /** The part of the parsing test in the source. */
  lemma ParsePartExample()
    ensures ParsePart("{x=787,m=2655,a=1222,s=2876}") == Ok(Part(787, 2655, 1222, 2876))
  {
    var p := Part(787, 2655, 1222, 2876);
    ParsePartRendered(p);
    ExampleRendered();
  }

  lemma ExampleRendered()
    ensures RenderPart(Part(787, 2655, 1222, 2876)) == "{x=787,m=2655,a=1222,s=2876}"
  {
    ExamplePieces();
    JoinFour("x=787", "m=2655", "a=1222", "s=2876");
    ExampleText();
  }

  lemma ExamplePieces()
    ensures RatingPieces(Part(787, 2655, 1222, 2876)) == ["x=787", "m=2655", "a=1222", "s=2876"]
  {
    RatingExample(787); RatingExample(2655); RatingExample(1222); RatingExample(2876);
    assert "x=" + NatToString(787) == "x=787";
    assert "m=" + NatToString(2655) == "m=2655";
    assert "a=" + NatToString(1222) == "a=1222";
    assert "s=" + NatToString(2876) == "s=2876";
  }

  lemma ExampleText()
    ensures "{" + ("x=787" + "," + "m=2655" + "," + "a=1222" + "," + "s=2876") + "}" == "{x=787,m=2655,a=1222,s=2876}"
  {
  }

  /** The four ratings of the example, written out digit by digit. */
  lemma RatingExample(n: nat)
    requires n in {787, 2655, 1222, 2876}
    ensures n == 787 ==> NatToString(n) == "787"
    ensures n == 2655 ==> NatToString(n) == "2655"
    ensures n == 1222 ==> NatToString(n) == "1222"
    ensures n == 2876 ==> NatToString(n) == "2876"
  {
    if n == 787 {
      assert NatToString(7) == "7";
      assert NatToString(78) == NatToString(7) + [DigitChar(8)] == "78";
      assert NatToString(787) == NatToString(78) + [DigitChar(7)] == "787";
    }
    if n == 2655 {
      assert NatToString(2) == "2";
      assert NatToString(26) == NatToString(2) + [DigitChar(6)] == "26";
      assert NatToString(265) == NatToString(26) + [DigitChar(5)] == "265";
      assert NatToString(2655) == NatToString(265) + [DigitChar(5)] == "2655";
    }
    if n == 1222 {
      assert NatToString(1) == "1";
      assert NatToString(12) == NatToString(1) + [DigitChar(2)] == "12";
      assert NatToString(122) == NatToString(12) + [DigitChar(2)] == "122";
      assert NatToString(1222) == NatToString(122) + [DigitChar(2)] == "1222";
    }
    if n == 2876 {
      assert NatToString(2) == "2";
      assert NatToString(28) == NatToString(2) + [DigitChar(8)] == "28";
      assert NatToString(287) == NatToString(28) + [DigitChar(7)] == "287";
      assert NatToString(2876) == NatToString(287) + [DigitChar(6)] == "2876";
    }
  }

  lemma JoinFour(a: string, b: string, c: string, d: string)
    ensures Join([a, b, c, d], ",") == a + "," + b + "," + c + "," + d
  {
    assert [a, b, c, d][1..] == [b, c, d] && [b, c, d][1..] == [c, d] && [c, d][1..] == [d];
    assert Join([c, d], ",") == c + "," + d;
    assert Join([b, c, d], ",") == b + "," + (c + "," + d);
  }

  /** A workflow name that parses back as itself and does not interfere with the
      separators of the rule syntax. */
  predicate WellNamed(t: Target) {
    t.Next? ==> t.name != "A" && t.name != "R" && ':' !in t.name && ',' !in t.name
  }

  function RenderRule(rule: Rule): string {
    match rule
    case Conditional(c, LT(v), t) => CategoryName(c) + "<" + NatToString(v) + ":" + TargetName(t)
    case Conditional(c, GT(v), t) => CategoryName(c) + ">" + NatToString(v) + ":" + TargetName(t)
    case Unconditional(t) => TargetName(t)
  }

  lemma TargetRendered(t: Target)
    requires WellNamed(t)
    ensures ParseTarget(TargetName(t)) == t
  {
  }

  /** Parsing a rendered rule with a well-named target gives the rule back. */
  lemma ParseRuleRendered(rule: Rule)
    requires WellNamed(rule.target)
    ensures ParseRule(RenderRule(rule)) == Ok(rule)
  {
    TargetRendered(rule.target);
    match rule
    case Unconditional(t) =>
      if t.Next? {
        NoOccurrence(TargetName(t), ':');
      }
    case Conditional(c, LT(v), t) => LessRendered(c, v, t);
    case Conditional(c, GT(v), t) => GreaterRendered(c, v, t);
  }

  /** The condition `c<v` or `c>v` is split off at the colon, whatever the target. */
  lemma ConditionSplit(c: Category, op: char, v: nat, t: Target)
    requires op == '<' || op == '>'
    ensures var cond := CategoryName(c) + [op] + NatToString(v);
            SplitOnce(cond + ":" + TargetName(t), ":") == Some((cond, TargetName(t)))
  {
    var cond := CategoryName(c) + [op] + NatToString(v);
    NoCommaInNumber(v, ':');
    assert ':' !in cond;
    SplitOnceAfter(cond, ":", TargetName(t));
  }

  lemma LessRendered(c: Category, v: nat, t: Target)
    requires WellNamed(t)
    ensures ParseRule(RenderRule(Conditional(c, LT(v), t))) == Ok(Conditional(c, LT(v), t))
  {
    TargetRendered(t);
    var cond := CategoryName(c) + "<" + NatToString(v);
    ConditionSplit(c, '<', v, t);
    assert RenderRule(Conditional(c, LT(v), t)) == cond + ":" + TargetName(t);
    SplitOnceAfter(CategoryName(c), "<", NatToString(v));
    ParseNatToString(v);
  }

  lemma GreaterRendered(c: Category, v: nat, t: Target)
    requires WellNamed(t)
    ensures ParseRule(RenderRule(Conditional(c, GT(v), t))) == Ok(Conditional(c, GT(v), t))
  {
    TargetRendered(t);
    var cond := CategoryName(c) + ">" + NatToString(v);
    ConditionSplit(c, '>', v, t);
    assert RenderRule(Conditional(c, GT(v), t)) == cond + ":" + TargetName(t);
    NoCommaInNumber(v, '<');
    assert '<' !in cond;
    NoOccurrence(cond, '<');
    assert SplitOnce(cond, "<") == None;
    SplitOnceAfter(CategoryName(c), ">", NatToString(v));
    ParseNatToString(v);
  }

  /** A character that is no digit, no category letter and none of `<`, `>`, `:` occurs
      in a written rule only through its target's name. */
  lemma RuleAvoids(rule: Rule, c: char)
    requires !IsDigit(c) && c !in "xmas<>:AR" && c !in TargetName(rule.target)
    ensures c !in RenderRule(rule)
  {
    match rule
    case Unconditional(_) =>
    case Conditional(cat, cmp, _) => NoCommaInNumber(cmp.rhs, c);
  }

  /** Each rule of a workflow written out. */
  function RenderRules(rules: seq<Rule>): (texts: seq<string>)
    ensures |texts| == |rules|
    ensures forall k :: 0 <= k < |rules| ==> texts[k] == RenderRule(rules[k])
  {
    seq(|rules|, k requires 0 <= k < |rules| => RenderRule(rules[k]))
  }

  /** A workflow as the puzzle writes it, `name{rule,…,rule}`. */
  function RenderWorkflow(w: Workflow): string
    requires Writable(w)
  {
    w.name + "{" + Join(RenderRules(w.rules), ",") + "}"
  }

  /** A workflow that can be written on one line and read back: at least one rule, a
      name without `{` or a newline, and well-named targets without newlines. */
  predicate Writable(w: Workflow) {
    && |w.rules| >= 1 && '{' !in w.name && '\n' !in w.name
    && forall k :: 0 <= k < |w.rules| ==> WellNamed(w.rules[k].target) && '\n' !in TargetName(w.rules[k].target)
  }

  /** Written rules separated by commas are split and parsed back into the rules. */
  lemma RulesRendered(rules: seq<Rule>)
    requires |rules| >= 1 && forall k :: 0 <= k < |rules| ==> WellNamed(rules[k].target)
    ensures ParseRules(Split(Join(RenderRules(rules), ","), ",")) == Ok(rules)
  {
    var texts := RenderRules(rules);
    forall k | 0 <= k < |texts| ensures ',' !in texts[k] && ParseRule(texts[k]) == Ok(rules[k]) {
      RuleAvoids(rules[k], ',');
      ParseRuleRendered(rules[k]);
    }
    SplitJoinChar(texts, ',');
    var r := ParseRules(texts);
    assert r.Ok? && |r.value| == |rules|;
    assert forall k :: 0 <= k < |rules| ==> r.value[k] == rules[k];
    assert r.value == rules;
  }

  /** Parsing a written workflow gives the workflow back. */
  lemma ParseWorkflowRendered(w: Workflow)
    requires Writable(w)
    ensures ParseWorkflow(RenderWorkflow(w)) == Ok(w)
  {
    var j := Join(RenderRules(w.rules), ",");
    var rest := j + "}";
    assert RenderWorkflow(w) == w.name + "{" + rest;
    SplitOnceAfter(w.name, "{", rest);
    assert rest[..|rest| - 1] == j;
    RulesRendered(w.rules);
  }

  /** Each workflow written on its own line. */
  function RenderWorkflows(ws: seq<Workflow>): (lines: seq<string>)
    requires forall k :: 0 <= k < |ws| ==> Writable(ws[k])
    ensures |lines| == |ws|
    ensures forall k :: 0 <= k < |ws| ==> lines[k] == RenderWorkflow(ws[k])
  {
    seq(|ws|, k requires 0 <= k < |ws| => RenderWorkflow(ws[k]))
  }

  /** Each part written on its own line. */
  function RenderParts(parts: seq<Part>): (lines: seq<string>)
    ensures |lines| == |parts|
    ensures forall k :: 0 <= k < |parts| ==> lines[k] == RenderPart(parts[k])
  {
    seq(|parts|, k requires 0 <= k < |parts| => RenderPart(parts[k]))
  }

  /** Written workflows, one per line, read back as the system that indexes them. */
  lemma ParseWorkflowsRendered(ws: seq<Workflow>)
    requires forall k :: 0 <= k < |ws| ==> Writable(ws[k])
    ensures ParseSystem(RenderWorkflows(ws)) == Ok(Index(ws))
  {
    hide ParseWorkflow, RenderWorkflow, Index;
    var lines := RenderWorkflows(ws);
    forall k | 0 <= k < |ws| ensures ParseWorkflow(lines[k]) == Ok(ws[k]) {
      ParseWorkflowRendered(ws[k]);
    }
    var r := ParseWorkflows(lines);
    assert r.Ok? && |r.value| == |ws|;
    assert forall k :: 0 <= k < |ws| ==> r.value[k] == ws[k];
    assert r.value == ws;
  }

  /** Written parts, one per line, read back as themselves. */
  lemma ParsePartsRendered(parts: seq<Part>)
    ensures ParseParts(RenderParts(parts)) == Ok(parts)
  {
    var lines := RenderParts(parts);
    forall k | 0 <= k < |parts| ensures ParsePart(lines[k]) == Ok(parts[k]) {
      ParsePartRendered(parts[k]);
    }
    var r := ParseParts(lines);
    assert r.Ok? && |r.value| == |parts|;
    assert forall k :: 0 <= k < |parts| ==> r.value[k] == parts[k];
    assert r.value == parts;
  }

  /** The input written out: the workflows one per line, a blank line, then the parts
      one per line. */
  function RenderInput(ws: seq<Workflow>, parts: seq<Part>): string
    requires |ws| >= 1 && |parts| >= 1
    requires forall k :: 0 <= k < |ws| ==> Writable(ws[k])
  {
    Join(RenderWorkflows(ws), "\n") + "\n\n" + Join(RenderParts(parts), "\n")
  }

  lemma WorkflowLine(w: Workflow)
    requires Writable(w)
    ensures |RenderWorkflow(w)| > 0 && '\n' !in RenderWorkflow(w)
  {
    var texts := RenderRules(w.rules);
    forall k | 0 <= k < |texts| ensures '\n' !in texts[k] {
      RuleAvoids(w.rules[k], '\n');
    }
    JoinAvoids(texts, ",", '\n');
  }

  lemma PartLine(p: Part)
    ensures |RenderPart(p)| > 0 && '\n' !in RenderPart(p)
  {
    var pieces := RatingPieces(p);
    NoCommaInNumber(p.x, '\n'); NoCommaInNumber(p.m, '\n');
    NoCommaInNumber(p.a, '\n'); NoCommaInNumber(p.s, '\n');
    JoinAvoids(pieces, ",", '\n');
  }

  /** A written input splits at its blank line into the workflow lines and the part lines. */
  lemma InputSplit(ws: seq<Workflow>, parts: seq<Part>)
    requires |ws| >= 1 && |parts| >= 1
    requires forall k :: 0 <= k < |ws| ==> Writable(ws[k])
    ensures SplitOnce(RenderInput(ws, parts), "\n\n")
      == Some((Join(RenderWorkflows(ws), "\n"), Join(RenderParts(parts), "\n")))
    ensures Lines(Join(RenderWorkflows(ws), "\n")) == RenderWorkflows(ws)
    ensures Lines(Join(RenderParts(parts), "\n")) == RenderParts(parts)
  {
    var wlines, plines := RenderWorkflows(ws), RenderParts(parts);
    forall k | 0 <= k < |ws| ensures |wlines[k]| > 0 && '\n' !in wlines[k] {
      WorkflowLine(ws[k]);
    }
    forall k | 0 <= k < |parts| ensures |plines[k]| > 0 && '\n' !in plines[k] {
      PartLine(parts[k]);
    }
    var a, b := Join(wlines, "\n"), Join(plines, "\n");
    JoinedLinesParagraph(wlines);
    ParagraphNoBreak(a);
    SplitOnceAt(a, "\n\n", b);
    LinesJoin(wlines);
    LinesJoin(plines);
  }

  /** A written input reads back as the system indexing its workflows and its parts. */
  lemma ParseInputRendered(ws: seq<Workflow>, parts: seq<Part>)
    requires |ws| >= 1 && |parts| >= 1
    requires forall k :: 0 <= k < |ws| ==> Writable(ws[k])
    ensures ParseInput(RenderInput(ws, parts)) == Ok((Index(ws), parts))
  {
    InputSplit(ws, parts);
    ParseWorkflowsRendered(ws);
    ParsePartsRendered(parts);
  }
}
