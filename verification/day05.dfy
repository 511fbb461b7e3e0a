/** Day 5: piecewise-affine range maps and their composition ("flattening").

    A `Range` maps the half-open source interval `[sourceStart, sourceStart + length)`
    onto `[targetStart, targetStart + length)` by a constant shift. A `RangeMap` is an
    ordered list of ranges looked up first-match-wins, with the identity as fallback. */
module Day05 {
  import opened Wrappers
  import opened Text

  datatype Range = Range(targetStart: nat, sourceStart: nat, length: nat) {

    predicate Contains(v: int) {
      sourceStart <= v < sourceStart + length
    }

    /** The affine map of the range, defined everywhere; it is only meaningful on
        contained values. */
    function Shift(v: int): (r: int)
      ensures Contains(v) ==> targetStart <= r < targetStart + length
    {
      targetStart + (v - sourceStart)
    }

    function Position(v: nat): (r: Option<nat>)
      ensures r.Some? <==> Contains(v)
      ensures r.Some? ==> sourceStart + r.value == v
    {
      if Contains(v) then Some(v - sourceStart) else None
    }

    function Target(v: nat): (r: Option<nat>)
      ensures r.Some? <==> Contains(v)
      ensures r.Some? ==> r.value == Shift(v) && r.value < targetStart + length
    {
      match Position(v)
      case Some(pos) => Some(targetStart + pos)
      case None => None
    }

    /** The source intervals of the two ranges share a value. */
    predicate SourceOverlaps(other: Range) {
      sourceStart < other.sourceStart + other.length && other.sourceStart < sourceStart + length
    }

    /** `self`'s source interval reaches the start of `other`'s target interval
        (closed at both ends, so touching intervals count). */
    predicate ContainsRangeStart(other: Range) {
      sourceStart <= other.targetStart && sourceStart + length >= other.targetStart
    }

    predicate ContainsRangeEnd(other: Range) {
      sourceStart <= other.targetStart + other.length
      && sourceStart + length >= other.targetStart + other.length
    }

    predicate ContainsRange(other: Range) {
      ContainsRangeStart(other) && ContainsRangeEnd(other)
    }

    predicate IsContained(other: Range) {
      other.targetStart <= sourceStart
      && other.targetStart + other.length >= sourceStart + length
    }

    /** Re-maps the targets of `other` (a range of the previous stage) through `this`
        (a range of the next stage): the part of `other` whose targets fall in
        `this`'s source interval is composed into `merged`; the rest of `other` is
        returned unchanged in `unused`. */
    function Merge(other: Range): (res: MergeResult)
      ensures res.merged.Some? ==> res.merged.value.length + TotalLength(res.unused) == other.length
      ensures res.merged.None? ==> res.unused == [other]
      ensures res.merged.None? <==>
        !(ContainsRangeStart(other) || ContainsRangeEnd(other) || IsContained(other))
      ensures forall k :: 0 <= k < |res.unused| ==>
        res.unused[k].targetStart - res.unused[k].sourceStart == other.targetStart - other.sourceStart
      ensures ContainsRange(other) ==>
        res.merged == Some(Range(other.targetStart + targetStart - sourceStart, other.sourceStart, other.length))
        && res.unused == []
    {
      if ContainsRange(other) then
        var merged := Range(other.targetStart + targetStart - sourceStart, other.sourceStart, other.length);
        MergeResult(Some(merged), [])
      else if ContainsRangeStart(other) then
        var mergedLength := sourceStart + length - other.targetStart;
        var merged := Range(other.targetStart + targetStart - sourceStart, other.sourceStart, mergedLength);
        var unused := Range(other.targetStart + mergedLength, other.sourceStart + mergedLength, other.length - mergedLength);
        MergeResult(Some(merged), [unused])
      else if ContainsRangeEnd(other) then
        var mergedLength := other.targetStart + other.length - sourceStart;
        var merged := Range(targetStart, other.sourceStart + other.length - mergedLength, mergedLength);
        var unused := Range(other.targetStart, other.sourceStart, other.length - mergedLength);
        MergeResult(Some(merged), [unused])
      else if IsContained(other) then
        var prefixLength := sourceStart - other.targetStart;
        var prefix := Range(other.targetStart, other.sourceStart, prefixLength);
        var suffixLength := other.targetStart + other.length - (sourceStart + length);
        var suffix := Range(other.targetStart + other.length - suffixLength, other.sourceStart + other.length - suffixLength, suffixLength);
        var merged := Range(targetStart, other.sourceStart + prefixLength, other.length - prefixLength - suffixLength);
        assert TotalLength([prefix, suffix]) == prefixLength + suffixLength by {
          assert [prefix, suffix][1..] == [suffix];
          assert [suffix][1..] == [];
          assert TotalLength([suffix]) == suffixLength;
        }
        MergeResult(Some(merged), [prefix, suffix])
      else
        MergeResult(None, [other])
    }
  }

  datatype MergeResult = MergeResult(merged: Option<Range>, unused: seq<Range>)

  function TotalLength(rs: seq<Range>): nat {
    if rs == [] then 0 else rs[0].length + TotalLength(rs[1..])
  }

  lemma {:induction false} TotalLengthAppend(a: seq<Range>, b: seq<Range>)
    ensures TotalLength(a + b) == TotalLength(a) + TotalLength(b)
  {
    if a != [] {
      assert (a + b)[1..] == a[1..] + b;
      TotalLengthAppend(a[1..], b);
    } else {
      assert a + b == b;
    }
  }

  predicate MergedContains(res: MergeResult, v: int) {
    res.merged.Some? && res.merged.value.Contains(v)
  }

  predicate UnusedContains(res: MergeResult, v: int) {
    exists k :: 0 <= k < |res.unused| && res.unused[k].Contains(v)
  }

  /** Pointwise meaning of `Merge`: the merged piece and the unused pieces partition
      `other`'s source interval; a value lands in the merged piece exactly when its
      image under `other` lies in `next`'s source interval, and there it is mapped by
      `next` after `other`; unused pieces keep `other`'s own mapping. */
  lemma MergeSemantics(next: Range, other: Range, v: int)
    ensures MergedContains(next.Merge(other), v) ==>
      other.Contains(v) && next.Contains(other.Shift(v))
      && next.Merge(other).merged.value.Shift(v) == next.Shift(other.Shift(v))
    ensures forall k :: 0 <= k < |next.Merge(other).unused| && next.Merge(other).unused[k].Contains(v) ==>
      other.Contains(v) && !next.Contains(other.Shift(v))
      && next.Merge(other).unused[k].Shift(v) == other.Shift(v)
    ensures other.Contains(v) ==>
      MergedContains(next.Merge(other), v) || UnusedContains(next.Merge(other), v)
  {
    var res := next.Merge(other);
    if other.Contains(v) && !next.Contains(other.Shift(v)) && !MergedContains(res, v) {
      if res.merged.None? {
        assert res.unused[0].Contains(v);
      } else if next.ContainsRange(other) {
      } else if next.ContainsRangeStart(other) {
        assert res.unused[0].Contains(v);
      } else if next.ContainsRangeEnd(other) {
        assert res.unused[0].Contains(v);
      } else {
        if v < other.sourceStart + (next.sourceStart - other.targetStart) {
          assert res.unused[0].Contains(v);
        } else {
          assert res.unused[1].Contains(v);
        }
      }
    }
  }

  /** The scan of `flatten`'s inner loop: the first range of `next` (from index `j` on)
      whose merge with `prev` yields a non-empty piece. */
  function FirstMerge(next: seq<Range>, prev: Range, j: nat): (r: Option<(nat, MergeResult)>)
    requires j <= |next|
    ensures r.Some? ==> j <= r.value.0 < |next| && r.value.1 == next[r.value.0].Merge(prev)
    ensures r.Some? ==> r.value.1.merged.Some? && r.value.1.merged.value.length != 0
    ensures forall i :: j <= i < (if r.Some? then r.value.0 else |next|) ==>
      var m := next[i].Merge(prev); m.merged.None? || m.merged.value.length == 0
    decreases |next| - j
  {
    if j == |next| then None
    else
      var partial := next[j].Merge(prev);
      if partial.merged.Some? && partial.merged.value.length != 0 then Some((j, partial))
      else FirstMerge(next, prev, j + 1)
  }

  /** `RangeMap::flatten`'s work-queue loop: the head of the queue is either emitted
      unchanged (no range of `next` overlaps it) or split, the composed piece being
      emitted and the unused pieces re-queued at the back. */
  function FlattenQueue(queue: seq<Range>, next: seq<Range>): seq<Range>
    decreases TotalLength(queue), |queue|
  {
    if queue == [] then []
    else
      var prev := queue[0];
      match FirstMerge(next, prev, 0)
      case None => [prev] + FlattenQueue(queue[1..], next)
      case Some((_, partial)) =>
        TotalLengthAppend(queue[1..], partial.unused);
        [partial.merged.value] + FlattenQueue(queue[1..] + partial.unused, next)
  }

  datatype RangeMap = RangeMap(ranges: seq<Range>) {

    /** The target of the first range containing `v`, or `v` itself. */
    function Destination(v: nat): (r: nat)
      ensures (forall i :: 0 <= i < |ranges| ==> !ranges[i].Contains(v)) ==> r == v
      ensures forall i :: (0 <= i < |ranges| && ranges[i].Contains(v)
                           && forall j :: 0 <= j < i ==> !ranges[j].Contains(v)) ==> r == ranges[i].Shift(v)
      decreases |ranges|
    {
      if ranges == [] then v
      else match ranges[0].Target(v)
        case Some(t) => t
        case None =>
          var rest := RangeMap(ranges[1..]).Destination(v);
          assert forall i :: 1 <= i < |ranges| ==> ranges[i] == ranges[1..][i - 1];
          rest
    }

    function Flatten(nextLevel: RangeMap): RangeMap {
      RangeMap(FlattenQueue(ranges, nextLevel.ranges))
    }

    /** Whether some range of the map contains `v`. */
    predicate Covers(v: int) {
      exists i :: 0 <= i < |ranges| && ranges[i].Contains(v)
    }

    /** The source intervals of the ranges are pairwise disjoint. */
    predicate Disjoint() {
      forall i, j :: 0 <= i < j < |ranges| ==> !ranges[i].SourceOverlaps(ranges[j])
    }
  }

  /** Flattening neither creates nor loses any mapped value. */
  lemma {:induction false} FlattenQueuePreservesLength(queue: seq<Range>, next: seq<Range>)
    ensures TotalLength(FlattenQueue(queue, next)) == TotalLength(queue)
    decreases TotalLength(queue), |queue|
  {
    if queue != [] {
      var prev := queue[0];
      match FirstMerge(next, prev, 0)
      case None =>
        FlattenQueuePreservesLength(queue[1..], next);
        TotalLengthAppend([prev], FlattenQueue(queue[1..], next));
      case Some((_, partial)) =>
        TotalLengthAppend(queue[1..], partial.unused);
        FlattenQueuePreservesLength(queue[1..] + partial.unused, next);
        TotalLengthAppend([partial.merged.value], FlattenQueue(queue[1..] + partial.unused, next));
    }
  }

  lemma FlattenPreservesLength(m: RangeMap, nextLevel: RangeMap)
    ensures TotalLength(m.Flatten(nextLevel).ranges) == TotalLength(m.ranges)
  {
    FlattenQueuePreservesLength(m.ranges, nextLevel.ranges);
  }

  /** When no range of `next` contains `t`, the lookup falls back to the identity; when
      `next[j]` is the first one containing it, `next[j]` maps it. */
  lemma DestinationFirst(next: seq<Range>, j: int, t: nat)
    requires 0 <= j <= |next|
    requires forall i :: 0 <= i < j ==> !next[i].Contains(t)
    requires j < |next| ==> next[j].Contains(t)
    requires j == |next| ==> forall i :: 0 <= i < |next| ==> !next[i].Contains(t)
    ensures RangeMap(next).Destination(t) == if j < |next| then next[j].Shift(t) else t
  {
  }

  lemma FlattenQueueUnfold(queue: seq<Range>, next: seq<Range>)
    requires queue != []
    ensures FirstMerge(next, queue[0], 0).None? ==>
      FlattenQueue(queue, next) == [queue[0]] + FlattenQueue(queue[1..], next)
    ensures FirstMerge(next, queue[0], 0).Some? ==>
      var partial := FirstMerge(next, queue[0], 0).value.1;
      FlattenQueue(queue, next) == [partial.merged.value] + FlattenQueue(queue[1..] + partial.unused, next)
  {
  }

  /** A range that no range of `next` overlaps is already composed with `next`. */
  lemma PassThroughSound(next: seq<Range>, prev: Range, v: nat)
    requires FirstMerge(next, prev, 0).None? && prev.Contains(v)
    ensures RangeMap(next).Destination(prev.Shift(v)) == prev.Shift(v)
  {
    var t := prev.Shift(v);
    forall i | 0 <= i < |next| ensures !next[i].Contains(t) {
      MergeSemantics(next[i], prev, v);
    }
    DestinationFirst(next, |next|, t);
  }

  /** The composed piece maps as `next` after `prev`. */
  lemma MergedSound(next: seq<Range>, prev: Range, v: nat)
    requires FirstMerge(next, prev, 0).Some?
    requires MergedContains(FirstMerge(next, prev, 0).value.1, v)
    ensures prev.Contains(v)
    ensures FirstMerge(next, prev, 0).value.1.merged.value.Shift(v)
      == RangeMap(next).Destination(prev.Shift(v))
  {
    var j := FirstMerge(next, prev, 0).value.0;
    MergeSemantics(next[j], prev, v);
    var t := prev.Shift(v);
    forall i | 0 <= i < j ensures !next[i].Contains(t) {
      MergeSemantics(next[i], prev, v);
    }
    DestinationFirst(next, j, t);
  }

  /** `RangeMap(next).Destination(t)` under a name of its own, so that proofs about
      the queue can keep the map's definition out of sight. */
  function Dest(next: seq<Range>, t: nat): nat {
    RangeMap(next).Destination(t)
  }

  lemma DestIs(next: seq<Range>, t: nat)
    ensures Dest(next, t) == RangeMap(next).Destination(t)
  {
  }

  /** The piece one round of the loop emits. */
  function StepHead(queue: seq<Range>, next: seq<Range>): Range
    requires queue != []
  {
    match FirstMerge(next, queue[0], 0)
    case None => queue[0]
    case Some((_, partial)) => partial.merged.value
  }

  /** The queue one round of the loop leaves. */
  function StepRest(queue: seq<Range>, next: seq<Range>): seq<Range>
    requires queue != []
  {
    match FirstMerge(next, queue[0], 0)
    case None => queue[1..]
    case Some((_, partial)) => queue[1..] + partial.unused
  }

  lemma StepUnfold(queue: seq<Range>, next: seq<Range>)
    requires queue != []
    ensures FlattenQueue(queue, next) == [StepHead(queue, next)] + FlattenQueue(StepRest(queue, next), next)
    ensures TotalLength(StepRest(queue, next)) < TotalLength(queue)
      || (TotalLength(StepRest(queue, next)) == TotalLength(queue) && |StepRest(queue, next)| < |queue|)
  {
    FlattenQueueUnfold(queue, next);
    if FirstMerge(next, queue[0], 0).Some? {
      MergeShrinks(queue, next);
    } else {
      assert TotalLength(queue) == queue[0].length + TotalLength(queue[1..]);
    }
  }

  /** The emitted piece maps its values as `next` does after the head of the queue. */
  lemma HeadSound(queue: seq<Range>, next: seq<Range>, v: nat)
    requires queue != [] && StepHead(queue, next).Contains(v)
    ensures queue[0].Contains(v)
    ensures StepHead(queue, next).Shift(v) == Dest(next, queue[0].Shift(v))
  {
    if FirstMerge(next, queue[0], 0).None? {
      PassThroughSound(next, queue[0], v);
    } else {
      MergedSound(next, queue[0], v);
    }
  }

  /** Every value of the remaining queue sits, unshifted, in a range of the old one. */
  lemma RestSound(queue: seq<Range>, next: seq<Range>, j: nat, v: nat) returns (k: nat)
    requires queue != [] && j < |StepRest(queue, next)| && StepRest(queue, next)[j].Contains(v)
    ensures k < |queue| && queue[k].Contains(v)
    ensures StepRest(queue, next)[j].Shift(v) == queue[k].Shift(v)
  {
    var rest := StepRest(queue, next);
    if j < |queue| - 1 {
      assert rest[j] == queue[j + 1];
      k := j + 1;
    } else {
      var prev := queue[0];
      var partial := FirstMerge(next, prev, 0).value.1;
      assert rest[j] == partial.unused[j - (|queue| - 1)];
      UnusedSound(next, prev, j - (|queue| - 1), v);
      k := 0;
    }
  }

  /** Every emitted piece maps each of its values as `next` does after some queued
      range. */
  lemma {:induction false} FlattenQueueSound(queue: seq<Range>, next: seq<Range>, d: nat, v: nat)
    returns (k: nat)
    requires d < |FlattenQueue(queue, next)| && FlattenQueue(queue, next)[d].Contains(v)
    ensures k < |queue| && queue[k].Contains(v)
    ensures FlattenQueue(queue, next)[d].Shift(v) == Dest(next, queue[k].Shift(v))
    decreases TotalLength(queue), |queue|
  {
    StepUnfold(queue, next);
    hide *;
    var rest := StepRest(queue, next);
    if d == 0 {
      HeadSound(queue, next, v);
      k := 0;
    } else {
      assert FlattenQueue(queue, next)[d] == FlattenQueue(rest, next)[d - 1];
      var k' := FlattenQueueSound(rest, next, d - 1, v);
      k := RestSound(queue, next, k', v);
    }
  }

  /** A merge emits a non-empty piece, so the queue's total length drops. */
  lemma MergeShrinks(queue: seq<Range>, next: seq<Range>)
    requires queue != [] && FirstMerge(next, queue[0], 0).Some?
    ensures TotalLength(queue[1..] + FirstMerge(next, queue[0], 0).value.1.unused) < TotalLength(queue)
  {
    TotalLengthAppend(queue[1..], FirstMerge(next, queue[0], 0).value.1.unused);
  }

  /** A re-queued leftover of a range keeps that range's values where they were. */
  lemma UnusedSound(next: seq<Range>, prev: Range, u: nat, v: nat)
    requires FirstMerge(next, prev, 0).Some?
    requires u < |FirstMerge(next, prev, 0).value.1.unused|
    requires FirstMerge(next, prev, 0).value.1.unused[u].Contains(v)
    ensures prev.Contains(v)
    ensures FirstMerge(next, prev, 0).value.1.unused[u].Shift(v) == prev.Shift(v)
  {
    MergeSemantics(next[FirstMerge(next, prev, 0).value.0], prev, v);
  }

  /** One round of the loop: the emitted piece and the queue that remains. The old
      tail stays at the front of the new queue, and whatever of the head is not emitted
      is re-queued behind it. */
  lemma Step(queue: seq<Range>, next: seq<Range>) returns (head: Range, rest: seq<Range>)
    requires queue != []
    ensures FlattenQueue(queue, next) == [head] + FlattenQueue(rest, next)
    ensures TotalLength(rest) <= TotalLength(queue)
    ensures |rest| < |queue| || TotalLength(rest) < TotalLength(queue)
    ensures queue[1..] <= rest
    ensures forall v :: queue[0].Contains(v) && !head.Contains(v) ==>
      exists k :: |queue| - 1 <= k < |rest| && rest[k].Contains(v)
  {
    FlattenQueueUnfold(queue, next);
    var first := FirstMerge(next, queue[0], 0);
    if first.None? {
      head, rest := queue[0], queue[1..];
    } else {
      var partial := first.value.1;
      TotalLengthAppend(queue[1..], partial.unused);
      head, rest := partial.merged.value, queue[1..] + partial.unused;
      forall v | queue[0].Contains(v) && !head.Contains(v)
        ensures exists k :: |queue| - 1 <= k < |rest| && rest[k].Contains(v)
      {
        MergeSemantics(next[first.value.0], queue[0], v);
        var u :| 0 <= u < |partial.unused| && partial.unused[u].Contains(v);
        assert rest[|queue| - 1 + u] == partial.unused[u];
      }
    }
  }

  /** Every value of a queued range ends up in some emitted piece. */
  lemma {:induction false} FlattenQueueComplete(queue: seq<Range>, next: seq<Range>, k: nat, v: nat)
    returns (d: nat)
    requires k < |queue| && queue[k].Contains(v)
    ensures d < |FlattenQueue(queue, next)| && FlattenQueue(queue, next)[d].Contains(v)
    decreases TotalLength(queue), |queue|
  {
    var head, rest := Step(queue, next);
    if k == 0 && head.Contains(v) {
      d := 0;
    } else {
      var k': nat;
      if k == 0 {
        k' :| |queue| - 1 <= k' < |rest| && rest[k'].Contains(v);
      } else {
        k' := k - 1;
        assert rest[k'] == queue[1..][k'];
      }
      var d' := FlattenQueueComplete(rest, next, k', v);
      d := d' + 1;
    }
  }

  /** The first range containing `v` in a list where only one range can contain it. */
  lemma DestinationDisjoint(m: RangeMap, k: nat, v: nat)
    requires m.Disjoint() && k < |m.ranges| && m.ranges[k].Contains(v)
    ensures m.Destination(v) == m.ranges[k].Shift(v)
  {
    forall j | 0 <= j < k ensures !m.ranges[j].Contains(v) {
    }
  }

  /** The defining property of `flatten`: on every value the first map covers, the
      flattened map agrees with looking the value up in the first map and then in the
      second. The first map's ranges must not overlap (the second map's may). */
  lemma FlattenComposes(m: RangeMap, nextLevel: RangeMap, v: nat)
    requires m.Disjoint() && m.Covers(v)
    ensures m.Flatten(nextLevel).Destination(v) == nextLevel.Destination(m.Destination(v))
  {
    var out := m.Flatten(nextLevel).ranges;
    var k0 :| 0 <= k0 < |m.ranges| && m.ranges[k0].Contains(v);
    var d0 := FlattenQueueComplete(m.ranges, nextLevel.ranges, k0, v);
    var d := FirstIndex(out, v, d0);
    var k := FlattenQueueSound(m.ranges, nextLevel.ranges, d, v);
    DestinationDisjoint(m, k, v);
    DestinationFirst(out, d, v);
  }

  /** The smallest index at or below `bound` whose range contains `v`. */
  lemma FirstIndex(rs: seq<Range>, v: int, bound: nat) returns (d: nat)
    requires bound < |rs| && rs[bound].Contains(v)
    ensures d <= bound && rs[d].Contains(v) && forall e :: 0 <= e < d ==> !rs[e].Contains(v)
  {
    d := 0;
    while !rs[d].Contains(v)
      invariant d <= bound
      invariant forall e :: 0 <= e < d ==> !rs[e].Contains(v)
      decreases bound - d
    {
      d := d + 1;
    }
  }

  /** A piece of the flattened maps that holds `v` is part of a range of the first map
      holding `v`, and maps `v` as that range does followed by every later stage. */
  lemma {:induction false} FlattenAllSound(m: RangeMap, maps: seq<RangeMap>, d: nat, v: nat)
    returns (k: nat)
    requires d < |FlattenAll(m, maps).ranges| && FlattenAll(m, maps).ranges[d].Contains(v)
    ensures k < |m.ranges| && m.ranges[k].Contains(v)
    ensures FlattenAll(m, maps).ranges[d].Shift(v) == Location(maps, m.ranges[k].Shift(v))
    decreases |maps|
  {
    if maps == [] {
      k := d;
    } else {
      var m' := m.Flatten(maps[0]);
      var k' := FlattenAllSound(m', maps[1..], d, v);
      k := FlattenQueueSound(m.ranges, maps[0].ranges, k', v);
      assert RangeMap(maps[0].ranges) == maps[0];
    }
  }

  /** Every value of a range of the first map lies in some piece of the flattened maps. */
  lemma {:induction false} FlattenAllCovers(m: RangeMap, maps: seq<RangeMap>, k: nat, v: nat)
    returns (d: nat)
    requires k < |m.ranges| && m.ranges[k].Contains(v)
    ensures d < |FlattenAll(m, maps).ranges| && FlattenAll(m, maps).ranges[d].Contains(v)
    decreases |maps|
  {
    if maps == [] {
      d := k;
    } else {
      var d' := FlattenQueueComplete(m.ranges, maps[0].ranges, k, v);
      d := FlattenAllCovers(m.Flatten(maps[0]), maps[1..], d', v);
    }
  }

  predicate AllNonEmpty(rs: seq<Range>) {
    forall k :: 0 <= k < |rs| ==> rs[k].length > 0
  }

  /** Flattening emits no empty piece from non-empty ranges, and emits nothing exactly
      when there is nothing to flatten. */
  lemma {:induction false} FlattenQueueNonEmpty(queue: seq<Range>, next: seq<Range>)
    ensures AllNonEmpty(queue) ==> AllNonEmpty(FlattenQueue(queue, next))
    ensures FlattenQueue(queue, next) == [] <==> queue == []
    decreases TotalLength(queue), |queue|
  {
    if queue != [] {
      StepUnfold(queue, next);
      var rest := StepRest(queue, next);
      FlattenQueueNonEmpty(rest, next);
      if AllNonEmpty(queue) {
        match FirstMerge(next, queue[0], 0)
        case None =>
          assert forall k :: 0 <= k < |rest| ==> rest[k] == queue[k + 1];
        case Some((j, partial)) =>
          MergeUnusedNonEmpty(next[j], queue[0]);
          assert forall k :: 0 <= k < |rest| ==>
            rest[k] == if k < |queue| - 1 then queue[k + 1] else partial.unused[k - (|queue| - 1)];
      }
    }
  }

  /** The leftovers of a merge are never empty pieces of a non-empty range. */
  lemma MergeUnusedNonEmpty(next: Range, other: Range)
    requires other.length > 0
    ensures AllNonEmpty(next.Merge(other).unused)
  {
  }

  lemma {:induction false} FlattenAllNonEmpty(m: RangeMap, maps: seq<RangeMap>)
    ensures AllNonEmpty(m.ranges) ==> AllNonEmpty(FlattenAll(m, maps).ranges)
    ensures FlattenAll(m, maps).ranges == [] <==> m.ranges == []
    decreases |maps|
  {
    if maps != [] {
      FlattenQueueNonEmpty(m.ranges, maps[0].ranges);
      FlattenAllNonEmpty(m.Flatten(maps[0]), maps[1..]);
    }
  }

  /** The location a seed reaches: its `destination` in every stage, in order. */
  function Location(maps: seq<RangeMap>, seed: nat): nat
    decreases |maps|
  {
    if maps == [] then seed else Location(maps[1..], maps[0].Destination(seed))
  }

  function MinOf(xs: seq<nat>): (m: nat)
    requires |xs| > 0
    ensures m in xs && forall i :: 0 <= i < |xs| ==> m <= xs[i]
  {
    if |xs| == 1 then xs[0]
    else
      var rest := MinOf(xs[1..]);
      assert forall i :: 1 <= i < |xs| ==> xs[i] == xs[1..][i - 1];
      if xs[0] <= rest then xs[0] else rest
  }

  /** `part1`, `None` where the source's `unwrap` panics on an empty seed list. */
  function Part1(seeds: seq<nat>, maps: seq<RangeMap>): (r: Option<nat>)
    ensures r.None? <==> |seeds| == 0
    ensures r.Some? ==> exists i :: 0 <= i < |seeds| && r.value == Location(maps, seeds[i])
    ensures r.Some? ==> forall i :: 0 <= i < |seeds| ==> r.value <= Location(maps, seeds[i])
  {
    if |seeds| == 0 then None
    else
      var locations := seq(|seeds|, i requires 0 <= i < |seeds| => Location(maps, seeds[i]));
      assert forall i :: 0 <= i < |seeds| ==> locations[i] == Location(maps, seeds[i]);
      Some(MinOf(locations))
  }

  /** The seed ranges of part 2: pairs `(start, length)` taken from even positions. */
  function SeedRanges(seeds: seq<nat>): (rs: seq<Range>)
    ensures |rs| == |seeds| / 2
    ensures forall i :: 0 <= i < |rs| ==>
      rs[i] == Range(seeds[2 * i], seeds[2 * i], seeds[2 * i + 1])
    decreases |seeds|
  {
    if |seeds| < 2 then []
    else
      var rest := SeedRanges(seeds[2..]);
      assert forall i :: 0 <= i < |rest| ==>
        (seeds[2..][2 * i] == seeds[2 * (i + 1)] && seeds[2..][2 * i + 1] == seeds[2 * (i + 1) + 1]);
      [Range(seeds[0], seeds[0], seeds[1])] + rest
  }

  function FlattenAll(m: RangeMap, maps: seq<RangeMap>): RangeMap
    decreases |maps|
  {
    if maps == [] then m else FlattenAll(m.Flatten(maps[0]), maps[1..])
  }

  /** `part2`: the lowest target start of the fully flattened seed ranges, `None` where
      the source's `unwrap` panics on an empty list. It is at most the location of every
      seed in the seed ranges and, when no seed range is empty, the location of one of
      them. */
  function Part2(seeds: seq<nat>, maps: seq<RangeMap>): (r: Option<nat>)
    ensures r.None? <==> |seeds| < 2
    ensures r.Some? ==> forall k, s :: 0 <= k < |SeedRanges(seeds)| && SeedRanges(seeds)[k].Contains(s) ==>
      r.value <= Location(maps, s)
    ensures r.Some? && AllNonEmpty(SeedRanges(seeds)) ==>
      exists k, s :: 0 <= k < |SeedRanges(seeds)| && SeedRanges(seeds)[k].Contains(s) && r.value == Location(maps, s)
  {
    var final := FlattenAll(RangeMap(SeedRanges(seeds)), maps).ranges;
    FlattenAllNonEmpty(RangeMap(SeedRanges(seeds)), maps);
    var r := LowestStart(final);
    if r.None? then r
    else
      Part2Least(seeds, maps, final, r.value);
      Part2Reached(seeds, maps, final, r.value);
      r
  }

  /** The least target start of a list of ranges, `None` for the empty list. */
  function LowestStart(rs: seq<Range>): (r: Option<nat>)
    ensures r.None? <==> rs == []
    ensures r.Some? ==> forall i :: 0 <= i < |rs| ==> r.value <= rs[i].targetStart
    ensures r.Some? ==> exists i :: 0 <= i < |rs| && r.value == rs[i].targetStart
  {
    if rs == [] then None
    else
      var starts := seq(|rs|, i requires 0 <= i < |rs| => rs[i].targetStart);
      var m := MinOf(starts);
      assert forall i :: 0 <= i < |rs| ==> m <= starts[i] && starts[i] == rs[i].targetStart;
      Some(m)
  }

  lemma Part2Least(seeds: seq<nat>, maps: seq<RangeMap>, final: seq<Range>, r: nat)
    requires final == FlattenAll(RangeMap(SeedRanges(seeds)), maps).ranges
    requires forall i :: 0 <= i < |final| ==> r <= final[i].targetStart
    ensures forall k, s :: 0 <= k < |SeedRanges(seeds)| && SeedRanges(seeds)[k].Contains(s) ==>
      r <= Location(maps, s)
  {
    hide FlattenAll, Location;
    var S := SeedRanges(seeds);
    forall k, s | 0 <= k < |S| && S[k].Contains(s) ensures r <= Location(maps, s) {
      var d := FlattenAllCovers(RangeMap(S), maps, k, s);
      var k' := FlattenAllSound(RangeMap(S), maps, d, s);
    }
  }

  lemma Part2Reached(seeds: seq<nat>, maps: seq<RangeMap>, final: seq<Range>, r: nat)
    requires final == FlattenAll(RangeMap(SeedRanges(seeds)), maps).ranges
    requires exists i :: 0 <= i < |final| && r == final[i].targetStart
    ensures AllNonEmpty(SeedRanges(seeds)) ==>
      exists k, s :: 0 <= k < |SeedRanges(seeds)| && SeedRanges(seeds)[k].Contains(s) && r == Location(maps, s)
  {
    hide FlattenAll, Location;
    var S := SeedRanges(seeds);
    if AllNonEmpty(S) {
      FlattenAllNonEmpty(RangeMap(S), maps);
      var i :| 0 <= i < |final| && r == final[i].targetStart;
      var s := final[i].sourceStart;
      assert final[i].Contains(s);
      var k := FlattenAllSound(RangeMap(S), maps, i, s);
      assert S[k].Contains(s) && r == Location(maps, s);
    }
  }

  /** `Range::from_str`: three space-separated numbers, target start first. */
  function ParseRange(s: string): (r: Result<Range>)
    ensures r.Ok? ==> |Split(s, " ")| == 3
  {
    var words := Split(s, " ");
    if |words| != 3 then Err
    else
      var t :- OkOr(ParseNat(words[0]));
      var src :- OkOr(ParseNat(words[1]));
      var len :- OkOr(ParseNat(words[2]));
      Ok(Range(t, src, len))
  }

  function RangeToString(r: Range): string {
    NatToString(r.targetStart) + " " + NatToString(r.sourceStart) + " " + NatToString(r.length)
  }

  /** Parsing inverts the textual form of a range. */
  lemma ParseRangeRoundTrip(r: Range)
    ensures ParseRange(RangeToString(r)) == Ok(r)
  {
    var a, b, c := NatToString(r.targetStart), NatToString(r.sourceStart), NatToString(r.length);
    NoSpaceInNumber(r.targetStart);
    NoSpaceInNumber(r.sourceStart);
    NoSpaceInNumber(r.length);
    assert Join([a, b, c], " ") == a + " " + (b + " " + c) by {
      assert [a, b, c][1..] == [b, c];
      assert [b, c][1..] == [c];
      assert Join([c], " ") == c;
      assert Join([b, c], " ") == b + " " + c;
    }
    assert RangeToString(r) == Join([a, b, c], " ");
    SplitJoinChar([a, b, c], ' ');
    ParseNatToString(r.targetStart);
    ParseNatToString(r.sourceStart);
    ParseNatToString(r.length);
  }

  lemma NoSpaceInNumber(n: nat)
    ensures ' ' !in NatToString(n)
  {
    var s := NatToString(n);
    assert forall j :: 0 <= j < |s| ==> IsDigit(s[j]) && s[j] != ' ';
  }

  /** `RangeMap::from_str`: one range per line after the header line. */
  function ParseRangeMap(s: string): (r: Result<RangeMap>)
    ensures r.Ok? ==> |r.value.ranges| == if |Lines(s)| == 0 then 0 else |Lines(s)| - 1
  {
    var lines := Lines(s);
    var body := if |lines| == 0 then [] else lines[1..];
    var ranges :- ParseAll(body);
    Ok(RangeMap(ranges))
  }

  function ParseAll(lines: seq<string>): (r: Result<seq<Range>>)
    ensures r.Ok? ==> |r.value| == |lines|
    ensures r.Ok? ==> forall i :: 0 <= i < |lines| ==> ParseRange(lines[i]) == Ok(r.value[i])
  {
    if lines == [] then Ok([])
    else
      var first :- ParseRange(lines[0]);
      var rest :- ParseAll(lines[1..]);
      assert forall i :: 1 <= i < |lines| ==> lines[i] == lines[1..][i - 1];
      Ok([first] + rest)
  }

  /** The merge cases of the unit tests: composed piece and unused pieces. */
  lemma MergeExamples()
    ensures Range(20, 10, 5).Merge(Range(10, 0, 5)) == MergeResult(Some(Range(20, 0, 5)), [])
    ensures Range(20, 7, 5).Merge(Range(10, 0, 5)) == MergeResult(Some(Range(23, 0, 2)), [Range(12, 2, 3)])
    ensures Range(20, 11, 7).Merge(Range(10, 0, 5)) == MergeResult(Some(Range(20, 1, 4)), [Range(10, 0, 1)])
    ensures Range(20, 12, 2).Merge(Range(10, 0, 5))
      == MergeResult(Some(Range(20, 2, 2)), [Range(10, 0, 2), Range(14, 4, 1)])
    ensures Range(30, 20, 5).Merge(Range(10, 0, 5)) == MergeResult(None, [Range(10, 0, 5)])
  {
  }

  lemma FlattenExample()
    ensures RangeMap([Range(10, 0, 5), Range(200, 100, 10)]).Flatten(RangeMap([Range(20, 10, 3), Range(300, 200, 10)]))
      == RangeMap([Range(20, 0, 3), Range(300, 100, 10), Range(13, 3, 2)])
  {
    var next := [Range(20, 10, 3), Range(300, 200, 10)];
    var a, b, c := Range(10, 0, 5), Range(200, 100, 10), Range(13, 3, 2);
    assert FirstMerge(next, c, 0) == None;
    assert FlattenQueue([c], next) == [c] by {
      FlattenQueueUnfold([c], next);
      assert [c][1..] == [];
    }
    assert FirstMerge(next, b, 0) == Some((1, MergeResult(Some(Range(300, 100, 10)), [])));
    assert FlattenQueue([b, c], next) == [Range(300, 100, 10), c] by {
      FlattenQueueUnfold([b, c], next);
      assert [b, c][1..] + [] == [c];
    }
    assert FirstMerge(next, a, 0) == Some((0, MergeResult(Some(Range(20, 0, 3)), [c])));
    FlattenQueueUnfold([a, b], next);
    assert [a, b][1..] + [c] == [b, c];
  }

  function ExampleMaps(): seq<RangeMap> {
    [ RangeMap([Range(50, 98, 2), Range(52, 50, 48)]),
      RangeMap([Range(0, 15, 37), Range(37, 52, 2), Range(39, 0, 15)]),
      RangeMap([Range(49, 53, 8), Range(0, 11, 42), Range(42, 0, 7), Range(57, 7, 4)]),
      RangeMap([Range(88, 18, 7), Range(18, 25, 70)]),
      RangeMap([Range(45, 77, 23), Range(81, 45, 19), Range(68, 64, 13)]),
      RangeMap([Range(0, 69, 1), Range(1, 0, 69)]),
      RangeMap([Range(60, 56, 37), Range(56, 93, 4)]) ]
  }

  lemma LocationExample79()
    ensures Location(ExampleMaps(), 79) == 82
  {
    var maps := ExampleMaps();
    assert Location(maps[6..], 78) == 82;
    assert Location(maps[5..], 78) == 82;
    assert Location(maps[4..], 74) == 82;
    assert Location(maps[3..], 81) == 82;
    assert Location(maps[2..], 81) == 82;
    assert Location(maps[1..], 81) == 82;
  }

  lemma LocationExample14()
    ensures Location(ExampleMaps(), 14) == 43
  {
    var maps := ExampleMaps();
    assert Location(maps[6..], 43) == 43;
    assert Location(maps[5..], 42) == 43;
    assert Location(maps[4..], 42) == 43;
    assert Location(maps[3..], 49) == 43;
    assert Location(maps[2..], 53) == 43;
    assert Location(maps[1..], 14) == 43;
  }

  lemma LocationExample55()
    ensures Location(ExampleMaps(), 55) == 86
  {
    var maps := ExampleMaps();
    assert Location(maps[6..], 82) == 86;
    assert Location(maps[5..], 82) == 86;
    assert Location(maps[4..], 46) == 86;
    assert Location(maps[3..], 53) == 86;
    assert Location(maps[2..], 57) == 86;
    assert Location(maps[1..], 57) == 86;
  }

  lemma LocationExample13()
    ensures Location(ExampleMaps(), 13) == 35
  {
    var maps := ExampleMaps();
    assert Location(maps[6..], 35) == 35;
    assert Location(maps[5..], 34) == 35;
    assert Location(maps[4..], 34) == 35;
    assert Location(maps[3..], 41) == 35;
    assert Location(maps[2..], 52) == 35;
    assert Location(maps[1..], 13) == 35;
  }

  lemma Part1Example(seeds: seq<nat>, maps: seq<RangeMap>)
    requires seeds == [79, 14, 55, 13] && maps == ExampleMaps()
    ensures Part1(seeds, maps) == Some(35)
  {
    LocationExample79();
    LocationExample14();
    LocationExample55();
    LocationExample13();
    var r := Part1(seeds, maps).value;
    assert r <= Location(maps, seeds[3]);
    var i :| 0 <= i < |seeds| && r == Location(maps, seeds[i]);
    assert i == 0 || i == 1 || i == 2 || i == 3;
  }
}
