/** Day 9: extrapolating a sequence of readings forwards and backwards through its table
    of differences. */
module Day09 {
  import opened Wrappers
  import opened Text

  /** `differences`: the differences of neighbouring readings (`windows(2)`). */
  function Differences(row: seq<int>): (d: seq<int>)
    ensures |d| == if |row| == 0 then 0 else |row| - 1
    ensures forall i :: 0 <= i < |d| ==> d[i] == row[i + 1] - row[i]
  {
    if |row| < 2 then [] else [row[1] - row[0]] + Differences(row[1..])
  }

  /** `row.iter().all(|x| x == &0)`. */
  predicate AllZero(row: seq<int>) {
    |row| == 0 || (row[0] == 0 && AllZero(row[1..]))
  }

  lemma {:induction false} AllZeroAt(row: seq<int>)
    ensures AllZero(row) <==> forall i :: 0 <= i < |row| ==> row[i] == 0
  {
    if |row| > 0 {
      AllZeroAt(row[1..]);
      assert forall i :: 1 <= i < |row| ==> row[1..][i - 1] == row[i];
    }
  }

  /** `next_value`: 0 for an all-zero row, otherwise the last reading plus the next
      value of the differences. A row that is not all zero is not empty. */
  function NextValue(row: seq<int>): int
    decreases |row|
  {
    if AllZero(row) then 0 else row[|row| - 1] + NextValue(Differences(row))
  }

  /** `previous_value`: 0 for an all-zero row, otherwise the first reading minus the
      previous value of the differences. */
  function PreviousValue(row: seq<int>): int
    decreases |row|
  {
    if AllZero(row) then 0 else row[0] - PreviousValue(Differences(row))
  }

  /** The extrapolated value continues the table: appending it to the row appends the
      next value of the differences to the differences. */
  lemma NextValueExtends(row: seq<int>)
    requires !AllZero(row)
    ensures Differences(row + [NextValue(row)]) == Differences(row) + [NextValue(Differences(row))]
  {
    var x := NextValue(row);
    var d, d' := Differences(row), Differences(row + [x]);
    assert |d'| == |d| + 1;
    forall i | 0 <= i < |d'| ensures d'[i] == (d + [NextValue(d)])[i] {
      if i == |d| {
        assert (row + [x])[i + 1] == x && (row + [x])[i] == row[|row| - 1];
      } else {
        assert (row + [x])[i + 1] == row[i + 1] && (row + [x])[i] == row[i];
      }
    }
  }

  /** Likewise backwards: prepending the extrapolated value prepends the previous value
      of the differences. */
  lemma PreviousValueExtends(row: seq<int>)
    requires !AllZero(row)
    ensures Differences([PreviousValue(row)] + row) == [PreviousValue(Differences(row))] + Differences(row)
  {
    var x := PreviousValue(row);
    var d, d' := Differences(row), Differences([x] + row);
    assert |d'| == |d| + 1;
    forall i | 0 <= i < |d'| ensures d'[i] == ([PreviousValue(d)] + d)[i] {
      if i == 0 {
        assert ([x] + row)[1] == row[0];
      } else {
        assert ([x] + row)[i + 1] == row[i] && ([x] + row)[i] == row[i - 1];
      }
    }
  }

  function Negate(row: seq<int>): (r: seq<int>)
    ensures |r| == |row| && forall i :: 0 <= i < |row| ==> r[i] == -row[i]
  {
    if |row| == 0 then [] else [-row[0]] + Negate(row[1..])
  }

  function Reverse(row: seq<int>): (r: seq<int>)
    ensures |r| == |row| && forall i :: 0 <= i < |row| ==> r[i] == row[|row| - 1 - i]
  {
    if |row| == 0 then [] else Reverse(row[1..]) + [row[0]]
  }

  /** Extrapolation is linear: negating the readings negates the next value. */
  lemma {:induction false} NextValueNegate(row: seq<int>)
    ensures NextValue(Negate(row)) == -NextValue(row)
    decreases |row|
  {
    AllZeroAt(row);
    AllZeroAt(Negate(row));
    if !AllZero(row) {
      DifferencesNegate(row);
      NextValueNegate(Differences(row));
    }
  }

  lemma DifferencesNegate(row: seq<int>)
    ensures Differences(Negate(row)) == Negate(Differences(row))
  {
  }

  lemma DifferencesReverse(row: seq<int>)
    ensures Differences(Reverse(row)) == Negate(Reverse(Differences(row)))
  {
    var a, b := Differences(Reverse(row)), Negate(Reverse(Differences(row)));
    assert |a| == |b|;
    forall i | 0 <= i < |a| ensures a[i] == b[i] {
      assert Reverse(row)[i + 1] == row[|row| - 2 - i] && Reverse(row)[i] == row[|row| - 1 - i];
      assert a[i] == row[|row| - 2 - i] - row[|row| - 1 - i];
    }
  }

  /** Extrapolating backwards is extrapolating forwards on the reversed readings. */
  lemma {:induction false} PreviousIsNextOfReverse(row: seq<int>)
    ensures PreviousValue(row) == NextValue(Reverse(row))
    decreases |row|
  {
    AllZeroReverse(row);
    if !AllZero(row) {
      var d := Differences(row);
      DifferencesReverse(row);
      PreviousIsNextOfReverse(d);
      NextValueNegate(Reverse(d));
      assert NextValue(Reverse(row)) == row[0] + NextValue(Negate(Reverse(d)));
    }
  }

  lemma AllZeroReverse(row: seq<int>)
    ensures AllZero(Reverse(row)) <==> AllZero(row)
  {
    AllZeroAt(row);
    AllZeroAt(Reverse(row));
    if !AllZero(row) {
      var i :| 0 <= i < |row| && row[i] != 0;
      assert Reverse(row)[|row| - 1 - i] == row[i];
    }
  }

  /** `part1`: the sum of the next values. */
  function Part1(rows: seq<seq<int>>): int {
    if |rows| == 0 then 0 else NextValue(rows[0]) + Part1(rows[1..])
  }

  /** `part2`: the sum of the previous values. */
  function Part2(rows: seq<seq<int>>): int {
    if |rows| == 0 then 0 else PreviousValue(rows[0]) + Part2(rows[1..])
  }

  /** Part two is part one on the reversed rows. */
  lemma {:induction false} Part2IsPart1Reversed(rows: seq<seq<int>>)
    ensures Part2(rows) == Part1(ReverseRows(rows))
  {
    if |rows| > 0 {
      PreviousIsNextOfReverse(rows[0]);
      Part2IsPart1Reversed(rows[1..]);
    }
  }

  function ReverseRows(rows: seq<seq<int>>): (r: seq<seq<int>>)
    ensures |r| == |rows| && forall i :: 0 <= i < |rows| ==> r[i] == Reverse(rows[i])
  {
    if |rows| == 0 then [] else [Reverse(rows[0])] + ReverseRows(rows[1..])
  }

  /** `parse_line`: the line split on single spaces, each piece an `isize`; one bad
      piece makes the whole line an error. */
  function ParseLine(line: string): (r: Result<seq<int>>)
    ensures r.Ok? ==> |r.value| == |Split(line, " ")|
  {
    ParseAll(Split(line, " "))
  }

  function ParseAll(pieces: seq<string>): (r: Result<seq<int>>)
    ensures r.Ok? <==> forall k :: 0 <= k < |pieces| ==> ParseInt(pieces[k]).Some?
    ensures r.Ok? ==> |r.value| == |pieces| && forall k :: 0 <= k < |pieces| ==> Some(r.value[k]) == ParseInt(pieces[k])
  {
    if |pieces| == 0 then Ok([])
    else match ParseInt(pieces[0])
      case None => Err
      case Some(x) =>
        match ParseAll(pieces[1..])
        case Err => Err
        case Ok(xs) => Ok([x] + xs)
  }

  function Render(xs: seq<int>): (pieces: seq<string>)
    ensures |pieces| == |xs| && forall k :: 0 <= k < |xs| ==> pieces[k] == IntToString(xs[k])
  {
    if |xs| == 0 then [] else [IntToString(xs[0])] + Render(xs[1..])
  }

  /** A row written out with single spaces is parsed back into the same row. */
  lemma ParseRendered(xs: seq<int>)
    requires |xs| >= 1
    ensures ParseLine(Join(Render(xs), " ")) == Ok(xs)
  {
    var pieces := Render(xs);
    forall k | 0 <= k < |pieces| ensures ' ' !in pieces[k] {
      RenderedHasNoSpace(xs[k]);
    }
    SplitJoinChar(pieces, ' ');
    ParseAllRendered(xs);
  }

  lemma {:induction false} ParseAllRendered(xs: seq<int>)
    ensures ParseAll(Render(xs)) == Ok(xs)
  {
    if |xs| > 0 {
      ParseIntToString(xs[0]);
      assert Render(xs)[1..] == Render(xs[1..]);
      ParseAllRendered(xs[1..]);
      assert [xs[0]] + xs[1..] == xs;
    }
  }

  lemma RenderedHasNoSpace(x: int)
    ensures ' ' !in IntToString(x)
  {
    var s := IntToString(x);
    if x >= 0 {
      assert AllDigits(s);
    } else {
      assert AllDigits(s[1..]);
      assert forall j :: 1 <= j < |s| ==> s[j] == s[1..][j - 1];
    }
  }

  /** `parse_input`: every line parsed, and any bad line aborts (`expect`), modelled as
      `None`. */
  function ParseInput(input: string): (rows: Option<seq<seq<int>>>)
    ensures rows.Some? ==> |rows.value| == |Lines(input)|
  {
    ParseLines(Lines(input))
  }

  function ParseLines(lines: seq<string>): (rows: Option<seq<seq<int>>>)
    ensures rows.Some? <==> forall k :: 0 <= k < |lines| ==> ParseLine(lines[k]).Ok?
    ensures rows.Some? ==> |rows.value| == |lines| && forall k :: 0 <= k < |lines| ==> Ok(rows.value[k]) == ParseLine(lines[k])
  {
    if |lines| == 0 then Some([])
    else match ParseLine(lines[0])
      case Err => None
      case Ok(row) =>
        match ParseLines(lines[1..])
        case None => None
        case Some(rows) => Some([row] + rows)
  }

  /** The example readings extrapolate to 18, 28 and 68 forwards, so part one gives
      114, and to -3, 0 and 5 backwards, so part two gives 2. */
  lemma ExampleRow1()
    ensures NextValue([0, 3, 6, 9, 12, 15]) == 18 && PreviousValue([0, 3, 6, 9, 12, 15]) == -3
  {
  }

  lemma ExampleRow2()
    ensures NextValue([1, 3, 6, 10, 15, 21]) == 28 && PreviousValue([1, 3, 6, 10, 15, 21]) == 0
  {
  }

  lemma ExampleRow3()
    ensures NextValue([10, 13, 16, 21, 30, 45]) == 68 && PreviousValue([10, 13, 16, 21, 30, 45]) == 5
  {
  }

  lemma Example()
    ensures Part1([[0, 3, 6, 9, 12, 15], [1, 3, 6, 10, 15, 21], [10, 13, 16, 21, 30, 45]]) == 114
    ensures Part2([[0, 3, 6, 9, 12, 15], [1, 3, 6, 10, 15, 21], [10, 13, 16, 21, 30, 45]]) == 2
  {
    ExampleRow1();
    ExampleRow2();
    ExampleRow3();
    hide NextValue, PreviousValue;
  }
}
