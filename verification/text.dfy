/** The pieces of Rust's `str` API that the puzzle parsers use, on `seq<char>`.

    Only ASCII text is considered, so a byte index and a character index agree.
    Number parsing is unbounded: `usize`/`isize` overflow is not modelled. */
module Text {
  import opened Wrappers

  predicate IsDigit(c: char) {
    '0' <= c <= '9'
  }

  function DigitValue(c: char): (d: nat)
    requires IsDigit(c)
    ensures d < 10
  {
    c as int - '0' as int
  }

  function DigitChar(d: nat): (c: char)
    requires d < 10
    ensures IsDigit(c) && DigitValue(c) == d
  {
    ('0' as int + d) as char
  }

  /** ASCII whitespace as understood by `char::is_whitespace`. */
  predicate IsWhitespace(c: char) {
    c == ' ' || c == '\t' || c == '\n' || c == '\r' || c == '\U{B}' || c == '\U{C}'
  }

  predicate OccursAt(s: string, pat: string, i: nat) {
    i + |pat| <= |s| && s[i..i + |pat|] == pat
  }

  ghost predicate Contains(s: string, pat: string) {
    exists i: nat :: OccursAt(s, pat, i)
  }

  predicate StartsWith(s: string, pat: string) {
    OccursAt(s, pat, 0)
  }

  predicate EndsWith(s: string, pat: string) {
    |pat| <= |s| && s[|s| - |pat|..] == pat
  }

  /** A one-character pattern occurs exactly where that character is. */
  lemma OccursAtChar(s: string, c: char, j: nat)
    ensures OccursAt(s, [c], j) <==> j < |s| && s[j] == c
  {
    if j < |s| {
      assert s[j..j + 1] == [s[j]];
    }
  }

  /** Leftmost occurrence of `pat` in `s` at or after `from`. */
  function FindFrom(s: string, pat: string, from: nat): (r: Option<nat>)
    requires |pat| > 0
    ensures r.Some? ==> from <= r.value && OccursAt(s, pat, r.value)
    ensures r.Some? ==> forall j: nat :: from <= j < r.value ==> !OccursAt(s, pat, j)
    ensures r.None? ==> forall j: nat :: from <= j ==> !OccursAt(s, pat, j)
    decreases |s| - from
  {
    if from + |pat| > |s| then None
    else if s[from..from + |pat|] == pat then Some(from)
    else FindFrom(s, pat, from + 1)
  }

  /** `str::find`: the leftmost occurrence of `pat`. */
  function Find(s: string, pat: string): (r: Option<nat>)
    requires |pat| > 0
    ensures r.Some? ==> OccursAt(s, pat, r.value)
    ensures r.Some? ==> forall j: nat :: j < r.value ==> !OccursAt(s, pat, j)
    ensures r.None? <==> !Contains(s, pat)
  {
    FindFrom(s, pat, 0)
  }

  /** `str::split_once`: the text before and after the leftmost `sep`. */
  function SplitOnce(s: string, sep: string): (r: Option<(string, string)>)
    requires |sep| > 0
    ensures r.Some? <==> Contains(s, sep)
    ensures r.Some? ==> s == r.value.0 + sep + r.value.1 && !Contains(r.value.0, sep)
  {
    match Find(s, sep)
    case None => None
    case Some(i) =>
      var r := (s[..i], s[i + |sep|..]);
      assert s == r.0 + sep + r.1 by {
        assert s == s[..i] + s[i..i + |sep|] + s[i + |sep|..];
      }
      assert !Contains(r.0, sep) by {
        forall j: nat | OccursAt(r.0, sep, j) ensures false {
          assert s[j..j + |sep|] == r.0[j..j + |sep|];
          assert OccursAt(s, sep, j);
        }
      }
      Some(r)
  }

  /** When the separator's first character does not occur in `a`, the first occurrence
      of the separator in `a + sep + b` is the one right after `a`. */
  lemma SplitOnceAfter(a: string, sep: string, b: string)
    requires |sep| > 0 && sep[0] !in a
    ensures SplitOnce(a + sep + b, sep) == Some((a, b))
  {
    var s := a + sep + b;
    assert OccursAt(s, sep, |a|) by {
      assert s[|a|..|a| + |sep|] == sep;
    }
    var r := Find(s, sep);
    assert r.Some?;
    assert r.value == |a|;
    assert s[..|a|] == a && s[|a| + |sep|..] == b;
  }

  /** `str::split` with a non-empty string pattern. */
  function Split(s: string, sep: string): (parts: seq<string>)
    requires |sep| > 0
    ensures |parts| >= 1
    ensures forall k :: 0 <= k < |parts| ==> !Contains(parts[k], sep)
    ensures Join(parts, sep) == s
    decreases |s|
  {
    match SplitOnce(s, sep)
    case None => [s]
    case Some((before, after)) => [before] + Split(after, sep)
  }

  /** The inverse of `Split`: the parts glued back with `sep` between them. */
  function Join(parts: seq<string>, sep: string): string
    requires |parts| >= 1
  {
    if |parts| == 1 then parts[0] else parts[0] + sep + Join(parts[1..], sep)
  }

  lemma NoOccurrence(s: string, c: char)
    requires c !in s
    ensures !Contains(s, [c])
  {
    forall i: nat | i + 1 <= |s| ensures !OccursAt(s, [c], i) {
      assert s[i..i + 1][0] == s[i];
    }
  }

  /** A text in which the one-character pattern `[c]` does not occur has no `c`. */
  lemma NoCharOccurrence(s: string, c: char)
    requires !Contains(s, [c])
    ensures c !in s
  {
    forall j | 0 <= j < |s| ensures s[j] != c {
      assert !OccursAt(s, [c], j);
      assert s[j..j + 1] == [s[j]];
    }
  }

  /** Splitting on a single character undoes joining parts that do not contain it. */
  lemma {:induction false} SplitJoinChar(parts: seq<string>, c: char)
    requires |parts| >= 1
    requires forall k :: 0 <= k < |parts| ==> c !in parts[k]
    ensures Split(Join(parts, [c]), [c]) == parts
    decreases |parts|
  {
    var s := Join(parts, [c]);
    if |parts| == 1 {
      NoOccurrence(parts[0], c);
    } else {
      var p0, tail := parts[0], Join(parts[1..], [c]);
      assert s == p0 + [c] + tail;
      assert OccursAt(s, [c], |p0|) by {
        assert s[|p0|..|p0| + 1] == [c];
      }
      var i := Find(s, [c]).value;
      assert s[i..i + 1][0] == s[i];
      assert i == |p0|;
      assert s[..i] == p0 && s[i + 1..] == tail;
      SplitJoinChar(parts[1..], c);
      assert [p0] + parts[1..] == parts;
    }
  }

  /** When no occurrence of `sep` starts inside `a`, not even one running on into the
      separator, the leftmost occurrence in `a + sep + b` is the one right after `a`. */
  lemma SplitOnceAt(a: string, sep: string, b: string)
    requires |sep| > 0 && !Contains(a + sep[..|sep| - 1], sep)
    ensures SplitOnce(a + sep + b, sep) == Some((a, b))
  {
    var s := a + sep + b;
    var a' := a + sep[..|sep| - 1];
    assert OccursAt(s, sep, |a|) by {
      assert s[|a|..|a| + |sep|] == sep;
    }
    forall j: nat | j < |a| ensures OccursAt(s, sep, j) ==> OccursAt(a', sep, j) {
      if j + |sep| <= |s| {
        assert s[j..j + |sep|] == a'[j..j + |sep|];
      }
    }
    var i := Find(s, sep).value;
    assert i == |a|;
    assert s[..|a|] == a && s[|a| + |sep|..] == b;
  }

  /** A pattern cannot occur where its first character is missing. */
  lemma AbsentFirst(s: string, pat: string)
    requires |pat| > 0 && forall j :: 0 <= j && j + |pat| <= |s| ==> s[j] != pat[0]
    ensures !Contains(s, pat)
  {
    forall j: nat | j + |pat| <= |s| ensures !OccursAt(s, pat, j) {
      assert s[j..j + |pat|][0] == s[j];
    }
  }

  /** A separator whose first character is missing from `a` does not start inside `a`. */
  lemma SeparatorAbsent(a: string, sep: string)
    requires |sep| > 0 && sep[0] !in a
    ensures !Contains(a + sep[..|sep| - 1], sep)
  {
    var t := a + sep[..|sep| - 1];
    forall j | 0 <= j && j + |sep| <= |t| ensures t[j] != sep[0] {
      assert t[j] == a[j];
    }
    AbsentFirst(t, sep);
  }

  /** A character in neither the parts nor the separator is not in their join. */
  lemma {:induction false} JoinAvoids(parts: seq<string>, sep: string, c: char)
    requires |parts| >= 1 && c !in sep && forall k :: 0 <= k < |parts| ==> c !in parts[k]
    ensures c !in Join(parts, sep)
    decreases |parts|
  {
    if |parts| > 1 {
      JoinAvoids(parts[1..], sep, c);
    }
  }

  /** Splitting undoes joining parts in which no occurrence of the separator starts. */
  lemma {:induction false} SplitJoin(parts: seq<string>, sep: string)
    requires |sep| > 0 && |parts| >= 1
    requires forall k :: 0 <= k < |parts| ==> !Contains(parts[k] + sep[..|sep| - 1], sep)
    ensures Split(Join(parts, sep), sep) == parts
    decreases |parts|
  {
    var p0 := parts[0];
    if |parts| == 1 {
      forall j: nat ensures OccursAt(p0, sep, j) ==> OccursAt(p0 + sep[..|sep| - 1], sep, j) {
        if j + |sep| <= |p0| {
          assert (p0 + sep[..|sep| - 1])[j..j + |sep|] == p0[j..j + |sep|];
        }
      }
    } else {
      SplitOnceAt(p0, sep, Join(parts[1..], sep));
      SplitJoin(parts[1..], sep);
      assert [p0] + parts[1..] == parts;
    }
  }

  /** Non-empty lines without newlines, glued with newlines: the text neither starts nor
      ends with a newline and never has two in a row. */
  predicate Paragraph(t: string) {
    && |t| > 0 && t[0] != '\n' && t[|t| - 1] != '\n'
    && forall j :: 0 <= j < |t| - 1 ==> !(t[j] == '\n' && t[j + 1] == '\n')
  }

  lemma {:induction false} JoinedLinesParagraph(ls: seq<string>)
    requires |ls| >= 1 && forall k :: 0 <= k < |ls| ==> |ls[k]| > 0 && '\n' !in ls[k]
    ensures Paragraph(Join(ls, "\n"))
    decreases |ls|
  {
    if |ls| > 1 {
      JoinedLinesParagraph(ls[1..]);
      var r, t := ls[0], Join(ls[1..], "\n");
      var u := r + "\n" + t;
      assert u == Join(ls, "\n");
      forall j | 0 <= j < |u| - 1 ensures !(u[j] == '\n' && u[j + 1] == '\n') {
        if j < |r| {
          assert u[j] == r[j];
        } else if j == |r| {
          assert u[j + 1] == t[0];
        } else {
          assert u[j] == t[j - |r| - 1] && u[j + 1] == t[j - |r|];
        }
      }
    }
  }

  /** A paragraph followed by one newline holds no blank line. */
  lemma ParagraphNoBreak(t: string)
    requires Paragraph(t)
    ensures !Contains(t + "\n\n"[..1], "\n\n")
  {
    var u := t + "\n\n"[..1];
    forall j: nat | j + 2 <= |u| ensures !OccursAt(u, "\n\n", j) {
      assert u[j..j + 2][0] == u[j] && u[j..j + 2][1] == u[j + 1];
      if j + 1 < |t| {
        assert u[j] == t[j] && u[j + 1] == t[j + 1];
      } else {
        assert u[j] == t[|t| - 1];
      }
    }
  }

  /** Blocks of lines written out, the lines of a block separated by newlines and the
      blocks by blank lines. */
  function Paragraphs(blocks: seq<seq<string>>): string
    requires |blocks| >= 1 && forall k :: 0 <= k < |blocks| ==> |blocks[k]| >= 1
  {
    Join(seq(|blocks|, k requires 0 <= k < |blocks| => Join(blocks[k], "\n")), "\n\n")
  }

  /** Blocks of non-empty, newline-free lines written as paragraphs split back into the
      same blocks, and each block's text reads back as its lines. */
  lemma ParagraphsRendered(blocks: seq<seq<string>>)
    requires |blocks| >= 1
    requires forall k :: 0 <= k < |blocks| ==> |blocks[k]| >= 1
    requires forall k, i :: 0 <= k < |blocks| && 0 <= i < |blocks[k]| ==>
      |blocks[k][i]| > 0 && '\n' !in blocks[k][i]
    ensures Split(Paragraphs(blocks), "\n\n") == seq(|blocks|, k requires 0 <= k < |blocks| => Join(blocks[k], "\n"))
    ensures forall k :: 0 <= k < |blocks| ==> Lines(Join(blocks[k], "\n")) == blocks[k]
  {
    var texts := seq(|blocks|, k requires 0 <= k < |blocks| => Join(blocks[k], "\n"));
    forall k | 0 <= k < |blocks|
      ensures !Contains(texts[k] + "\n\n"[..1], "\n\n") && Lines(texts[k]) == blocks[k]
    {
      JoinedLinesParagraph(blocks[k]);
      ParagraphNoBreak(texts[k]);
      LinesJoin(blocks[k]);
    }
    SplitJoin(texts, "\n\n");
  }

  /** `str::lines` for text without carriage returns: split on newlines, and a final
      newline does not start an extra empty line. */
  function Lines(s: string): (ls: seq<string>)
    ensures forall k :: 0 <= k < |ls| ==> '\n' !in ls[k]
  {
    var parts := Split(s, "\n");
    forall k | 0 <= k < |parts| ensures '\n' !in parts[k] {
      NoCharOccurrence(parts[k], '\n');
    }
    if parts[|parts| - 1] == [] then parts[..|parts| - 1] else parts
  }

  /** Lines glued with newlines, the last one not empty, are read back as themselves. */
  lemma LinesJoin(ls: seq<string>)
    requires |ls| >= 1 && |ls[|ls| - 1]| > 0
    requires forall k :: 0 <= k < |ls| ==> '\n' !in ls[k]
    ensures Lines(Join(ls, "\n")) == ls
  {
    SplitJoinChar(ls, '\n');
  }

  /** `str::split_whitespace`: the maximal runs of non-whitespace characters. */
  function SplitWhitespace(s: string): (words: seq<string>)
    ensures forall k :: 0 <= k < |words| ==> |words[k]| > 0
    ensures forall k, j :: 0 <= k < |words| && 0 <= j < |words[k]| ==> !IsWhitespace(words[k][j])
    decreases |s|
  {
    if |s| == 0 then []
    else if IsWhitespace(s[0]) then SplitWhitespace(s[1..])
    else
      var n := WordLength(s);
      [s[..n]] + SplitWhitespace(s[n..])
  }

  /** Length of the run of non-whitespace characters at the start of `s`. */
  function WordLength(s: string): (n: nat)
    ensures n <= |s|
    ensures forall j :: 0 <= j < n ==> !IsWhitespace(s[j])
    ensures n < |s| ==> IsWhitespace(s[n])
  {
    if |s| == 0 || IsWhitespace(s[0]) then 0 else 1 + WordLength(s[1..])
  }

  /** A non-empty run of characters none of which is whitespace. */
  predicate IsWord(w: string) {
    |w| > 0 && forall j :: 0 <= j < |w| ==> !IsWhitespace(w[j])
  }

  lemma {:induction false} WordLengthOf(w: string, t: string)
    requires forall j :: 0 <= j < |w| ==> !IsWhitespace(w[j])
    requires |t| == 0 || IsWhitespace(t[0])
    ensures WordLength(w + t) == |w|
    decreases |w|
  {
    if |w| == 0 {
      assert w + t == t;
    } else {
      assert (w + t)[1..] == w[1..] + t;
      WordLengthOf(w[1..], t);
    }
  }

  /** Words joined by single spaces split back into the same words. */
  lemma {:induction false} SplitWhitespaceJoin(words: seq<string>)
    requires |words| >= 1 && forall k :: 0 <= k < |words| ==> IsWord(words[k])
    ensures SplitWhitespace(Join(words, " ")) == words
    decreases |words|
  {
    var w := words[0];
    if |words| == 1 {
      WordLengthOf(w, "");
      assert w + "" == w;
      assert w[|w|..] == "";
    } else {
      var rest := Join(words[1..], " ");
      var s := w + " " + rest;
      WordLengthOf(w, " " + rest);
      assert s == w + (" " + rest);
      assert s[..|w|] == w && s[|w|..] == " " + rest;
      assert (" " + rest)[1..] == rest;
      SplitWhitespaceJoin(words[1..]);
      assert [w] + words[1..] == words;
    }
  }

  function TrimStart(s: string): (r: string)
    ensures |r| <= |s| && r == s[|s| - |r|..]
    ensures |r| > 0 ==> !IsWhitespace(r[0])
  {
    if |s| > 0 && IsWhitespace(s[0]) then TrimStart(s[1..]) else s
  }

  function TrimEnd(s: string): (r: string)
    ensures |r| <= |s| && r == s[..|r|]
    ensures |r| > 0 ==> !IsWhitespace(r[|r| - 1])
  {
    if |s| > 0 && IsWhitespace(s[|s| - 1]) then TrimEnd(s[..|s| - 1]) else s
  }

  /** `str::trim`. */
  function Trim(s: string): string {
    TrimEnd(TrimStart(s))
  }

  predicate AllDigits(s: string) {
    forall j :: 0 <= j < |s| ==> IsDigit(s[j])
  }

  /** The value of a string of decimal digits, most significant first. */
  function DigitsValue(s: string): nat
    requires AllDigits(s)
  {
    if |s| == 0 then 0 else DigitsValue(s[..|s| - 1]) * 10 + DigitValue(s[|s| - 1])
  }

  /** `str::parse::<usize>()`: an optional `+` followed by at least one digit. */
  function ParseNat(s: string): (r: Option<nat>)
    ensures r.Some? <==> (|s| > 0 && AllDigits(s)) || (|s| > 1 && s[0] == '+' && AllDigits(s[1..]))
  {
    if |s| > 0 && AllDigits(s) then Some(DigitsValue(s))
    else if |s| > 1 && s[0] == '+' && AllDigits(s[1..]) then Some(DigitsValue(s[1..]))
    else None
  }

  /** `str::parse::<isize>()`: an optional sign followed by at least one digit. */
  function ParseInt(s: string): (r: Option<int>)
    ensures r.Some? && r.value < 0 ==> |s| > 1 && s[0] == '-'
  {
    if |s| > 1 && s[0] == '-' && AllDigits(s[1..]) then Some(0 - DigitsValue(s[1..]) as int)
    else match ParseNat(s)
      case Some(n) => Some(n)
      case None => None
  }

  /** Decimal rendering of a natural number (`to_string`). */
  function NatToString(n: nat): (s: string)
    ensures |s| > 0 && AllDigits(s)
  {
    if n < 10 then [DigitChar(n)] else NatToString(n / 10) + [DigitChar(n % 10)]
  }

  lemma {:induction false} DigitsValueOfNatToString(n: nat)
    ensures DigitsValue(NatToString(n)) == n
  {
    if n >= 10 {
      var s := NatToString(n);
      assert s[..|s| - 1] == NatToString(n / 10);
      DigitsValueOfNatToString(n / 10);
    }
  }

  lemma NatToStringDigits(n: nat)
    ensures forall c :: c in NatToString(n) ==> IsDigit(c)
  {
    var s := NatToString(n);
    forall c | c in s ensures IsDigit(c) {
      var j :| 0 <= j < |s| && s[j] == c;
    }
  }

  /** Parsing a rendered number gives the number back. */
  lemma ParseNatToString(n: nat)
    ensures ParseNat(NatToString(n)) == Some(n)
  {
    DigitsValueOfNatToString(n);
  }

  /** Decimal rendering of an integer, with a leading `-` for negative values. */
  function IntToString(x: int): (s: string)
    ensures |s| > 0
  {
    if x < 0 then "-" + NatToString(-x) else NatToString(x)
  }

  /** Parsing a rendered integer gives the integer back. */
  lemma ParseIntToString(x: int)
    ensures ParseInt(IntToString(x)) == Some(x)
  {
    var s := IntToString(x);
    if x < 0 {
      assert s[1..] == NatToString(-x);
      DigitsValueOfNatToString(-x);
    } else {
      ParseNatToString(x);
      assert IsDigit(s[0]);
    }
  }
}
