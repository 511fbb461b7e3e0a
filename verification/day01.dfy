/** Day 1: calibration values.

    `evaluate_line` reads the first and last ASCII digit of a line. For part 2,
    `read_digits` first turns the earliest-ending spelled-out digit into a digit
    (keeping the word's last letter, so that an overlapping word such as the `two`
    of `eightwo` survives), then turns the latest-starting spelled-out digit into a
    digit, found by running the automaton on the reversed line with the reversed
    words. */
module Day01 {
  import opened Wrappers
  import opened Text
  import opened Day01AhoCorasick

  /** The digits of a line, in order, as `filter(is_ascii_digit)` keeps them. */
  function Digits(s: string): (ds: seq<nat>)
    ensures |ds| <= |s|
    ensures forall k :: 0 <= k < |ds| ==> ds[k] < 10
  {
    if s == [] then []
    else (if IsDigit(s[0]) then [DigitValue(s[0])] else []) + Digits(s[1..])
  }

  lemma {:induction false} DigitsAppend(a: string, b: string)
    ensures Digits(a + b) == Digits(a) + Digits(b)
    decreases |a|
  {
    if a != [] {
      assert (a + b)[1..] == a[1..] + b;
      DigitsAppend(a[1..], b);
    } else {
      assert a + b == b;
    }
  }

  lemma {:induction false} NoDigits(s: string)
    requires forall k :: 0 <= k < |s| ==> !IsDigit(s[k])
    ensures Digits(s) == []
    decreases |s|
  {
    if s != [] {
      NoDigits(s[1..]);
    }
  }

  predicate HasDigit(line: string) {
    exists i :: 0 <= i < |line| && IsDigit(line[i])
  }

  /** `i` is the position of the first digit of `line`. */
  predicate FirstDigitAt(line: string, i: int) {
    0 <= i < |line| && IsDigit(line[i]) && forall k :: 0 <= k < i ==> !IsDigit(line[k])
  }

  /** `j` is the position of the last digit of `line`. */
  predicate LastDigitAt(line: string, j: int) {
    0 <= j < |line| && IsDigit(line[j]) && forall k :: j < k < |line| ==> !IsDigit(line[k])
  }

  /** The digits list begins with the first digit of the line. */
  lemma DigitsHead(line: string, i: int)
    requires FirstDigitAt(line, i)
    ensures |Digits(line)| > 0 && Digits(line)[0] == DigitValue(line[i])
  {
    assert line == line[..i] + line[i..];
    DigitsAppend(line[..i], line[i..]);
    NoDigits(line[..i]);
  }

  /** The digits list ends with the last digit of the line. */
  lemma DigitsLast(line: string, j: int)
    requires LastDigitAt(line, j)
    ensures |Digits(line)| > 0 && Digits(line)[|Digits(line)| - 1] == DigitValue(line[j])
  {
    assert line == line[..j] + [line[j]] + line[j + 1..];
    DigitsAppend(line[..j] + [line[j]], line[j + 1..]);
    DigitsAppend(line[..j], [line[j]]);
    NoDigits(line[j + 1..]);
    assert Digits([line[j]]) == [DigitValue(line[j])];
  }

  /** `evaluate_line`: ten times the first digit plus the last digit. A line without a
      digit makes the Rust code index an empty vector, a panic (`None`). */
  function EvaluateLine(line: string): (v: Option<nat>)
    ensures v.None? <==> !HasDigit(line)
    ensures v.Some? ==> v.value < 100
    ensures v.Some? ==> forall i, j :: FirstDigitAt(line, i) && LastDigitAt(line, j) ==>
      v.value == 10 * DigitValue(line[i]) + DigitValue(line[j])
  {
    if !HasDigit(line) then None
    else
      DigitsEnds(line);
      var ds := Digits(line);
      Some(ds[0] * 10 + ds[|ds| - 1])
  }

  /** A line with a digit has a non-empty digits list, whose ends are the first and
      the last digit of the line. */
  lemma DigitsEnds(line: string)
    requires HasDigit(line)
    ensures |Digits(line)| > 0
    ensures forall i :: FirstDigitAt(line, i) ==> Digits(line)[0] == DigitValue(line[i])
    ensures forall j :: LastDigitAt(line, j) ==> Digits(line)[|Digits(line)| - 1] == DigitValue(line[j])
  {
    var i :| 0 <= i < |line| && IsDigit(line[i]);
    var f := FirstDigitFrom(line, i);
    DigitsHead(line, f);
    forall i | FirstDigitAt(line, i) ensures Digits(line)[0] == DigitValue(line[i]) {
      DigitsHead(line, i);
    }
    forall j | LastDigitAt(line, j) ensures Digits(line)[|Digits(line)| - 1] == DigitValue(line[j]) {
      DigitsLast(line, j);
    }
  }

  /** Some position at or before a digit is the first digit. */
  lemma {:induction false} FirstDigitFrom(line: string, i: int) returns (f: int)
    requires 0 <= i < |line| && IsDigit(line[i])
    ensures FirstDigitAt(line, f) && f <= i
    decreases i
  {
    if forall k :: 0 <= k < i ==> !IsDigit(line[k]) {
      f := i;
    } else {
      var k :| 0 <= k < i && IsDigit(line[k]);
      f := FirstDigitFrom(line, k);
    }
  }

  /** `reversed`: the characters in the opposite order. */
  function Reverse(s: string): (r: string)
    ensures |r| == |s|
    ensures forall i :: 0 <= i < |s| ==> r[i] == s[|s| - 1 - i]
  {
    if s == [] then [] else Reverse(s[1..]) + [s[0]]
  }

  /** Reversing twice gives the string back. */
  lemma ReverseInvolution(s: string)
    ensures Reverse(Reverse(s)) == s
  {
    var r := Reverse(Reverse(s));
    assert forall i :: 0 <= i < |s| ==> r[i] == s[i];
  }

  /** An occurrence in the reversed text is the mirror of an occurrence in the text. */
  lemma ReverseOccurs(text: string, w: string, s: nat)
    requires s + |w| <= |text|
    ensures OccursAt(Reverse(text), Reverse(w), s) <==> OccursAt(text, w, |text| - s - |w|)
  {
    var p := |text| - s - |w|;
    if OccursAt(Reverse(text), Reverse(w), s) {
      MirrorOccurs(Reverse(text), Reverse(w), s);
      ReverseInvolution(text);
      ReverseInvolution(w);
    }
    if OccursAt(text, w, p) {
      MirrorOccurs(text, w, p);
    }
  }

  /** One direction of `ReverseOccurs`, stated character by character. */
  lemma MirrorOccurs(text: string, w: string, p: nat)
    requires OccursAt(text, w, p)
    ensures OccursAt(Reverse(text), Reverse(w), |text| - p - |w|)
  {
    var rt, rw, s := Reverse(text), Reverse(w), |text| - p - |w|;
    forall k | 0 <= k < |w| ensures rt[s + k] == rw[k] {
      assert text[p..p + |w|][|w| - 1 - k] == w[|w| - 1 - k];
    }
    assert rt[s..s + |w|] == rw;
  }

  /** The spelled-out digits, `"one"` to `"nine"`, indexed from 0. */
  function DigitWord(i: int): string {
    if i == 0 then "one" else if i == 1 then "two" else if i == 2 then "three"
    else if i == 3 then "four" else if i == 4 then "five" else if i == 5 then "six"
    else if i == 6 then "seven" else if i == 7 then "eight" else "nine"
  }

  /** The `words` list of `read_digits`. */
  function DigitWords(): (ws: seq<string>)
    ensures |ws| == 9 && forall i :: 0 <= i < 9 ==> ws[i] == DigitWord(i)
  {
    seq(9, DigitWord)
  }

  /** Two characters of an occurrence. */
  lemma OccurrenceStart(wa: string, wb: string, s: nat)
    ensures OccursAt(wb, wa, s) && |wa| >= 2 ==> wb[s] == wa[0] && wb[s + 1] == wa[1]
  {
    if OccursAt(wb, wa, s) && |wa| >= 2 {
      assert wb[s..s + |wa|][0] == wb[s];
      assert wb[s..s + |wa|][1] == wb[s + 1];
    }
  }

  /** No digit word occurs inside another one: already their first two letters differ
      from every two-letter window of the others. */
  lemma DigitWordInside(a: int, b: int, s: nat)
    requires 0 <= a < 9 && 0 <= b < 9
    ensures OccursAt(DigitWord(b), DigitWord(a), s) ==> a == b
  {
    OccurrenceStart(DigitWord(a), DigitWord(b), s);
  }

  lemma DigitWordsSubstringFree()
    ensures NonEmptyWords(DigitWords()) && SubstringFree(DigitWords())
  {
    forall a, b, s: nat | 0 <= a < 9 && 0 <= b < 9 && OccursAt(DigitWords()[b], DigitWords()[a], s)
      ensures DigitWords()[a] == DigitWords()[b]
    {
      DigitWordInside(a, b, s);
    }
  }

  /** Each digit word in reverse. */
  function ReversedWords(words: seq<string>): (r: seq<string>)
    ensures |r| == |words| && forall k :: 0 <= k < |r| ==> r[k] == Reverse(words[k])
  {
    if words == [] then [] else [Reverse(words[0])] + ReversedWords(words[1..])
  }

  /** Reversing every word keeps a dictionary free of words inside other words. */
  lemma ReversedNonEmpty(words: seq<string>)
    requires NonEmptyWords(words)
    ensures NonEmptyWords(ReversedWords(words))
  {
  }

  lemma ReversedSubstringFree(words: seq<string>)
    requires NonEmptyWords(words) && SubstringFree(words)
    ensures NonEmptyWords(ReversedWords(words)) && SubstringFree(ReversedWords(words))
  {
    var rs := ReversedWords(words);
    forall a, b, s: nat | 0 <= a < |rs| && 0 <= b < |rs| && OccursAt(rs[b], rs[a], s)
      ensures rs[a] == rs[b]
    {
      ReverseOccurs(words[b], words[a], s);
    }
  }

  /** No word is listed twice. */
  predicate Distinct(words: seq<string>) {
    forall a, b :: 0 <= a < b < |words| ==> words[a] != words[b]
  }

  /** The `mapper` of `read_digits`: the word at index `i` to the decimal text of
      `i + 1`, for a list without repetitions. */
  function Mapper(words: seq<string>): (m: map<string, string>)
    requires Distinct(words)
    ensures forall i :: 0 <= i < |words| ==> words[i] in m && m[words[i]] == NatToString(i + 1)
    ensures forall w :: w in m ==> w in words
  {
    MapperUpTo(words, |words|)
  }

  /** The mapper after the first `n` insertions of the `for` loop. */
  function MapperUpTo(words: seq<string>, n: nat): (m: map<string, string>)
    requires Distinct(words) && n <= |words|
    ensures forall i :: 0 <= i < n ==> words[i] in m && m[words[i]] == NatToString(i + 1)
    ensures forall w :: w in m ==> w in words[..n]
  {
    if n == 0 then map[]
    else MapperUpTo(words, n - 1)[words[n - 1] := NatToString(n)]
  }

  /** The dictionary `read_digits` works with: non-empty, repetition-free words, none
      inside another. */
  ghost predicate GoodWords(words: seq<string>) {
    NonEmptyWords(words) && SubstringFree(words) && Distinct(words)
  }

  lemma DigitWordsGood()
    ensures GoodWords(DigitWords())
  {
    DigitWordsSubstringFree();
    forall a, b | 0 <= a < b < 9 ensures DigitWords()[a] != DigitWords()[b] {
      DigitWordInside(a, b, 0);
    }
  }

  /** A word occurs in `line` and its occurrence ends first among all of them. */
  ghost predicate FirstEnding(words: seq<string>, line: string, k: int, s: nat) {
    && 0 <= k < |words| && OccursAt(line, words[k], s)
    && forall k': nat, s': nat :: 0 <= k' < |words| && OccursAt(line, words[k'], s') ==>
      s + |words[k]| <= s' + |words[k']|
  }

  /** A word occurs in `line` and its occurrence starts last among all of them. */
  ghost predicate LastStarting(words: seq<string>, line: string, k: int, p: nat) {
    && 0 <= k < |words| && OccursAt(line, words[k], p)
    && forall k': nat, p': nat :: 0 <= k' < |words| && OccursAt(line, words[k'], p') ==> p' <= p
  }

  ghost predicate HasWord(words: seq<string>, line: string) {
    exists k: nat, s: nat :: k < |words| && OccursAt(line, words[k], s)
  }

  /** `r` is `line` with its earliest-ending word replaced by the word's number and
      last letter, or `line` itself when no word occurs. */
  ghost predicate FirstReplaced(words: seq<string>, line: string, r: string)
    requires NonEmptyWords(words)
  {
    if HasWord(words, line) then
      exists k: nat, s: nat :: FirstEnding(words, line, k, s) &&
        r == ReplaceRange(line, s, s + |words[k]|, NatToString(k + 1) + [words[k][|words[k]| - 1]])
    else r == line
  }

  /** `r` is `line` with its latest-starting word replaced by the word's number, or
      `line` itself when no word occurs. */
  ghost predicate LastReplaced(words: seq<string>, line: string, r: string) {
    if HasWord(words, line) then
      exists k: nat, p: nat :: LastStarting(words, line, k, p) &&
        r == ReplaceRange(line, p, p + |words[k]|, NatToString(k + 1))
    else r == line
  }

  /** `String::replace_range`: the characters in `[from, to)` give way to `repl`. */
  function ReplaceRange(line: string, from: nat, to: nat, repl: string): (r: string)
    requires from <= to <= |line|
    ensures |r| == |line| - (to - from) + |repl|
    ensures r[..from] == line[..from] && r[from..from + |repl|] == repl && r[from + |repl|..] == line[to..]
  {
    line[..from] + repl + line[to..]
  }

  lemma WordNonEmpty(words: seq<string>, k: nat)
    requires NonEmptyWords(words) && k < |words|
    ensures |words[k]| > 0
  {
  }

  /** An occurrence ends where its last character is. */
  lemma OccurrenceEnds(text: string, w: string, s: nat)
    requires OccursAt(text, w, s) && |w| > 0
    ensures EndsAt(text, w, s + |w| - 1)
  {
    assert text[..s + |w|][s..] == text[s..s + |w|];
  }

  /** A word ending at `end` occurs at `end + 1 - |w|`. */
  lemma EndingOccurs(text: string, w: string, end: nat)
    requires EndsAt(text, w, end)
    ensures OccursAt(text, w, end + 1 - |w|)
  {
    assert text[..end + 1][end + 1 - |w|..] == text[end + 1 - |w|..end + 1];
  }

  /** With a dictionary free of words inside other words, the automaton reports at the
      end of every occurrence of a word. */
  lemma OccurrenceReported(words: seq<string>, text: string, k: nat, s: nat)
    requires NonEmptyWords(words) && SubstringFree(words)
    requires k < |words| && OccursAt(text, words[k], s)
    ensures ReportsAt(Trie(words), text, s + |words[k]|)
  {
    hide *;
    WordNonEmpty(words, k);
    OccurrenceEnds(text, words[k], s);
    WordEndingReported(words, text, s + |words[k]| - 1, k);
  }

  /** What `match_first` reports is an occurrence of a dictionary word. */
  lemma ReportIsOccurrence(words: seq<string>, text: string, start: nat, w: string) returns (k: nat)
    requires NonEmptyWords(words) && 0 < |w| && start + |w| <= |text|
    requires w == Run(Trie(words), text[..start + |w|])
    requires ReportsAt(Trie(words), text, start + |w|)
    ensures k < |words| && words[k] == w && OccursAt(text, w, start)
  {
    k := StateInDictIsWord(words, text, start + |w| - 1);
    EndingOccurs(text, w, start + |w| - 1);
  }

  /** What `match_first` promises, stated over the trie of `words`: `None` exactly when
      the automaton reports nowhere in `text`, otherwise the word reported at the
      earliest report position, with its start. */
  ghost predicate MatchSpec(words: seq<string>, text: string, r: Option<(nat, string)>)
    requires NonEmptyWords(words)
  {
    && (r.None? <==> forall n :: 1 <= n <= |text| ==> !ReportsAt(Trie(words), text, n))
    && (r.Some? ==> 0 < |r.value.1| && r.value.0 + |r.value.1| <= |text|)
    && (r.Some? ==> r.value.1 == Run(Trie(words), text[..r.value.0 + |r.value.1|]))
    && (r.Some? ==> ReportsAt(Trie(words), text, r.value.0 + |r.value.1|))
    && (r.Some? ==> forall n :: 1 <= n < r.value.0 + |r.value.1| ==> !ReportsAt(Trie(words), text, n))
  }

  /** `AhoCorasick::from_words(words).match_first(text)`, with the automaton's
      guarantees stated over the trie of `words`. */
  method MatchWords(words: seq<string>, text: string) returns (r: Option<(nat, string)>)
    requires NonEmptyWords(words)
    ensures MatchSpec(words, text, r)
  {
    var ac := FromWords(words);
    r := MatchFirst(ac, text);
  }

  /** The first half of `read_digits`: the earliest-ending word is replaced by its
      number followed by the word's last letter. */
  method ReplaceFirst(words: seq<string>, line: string) returns (r: string)
    requires GoodWords(words)
    ensures FirstReplaced(words, line, r)
  {
    var m := MatchWords(words, line);
    if m.None? {
      r := line;
      NoMatchNoWord(words, line, m);
    } else {
      var start, word := m.value.0, m.value.1;
      ghost var k := MatchIsFirstEnding(words, line, m);
      var target := Mapper(words)[word] + [word[|word| - 1]];
      r := ReplaceRange(line, start, start + |word|, target);
      FirstReplacedIntro(words, line, k, start, word, r);
    }
  }

  /** No match means no word occurs. */
  lemma NoMatchNoWord(words: seq<string>, line: string, m: Option<(nat, string)>)
    requires GoodWords(words) && MatchSpec(words, line, m) && m.None?
    ensures !HasWord(words, line)
  {
    if HasWord(words, line) {
      var k: nat, s: nat :| k < |words| && OccursAt(line, words[k], s);
      OccurrenceReported(words, line, k, s);
    }
  }

  /** A match is the occurrence that ends first. */
  lemma MatchIsFirstEnding(words: seq<string>, line: string, m: Option<(nat, string)>) returns (k: nat)
    requires GoodWords(words) && MatchSpec(words, line, m) && m.Some?
    ensures FirstEnding(words, line, k, m.value.0) && words[k] == m.value.1
  {
    var start, word := m.value.0, m.value.1;
    k := ReportIsOccurrence(words, line, start, word);
    forall k': nat, s': nat | k' < |words| && OccursAt(line, words[k'], s')
      ensures start + |word| <= s' + |words[k']|
    {
      OccurrenceReported(words, line, k', s');
    }
  }

  lemma FirstReplacedIntro(words: seq<string>, line: string, k: nat, s: nat, w: string, r: string)
    requires GoodWords(words) && FirstEnding(words, line, k, s) && w == words[k]
    requires r == ReplaceRange(line, s, s + |w|, Mapper(words)[w] + [w[|w| - 1]])
    ensures FirstReplaced(words, line, r)
  {
    assert Mapper(words)[words[k]] == NatToString(k + 1);
    hide *;
    FirstEndingOccurs(words, line, k, s);
    assert FirstEnding(words, line, k, s) &&
      r == ReplaceRange(line, s, s + |words[k]|, NatToString(k + 1) + [words[k][|words[k]| - 1]]);
    FirstReplacedIntroHidden(words, line, k, s, r);
  }

  /** An earliest-ending word is a word that occurs. */
  lemma FirstEndingOccurs(words: seq<string>, line: string, k: nat, s: nat)
    requires FirstEnding(words, line, k, s)
    ensures HasWord(words, line) && k < |words|
  {
    assert OccursAt(line, words[k], s);
  }

  lemma FirstReplacedIntroHidden(words: seq<string>, line: string, k: nat, s: nat, r: string)
    requires NonEmptyWords(words) && HasWord(words, line) && FirstEnding(words, line, k, s)
    requires k < |words| && s + |words[k]| <= |line|
    requires r == ReplaceRange(line, s, s + |words[k]|, NatToString(k + 1) + [words[k][|words[k]| - 1]])
    ensures FirstReplaced(words, line, r)
  {
    hide HasWord, FirstEnding, ReplaceRange, NatToString;
  }

  /** The second half of `read_digits`: the latest-starting word is replaced by its
      number. */
  method ReplaceLast(words: seq<string>, line: string) returns (r: string)
    requires GoodWords(words)
    ensures LastReplaced(words, line, r)
  {
    var m := MatchReversed(words, line);
    assert Distinct(words);
    hide *;
    match m
    case None =>
      r := line;
      MirroredNone(words, line, m);
    case Some((start, word)) =>
      r := ReplaceMirrored(words, line, start, word);
  }

  /** The replacement once the mirrored match is known: the word's number in place of
      its occurrence in the line. */
  method ReplaceMirrored(words: seq<string>, line: string, start: nat, word: string) returns (r: string)
    requires Distinct(words) && MirroredMatch(words, line, Some((start, word)))
    ensures LastReplaced(words, line, r)
  {
    MirroredFits(words, line, start, word);
    r := ReplaceRange(line, |line| - (start + |word|), |line| - start, Mapper(words)[Reverse(word)]);
    MirroredReplaced(words, line, start, word, r);
  }

  /** The mirrored match lies in the line and its word is in the mapper. */
  lemma MirroredFits(words: seq<string>, line: string, start: nat, word: string)
    requires Distinct(words) && MirroredMatch(words, line, Some((start, word)))
    ensures start + |word| <= |line| && Reverse(word) in Mapper(words)
  {
    var k := MirroredWord(words, line, Some((start, word)));
    MapperReversed(words, k, word);
  }

  lemma MirroredReplaced(words: seq<string>, line: string, start: nat, word: string, r: string)
    requires Distinct(words) && MirroredMatch(words, line, Some((start, word)))
    requires start + |word| <= |line| && Reverse(word) in Mapper(words)
    requires r == ReplaceRange(line, |line| - (start + |word|), |line| - start, Mapper(words)[Reverse(word)])
    ensures LastReplaced(words, line, r)
  {
    hide *;
    var k := MirroredWord(words, line, Some((start, word)));
    MapperReversed(words, k, word);
    var from := |line| - (start + |word|);
    LastReplacedIntro(words, line, k, from, from, from + |word|, Mapper(words)[Reverse(word)], r);
  }

  /** No mirrored match, no word, and nothing to replace. */
  lemma MirroredNone(words: seq<string>, line: string, m: Option<(nat, string)>)
    requires MirroredMatch(words, line, m) && m.None?
    ensures LastReplaced(words, line, line)
  {
  }

  /** The word of a mirrored match and its place in the dictionary. */
  lemma MirroredWord(words: seq<string>, line: string, m: Option<(nat, string)>) returns (k: nat)
    requires MirroredMatch(words, line, m) && m.Some?
    ensures m.value.0 + |m.value.1| <= |line|
    ensures k < |words| && Reverse(m.value.1) == words[k]
    ensures LastStarting(words, line, k, |line| - (m.value.0 + |m.value.1|))
  {
    k :| k < |words| && LastStarting(words, line, k, |line| - (m.value.0 + |m.value.1|)) && Reverse(m.value.1) == words[k];
  }

  /** The match of the reversed words in the reversed line, mirrored back: it is the
      latest-starting occurrence in the line. */
  method MatchReversed(words: seq<string>, line: string) returns (m: Option<(nat, string)>)
    requires GoodWords(words)
    ensures MirroredMatch(words, line, m)
  {
    var rwords := ReversedWords(words);
    ReversedNonEmpty(words);
    var rline := Reverse(line);
    m := MatchWords(rwords, rline);
    if m.None? {
      ReversedNoMatch(words, line, m);
    } else {
      ReversedSomeMatch(words, line, m);
    }
  }

  /** `m`, read on the reversed line, is the latest-starting word of `line`, or there
      is none. */
  ghost predicate MirroredMatch(words: seq<string>, line: string, m: Option<(nat, string)>) {
    && (m.None? <==> !HasWord(words, line))
    && (m.Some? ==> m.value.0 + |m.value.1| <= |line|)
    && (m.Some? ==> exists k: nat ::
         k < |words| && LastStarting(words, line, k, |line| - (m.value.0 + |m.value.1|)) && Reverse(m.value.1) == words[k])
  }

  lemma ReversedNoMatch(words: seq<string>, line: string, r: Option<(nat, string)>)
    requires GoodWords(words) && NonEmptyWords(ReversedWords(words))
    requires MatchSpec(ReversedWords(words), Reverse(line), r)
    requires r.None?
    ensures MirroredMatch(words, line, r)
  {
    NoneReversed(words, line);
  }

  lemma ReversedSomeMatch(words: seq<string>, line: string, r: Option<(nat, string)>)
    requires GoodWords(words) && NonEmptyWords(ReversedWords(words))
    requires MatchSpec(ReversedWords(words), Reverse(line), r)
    requires r.Some?
    ensures MirroredMatch(words, line, r)
  {
    SomeReversed(words, line, r.value.0, r.value.1);
  }

  lemma SomeReversed(words: seq<string>, line: string, start: nat, word: string)
    requires GoodWords(words) && 0 < |word| && start + |word| <= |line|
    requires var rw := ReversedWords(words); var rl := Reverse(line);
      NonEmptyWords(rw) && word == Run(Trie(rw), rl[..start + |word|]) && ReportsAt(Trie(rw), rl, start + |word|)
    requires var rw := ReversedWords(words); var rl := Reverse(line);
      NonEmptyWords(rw) && forall n :: 1 <= n < start + |word| ==> !ReportsAt(Trie(rw), rl, n)
    ensures MirroredMatch(words, line, Some((start, word)))
  {
    hide *;
    var k, p := LastFromReversed(words, line, start, word);
    MirroredSomeIntro(words, line, start, word, k);
  }

  lemma MirroredSomeIntro(words: seq<string>, line: string, start: nat, word: string, k: nat)
    requires start + |word| <= |line| && k < |words|
    requires LastStarting(words, line, k, |line| - (start + |word|)) && Reverse(word) == words[k]
    ensures MirroredMatch(words, line, Some((start, word)))
  {
    hide Reverse, LastStarting, HasWord, OccursAt;
    var p := |line| - (start + |word|);
    LastStartingOccurs(words, line, k, p);
    assert k < |words| && LastStarting(words, line, k, p) && Reverse(word) == words[k];
  }

  /** A latest-starting word is a word that occurs. */
  lemma LastStartingOccurs(words: seq<string>, line: string, k: nat, p: nat)
    requires LastStarting(words, line, k, p)
    ensures HasWord(words, line)
  {
    assert OccursAt(line, words[k], p);
  }

  lemma MapperReversed(words: seq<string>, k: nat, word: string)
    requires Distinct(words) && k < |words| && Reverse(word) == words[k]
    ensures |word| == |words[k]| && Reverse(word) in Mapper(words)
    ensures Mapper(words)[Reverse(word)] == NatToString(k + 1)
  {
  }

  /** What `match_first` reports on the reversed line, mirrored back, is the
      latest-starting occurrence in the line. */
  lemma LastFromReversed(words: seq<string>, line: string, start: nat, word: string) returns (k: nat, p: nat)
    requires GoodWords(words) && 0 < |word| && start + |word| <= |line|
    requires var rw := ReversedWords(words); var rl := Reverse(line);
      NonEmptyWords(rw) && word == Run(Trie(rw), rl[..start + |word|]) && ReportsAt(Trie(rw), rl, start + |word|)
    requires var rw := ReversedWords(words); var rl := Reverse(line);
      NonEmptyWords(rw) && forall n :: 1 <= n < start + |word| ==> !ReportsAt(Trie(rw), rl, n)
    ensures LastStarting(words, line, k, p) && Reverse(word) == words[k] && p == |line| - (start + |word|)
  {
    var rwords, rline := ReversedWords(words), Reverse(line);
    ReversedSubstringFree(words);
    k := ReportIsOccurrence(rwords, rline, start, word);
    p := |line| - (start + |word|);
    ReverseOccurs(line, words[k], start);
    ReverseInvolution(words[k]);
    forall k': nat, p': nat | k' < |words| && OccursAt(line, words[k'], p')
      ensures p' <= p
    {
      var s' := |line| - p' - |words[k']|;
      ReverseOccurs(line, words[k'], s');
      OccurrenceReported(rwords, rline, k', s');
    }
  }

  /** A line in which some word occurs makes the automaton of the reversed words
      report on the reversed line. */
  lemma NoneReversed(words: seq<string>, line: string)
    requires GoodWords(words)
    requires var rw := ReversedWords(words); var rl := Reverse(line);
      NonEmptyWords(rw) && forall n :: 1 <= n <= |rl| ==> !ReportsAt(Trie(rw), rl, n)
    ensures !HasWord(words, line)
  {
    var rwords, rline := ReversedWords(words), Reverse(line);
    ReversedSubstringFree(words);
    if HasWord(words, line) {
      var k: nat, p: nat :| k < |words| && OccursAt(line, words[k], p);
      var s := |line| - p - |words[k]|;
      ReverseOccurs(line, words[k], s);
      OccurrenceReported(rwords, rline, k, s);
    }
  }

  lemma LastReplacedIntro(words: seq<string>, line: string, k: nat, p: nat, from: nat, to: nat, repl: string, r: string)
    requires LastStarting(words, line, k, p)
    requires from == p
    requires to == p + |words[k]|
    requires repl == NatToString(k + 1)
    requires r == ReplaceRange(line, from, to, repl)
    ensures LastReplaced(words, line, r)
  {
  }

  /** `read_digits` (without its diagnostic output), on the nine digit words. */
  method ReadDigits(line: string) returns (r: string)
    ensures exists mid :: FirstReplaced(DigitWords(), line, mid) && LastReplaced(DigitWords(), mid, r)
    ensures !HasWord(DigitWords(), line) ==> r == line
  {
    DigitWordsGood();
    var mid := ReplaceFirst(DigitWords(), line);
    r := ReplaceLast(DigitWords(), mid);
  }

  /** The number text of a digit word is its single digit. */
  lemma DigitWordNumber(k: nat)
    requires k < 9
    ensures NatToString(k + 1) == [DigitChar(k + 1)]
  {
  }
}
