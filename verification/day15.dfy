/** Day 15: the HASH algorithm over the comma-separated initialisation sequence. */
module Day15 {
  import opened Text
  import Arith

  /** `c as u8`: the low eight bits of the character's code point. */
  function Byte(c: char): (b: nat)
    ensures b < 256
  {
    c as int % 256
  }

  lemma ByteOfAscii(c: char)
    requires c as int < 256
    ensures Byte(c) == c as int
  {
    Arith.DivModUnique(c as int, 256, 0, c as int);
  }

  /** One step of the fold: add the byte, multiply by 17, keep the remainder mod 256. */
  function HashStep(acc: nat, c: char): (r: nat)
    ensures r < 256
  {
    17 * (acc + Byte(c)) % 256
  }

  /** The fold of `HashStep` over `s`, started from `acc`. */
  function HashFrom(acc: nat, s: string): (h: nat)
    ensures |s| > 0 ==> h < 256
    ensures |s| == 0 ==> h == acc
    decreases |s|
  {
    if |s| == 0 then acc else HashFrom(HashStep(acc, s[0]), s[1..])
  }

  /** `hash`: the fold from 0. */
  function Hash(s: string): (h: nat)
    ensures h < 256
  {
    HashFrom(0, s)
  }

  /** The fold as the source runs it, one character at a time. */
  method ComputeHash(s: string) returns (h: nat)
    ensures h == Hash(s) && h < 256
  {
    h := 0;
    var i := 0;
    while i < |s|
      invariant i <= |s| && h < 256 && HashFrom(h, s[i..]) == Hash(s)
    {
      assert s[i..][1..] == s[i + 1..];
      h := HashStep(h, s[i]);
      i := i + 1;
    }
  }

  /** Appending a character applies one more step to the hash of the prefix:
      `hash("") = 0` and `hash(s + c) = 17 * (hash(s) + c) mod 256`. */
  lemma {:induction false} HashSnoc(acc: nat, s: string, c: char)
    ensures HashFrom(acc, s + [c]) == HashStep(HashFrom(acc, s), c)
    decreases |s|
  {
    if |s| == 0 {
      assert s + [c] == [c];
      assert [c][1..] == [];
    } else {
      assert (s + [c])[1..] == s[1..] + [c];
      HashSnoc(HashStep(acc, s[0]), s[1..], c);
    }
  }

  /** `parse_input`: the trimmed input split on commas. */
  function ParseInput(input: string): (steps: seq<string>)
    ensures |steps| >= 1
    ensures forall k :: 0 <= k < |steps| ==> ',' !in steps[k]
  {
    var parts := Split(Trim(input), ",");
    forall k | 0 <= k < |parts| ensures ',' !in parts[k] {
      NoCharOccurrence(parts[k], ',');
    }
    parts
  }

  /** `part1`: the sum of the hashes of the steps. */
  function Part1(steps: seq<string>): (total: nat)
    ensures total <= 255 * |steps|
  {
    if |steps| == 0 then 0 else Hash(steps[0]) + Part1(steps[1..])
  }

  /** The total is additive over the list of steps: splitting the input anywhere and
      adding the two totals gives the same answer. */
  lemma {:induction false} Part1Append(a: seq<string>, b: seq<string>)
    ensures Part1(a + b) == Part1(a) + Part1(b)
    decreases |a|
  {
    if |a| == 0 {
      assert a + b == b;
    } else {
      assert (a + b)[1..] == a[1..] + b;
      Part1Append(a[1..], b);
    }
  }

  /** Text made of comma-free steps joined by commas, with no whitespace at either end,
      is parsed back into exactly those steps. */
  lemma ParseJoined(steps: seq<string>)
    requires |steps| >= 1 && forall k :: 0 <= k < |steps| ==> ',' !in steps[k]
    requires var s := Join(steps, ","); |s| > 0 && !IsWhitespace(s[0]) && !IsWhitespace(s[|s| - 1])
    ensures ParseInput(Join(steps, ",")) == steps
  {
    SplitJoinChar(steps, ',');
  }

  /** One step of the fold on known values, through the quotient of the division. */
  lemma StepValue(acc: nat, c: char, q: int, r: nat)
    requires c as int < 256 && 17 * (acc + c as int) == 256 * q + r && r < 256
    ensures HashStep(acc, c) == r
  {
    ByteOfAscii(c);
    Arith.DivModUnique(17 * (acc + c as int), 256, q, r);
  }

  lemma ExampleHash0()
    ensures Hash("rn=1") == 30
  {
    StepValue(0, 'r', 7, 146);
    StepValue(146, 'n', 17, 0);
    StepValue(0, '=', 4, 13);
    StepValue(13, '1', 4, 30);
    assert HashFrom(0, "rn=1") == HashFrom(146, "n=1");
    assert HashFrom(146, "n=1") == HashFrom(0, "=1");
    assert HashFrom(0, "=1") == HashFrom(13, "1");
    assert HashFrom(13, "1") == HashFrom(30, "");
  }

  lemma ExampleHash1()
    ensures Hash("cm-") == 253
  {
    StepValue(0, 'c', 6, 147);
    StepValue(147, 'm', 17, 0);
    StepValue(0, '-', 2, 253);
    assert HashFrom(0, "cm-") == HashFrom(147, "m-");
    assert HashFrom(147, "m-") == HashFrom(0, "-");
    assert HashFrom(0, "-") == HashFrom(253, "");
  }

  lemma ExampleHash2()
    ensures Hash("qp=3") == 97
  {
    StepValue(0, 'q', 7, 129);
    StepValue(129, 'p', 16, 1);
    StepValue(1, '=', 4, 30);
    StepValue(30, '3', 5, 97);
    assert HashFrom(0, "qp=3") == HashFrom(129, "p=3");
    assert HashFrom(129, "p=3") == HashFrom(1, "=3");
    assert HashFrom(1, "=3") == HashFrom(30, "3");
    assert HashFrom(30, "3") == HashFrom(97, "");
  }

  lemma ExampleHash3()
    ensures Hash("cm=2") == 47
  {
    StepValue(0, 'c', 6, 147);
    StepValue(147, 'm', 17, 0);
    StepValue(0, '=', 4, 13);
    StepValue(13, '2', 4, 47);
    assert HashFrom(0, "cm=2") == HashFrom(147, "m=2");
    assert HashFrom(147, "m=2") == HashFrom(0, "=2");
    assert HashFrom(0, "=2") == HashFrom(13, "2");
    assert HashFrom(13, "2") == HashFrom(47, "");
  }

  lemma ExampleHash4()
    ensures Hash("qp-") == 14
  {
    StepValue(0, 'q', 7, 129);
    StepValue(129, 'p', 16, 1);
    StepValue(1, '-', 3, 14);
    assert HashFrom(0, "qp-") == HashFrom(129, "p-");
    assert HashFrom(129, "p-") == HashFrom(1, "-");
    assert HashFrom(1, "-") == HashFrom(14, "");
  }

  lemma ExampleHash5()
    ensures Hash("pc=4") == 180
  {
    StepValue(0, 'p', 7, 112);
    StepValue(112, 'c', 14, 3);
    StepValue(3, '=', 4, 64);
    StepValue(64, '4', 7, 180);
    assert HashFrom(0, "pc=4") == HashFrom(112, "c=4");
    assert HashFrom(112, "c=4") == HashFrom(3, "=4");
    assert HashFrom(3, "=4") == HashFrom(64, "4");
    assert HashFrom(64, "4") == HashFrom(180, "");
  }

  lemma ExampleHash6()
    ensures Hash("ot=9") == 9
  {
    StepValue(0, 'o', 7, 95);
    StepValue(95, 't', 14, 3);
    StepValue(3, '=', 4, 64);
    StepValue(64, '9', 8, 9);
    assert HashFrom(0, "ot=9") == HashFrom(95, "t=9");
    assert HashFrom(95, "t=9") == HashFrom(3, "=9");
    assert HashFrom(3, "=9") == HashFrom(64, "9");
    assert HashFrom(64, "9") == HashFrom(9, "");
  }

  lemma ExampleHash7()
    ensures Hash("ab=5") == 197
  {
    StepValue(0, 'a', 6, 113);
    StepValue(113, 'b', 14, 3);
    StepValue(3, '=', 4, 64);
    StepValue(64, '5', 7, 197);
    assert HashFrom(0, "ab=5") == HashFrom(113, "b=5");
    assert HashFrom(113, "b=5") == HashFrom(3, "=5");
    assert HashFrom(3, "=5") == HashFrom(64, "5");
    assert HashFrom(64, "5") == HashFrom(197, "");
  }

  lemma ExampleHash8()
    ensures Hash("pc-") == 48
  {
    StepValue(0, 'p', 7, 112);
    StepValue(112, 'c', 14, 3);
    StepValue(3, '-', 3, 48);
    assert HashFrom(0, "pc-") == HashFrom(112, "c-");
    assert HashFrom(112, "c-") == HashFrom(3, "-");
    assert HashFrom(3, "-") == HashFrom(48, "");
  }

  lemma ExampleHash9()
    ensures Hash("pc=6") == 214
  {
    StepValue(0, 'p', 7, 112);
    StepValue(112, 'c', 14, 3);
    StepValue(3, '=', 4, 64);
    StepValue(64, '6', 7, 214);
    assert HashFrom(0, "pc=6") == HashFrom(112, "c=6");
    assert HashFrom(112, "c=6") == HashFrom(3, "=6");
    assert HashFrom(3, "=6") == HashFrom(64, "6");
    assert HashFrom(64, "6") == HashFrom(214, "");
  }

  lemma ExampleHash10()
    ensures Hash("ot=7") == 231
  {
    StepValue(0, 'o', 7, 95);
    StepValue(95, 't', 14, 3);
    StepValue(3, '=', 4, 64);
    StepValue(64, '7', 7, 231);
    assert HashFrom(0, "ot=7") == HashFrom(95, "t=7");
    assert HashFrom(95, "t=7") == HashFrom(3, "=7");
    assert HashFrom(3, "=7") == HashFrom(64, "7");
    assert HashFrom(64, "7") == HashFrom(231, "");
  }

  /** The example sequence: its steps hash as listed in the puzzle and sum to 1320. */
  lemma ExamplePart1()
    ensures Part1(["rn=1", "cm-", "qp=3", "cm=2", "qp-", "pc=4", "ot=9", "ab=5", "pc-", "pc=6", "ot=7"]) == 1320
  {
    ExampleHash0();
    ExampleHash1();
    ExampleHash2();
    ExampleHash3();
    ExampleHash4();
    ExampleHash5();
    ExampleHash6();
    ExampleHash7();
    ExampleHash8();
    ExampleHash9();
    ExampleHash10();
  }
}
