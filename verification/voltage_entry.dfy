/** The operator's voltage prompt (`get_measured_voltage`): one typed line is
    stripped, lower-cased and classified as the end keyword, an accepted
    measured voltage, or a rejection; the prompt repeats until a line is not
    rejected. */
module VoltageEntry {
  import opened Wrappers
  import opened Text
  import opened Decimal

  /** Longest accepted entry, in characters. */
  const MaxLength: nat := 5
  /** Accepted measured voltages lie in [MinVolts, MaxVolts]. */
  const MinVolts: real := 0.0
  const MaxVolts: real := 999.0
  /** The keyword that ends the session. */
  const EndKeyword: string := "end"

  /** Why a line was refused; each reason has its own message at the prompt. */
  datatype Rejection =
    | NotComposed   // too long, a foreign character, or no digit at all
    | NotANumber    // composed of the right characters, but `float()` refuses it
    | OutOfRange    // a number outside [0, 999]

  /** What one typed line means. */
  datatype Entry = End | Voltage(volts: real) | Reject(why: Rejection)

  /** What the prompt can hand back to the loop: the keyword, or a voltage in
      [0, 999]. Rejected lines never leave the prompt. */
  type Answer = e: Entry | e.End? || (e.Voltage? && MinVolts <= e.volts <= MaxVolts)
    witness End

  /** The line as compared: surrounding whitespace removed, letters lower-cased. */
  function Normalize(raw: string): string
  {
    Lower(Strip(raw))
  }

  /** The line as compared is no longer than the line typed, has no
      whitespace at either end and no upper-case letter. */
  lemma NormalizeShape(raw: string)
    ensures |Normalize(raw)| <= |raw|
    ensures |Normalize(raw)| > 0 ==>
      !IsSpace(Normalize(raw)[0]) && !IsSpace(Normalize(raw)[|Normalize(raw)| - 1])
    ensures forall i :: 0 <= i < |Normalize(raw)| ==> !('A' <= Normalize(raw)[i] <= 'Z')
  {
    var t := Strip(raw);
    assert |t| <= |raw|;
  }

  predicate InAlphabet(c: char)
  {
    IsDigit(c) || c == '.' || c == '-'
  }

  predicate AllInAlphabet(s: string)
  {
    forall i :: 0 <= i < |s| ==> InAlphabet(s[i])
  }

  /** The prompt's character-composition check: at most five characters and,
      once every `.` and `-` is deleted, a non-empty run of digits. */
  predicate Composed(s: string)
  {
    |s| <= MaxLength && IsDigits(Without(Without(s, '.'), '-'))
  }

  /** The composition check in plain terms: short enough, only digits, points
      and minus signs, and at least one digit. */
  lemma ComposedIff(s: string)
    ensures Composed(s) <==>
      |s| <= MaxLength && AllInAlphabet(s) && exists i :: 0 <= i < |s| && IsDigit(s[i])
  {
    var t := Without(Without(s, '.'), '-');
    assert forall x :: x in t <==> x in s && x != '.' && x != '-';
    if IsDigits(t) {
      forall i | 0 <= i < |s|
        ensures InAlphabet(s[i])
      {
        if s[i] != '.' && s[i] != '-' {
          assert s[i] in t;
        }
      }
      assert t[0] in s;
    }
    if AllInAlphabet(s) && exists i :: 0 <= i < |s| && IsDigit(s[i]) {
      var d :| 0 <= d < |s| && IsDigit(s[d]);
      assert s[d] in t;
      forall i | 0 <= i < |t|
        ensures IsDigit(t[i])
      {
        assert t[i] in s;
      }
    }
  }

  /** The keyword is never mistaken for a number: its letters are outside the
      alphabet. */
  lemma KeywordOutsideAlphabet()
    ensures !AllInAlphabet(EndKeyword)
  {
    assert !InAlphabet(EndKeyword[0]);
  }

  /** The number a grammatical string denotes. */
  function Reading(s: string): real
    requires Grammar(s)
  {
    ScanIffGrammar(s);
    Value(Scan(s))
  }

  /** Acceptance as a reference definition: at most five characters, all from
      the alphabet, in the number grammar, with a value in [0, 999]. */
  predicate Accepts(s: string, v: real)
  {
    && |s| <= MaxLength
    && AllInAlphabet(s)
    && Grammar(s)
    && Reading(s) == v
    && MinVolts <= v <= MaxVolts
  }

  /** One pass of the prompt over one typed line: the line is normalized,
      then judged. */
  function Classify(raw: string): (e: Entry)
    ensures e.End? <==> Normalize(raw) == EndKeyword
    ensures e.Voltage? ==> |Normalize(raw)| <= MaxLength && AllInAlphabet(Normalize(raw))
    ensures e.Voltage? ==> MinVolts <= e.volts <= MaxVolts
  {
    Judge(Normalize(raw))
  }

  /** The prompt's decision on normalized text: the keyword, then the
      composition check, then `float()`, then the range check. */
  function Judge(s: string): (e: Entry)
    ensures e.End? <==> s == EndKeyword
    ensures e == Reject(NotComposed) <==> s != EndKeyword && !Composed(s)
    ensures e.Voltage? ==> |s| <= MaxLength && AllInAlphabet(s) && MinVolts <= e.volts <= MaxVolts
  {
    if s == EndKeyword then End
    else if !Composed(s) then Reject(NotComposed)
    else
      ComposedIff(s);
      ReadVoltage(Scan(s))
  }

  /** `float()` followed by the range check, on the numeral read from text
      that passed the composition check. */
  function ReadVoltage(n: Numeral): (e: Entry)
    ensures e == Reject(NotANumber) <==> !WellFormed(n)
    ensures e.Voltage? ==> WellFormed(n) && e.volts == Value(n)
    ensures e.Voltage? || e.Reject?
  {
    if !WellFormed(n) then Reject(NotANumber)    // `float()` raises ValueError
    else if MinVolts <= Value(n) <= MaxVolts then Voltage(Value(n))
    else Reject(OutOfRange)
  }

  /** Text is accepted as voltage `v` exactly when it meets the reference
      definition with value `v`. */
  lemma VoltageIffAccepts(s: string, v: real)
    ensures Judge(s) == Voltage(v) <==> Accepts(s, v)
  {
    ScanIffGrammar(s);
    ComposedIff(s);
    KeywordOutsideAlphabet();
  }

  /** Composition-valid text that `float()` refuses (`1-2`, `1.2.3`, `--5`) is
      rejected through the `ValueError` path, and only such text is. */
  lemma NotANumberIff(s: string)
    ensures Judge(s) == Reject(NotANumber) <==> Composed(s) && !Grammar(s)
  {
    ScanIffGrammar(s);
    ComposedIff(s);
    KeywordOutsideAlphabet();
  }

  /** Well-formed numbers outside [0, 999] (`-5`, `1000`, `999.9`) are rejected
      with the range message, and only those are. */
  lemma OutOfRangeIff(s: string)
    ensures Judge(s) == Reject(OutOfRange) <==>
      Composed(s) && Grammar(s) && !(MinVolts <= Reading(s) <= MaxVolts)
  {
    ScanIffGrammar(s);
    ComposedIff(s);
    KeywordOutsideAlphabet();
  }

  /** Empty text, or text holding any character other than a digit, `.` or
      `-` (and not the keyword), is refused by the composition check. */
  lemma ForeignTextRejected(s: string)
    requires s != EndKeyword
    requires s == [] || exists i :: 0 <= i < |s| && !InAlphabet(s[i])
    ensures Judge(s) == Reject(NotComposed)
  {
    ComposedIff(s);
  }

  /** An accepted entry that starts with a minus sign denotes zero: `-0` gets
      through because negative zero is not below zero, every other negative
      number is out of range. */
  lemma NegativeAcceptedOnlyAsZero(s: string)
    requires |s| > 0 && s[0] == '-'
    requires Judge(s).Voltage?
    ensures Judge(s).volts == 0.0
  {
    RenderSign(Scan(s));
  }

  /** The keyword is recognised in any letter case and with any surrounding
      whitespace: `end`, `END`, ` End `. */
  lemma EndInAnyCase(pre: string, word: string, post: string)
    requires AllSpace(pre) && AllSpace(post)
    requires Lower(word) == EndKeyword
    ensures Classify(pre + word + post) == End
  {
    assert LowerChar(word[0]) == 'e' && LowerChar(word[2]) == 'd';
    StripPadded(pre, word, post);
  }

  /** Text that is already stripped and has no upper-case letters is compared
      as typed. */
  lemma NormalizeBare(s: string)
    requires |s| > 0 && !IsSpace(s[0]) && !IsSpace(s[|s| - 1])
    requires forall i :: 0 <= i < |s| ==> !('A' <= s[i] <= 'Z')
    ensures Normalize(s) == s
  {
    assert LeadingSpaces(s) == 0;
    assert TrailingSpaces(s) == 0;
    assert Strip(s) == s;
    assert forall i :: 0 <= i < |s| ==> LowerChar(s[i]) == s[i];
  }

  /** Normalizing twice is normalizing once: a normalized line is compared
      as it stands. */
  lemma NormalizeIdempotent(raw: string)
    ensures Normalize(Normalize(raw)) == Normalize(raw)
  {
    var r := Normalize(raw);
    NormalizeShape(raw);
    if |r| > 0 {
      NormalizeBare(r);
    } else {
      assert LeadingSpaces(r) == 0;
    }
  }

  /** Text over digits, points and minus signs has nothing to strip or
      lower-case: the prompt judges it as typed. */
  lemma ClassifyInAlphabet(s: string)
    requires |s| > 0 && AllInAlphabet(s)
    ensures Classify(s) == Judge(s)
  {
    NormalizeBare(s);
  }

  /** The keyword typed bare, in lower or upper case. */
  lemma EndExamplesBare(a: string, b: string)
    requires a == "end" && b == "END"
    ensures Classify(a) == End && Classify(b) == End
  {
    assert Lower(a) == EndKeyword;
    assert Lower(b) == EndKeyword;
    assert a == [] + a + [];
    assert b == [] + b + [];
    EndInAnyCase([], a, []);
    EndInAnyCase([], b, []);
  }

  /** The keyword padded with a space each side, or with a tab before and a
      carriage return and newline after. */
  lemma EndExamplesPadded(c: string, d: string)
    requires c == " End " && d == "\tend\r\n"
    ensures Classify(c) == End && Classify(d) == End
  {
    assert Lower(c[1..4]) == EndKeyword;
    assert Lower(d[1..4]) == EndKeyword;
    assert AllSpace(c[..1]) && AllSpace(c[4..]);
    assert AllSpace(d[..1]) && AllSpace(d[4..]);
    assert c == c[..1] + c[1..4] + c[4..];
    assert d == d[..1] + d[1..4] + d[4..];
    EndInAnyCase(c[..1], c[1..4], c[4..]);
    EndInAnyCase(d[..1], d[1..4], d[4..]);
  }

  /** The text of a well-formed numeral of at most five characters whose
      value lies in [0, 999] meets the reference definition of acceptance. */
  lemma RenderAccepts(n: Numeral)
    requires WellFormed(n) && |Render(n)| <= MaxLength
    requires MinVolts <= Value(n) <= MaxVolts
    ensures Accepts(Render(n), Value(n))
  {
    var s := Render(n);
    RenderGrammar(n);
    RenderSign(n);
    ParseRender(n);
    assert Scan(s) == n;
    assert AllInAlphabet(s);
  }

  /** Such a numeral's text, judged, is accepted as its value. */
  lemma NumeralJudged(n: Numeral)
    requires WellFormed(n) && |Render(n)| <= MaxLength
    requires MinVolts <= Value(n) <= MaxVolts
    ensures Judge(Render(n)) == Voltage(Value(n))
  {
    RenderAccepts(n);
    VoltageIffAccepts(Render(n), Value(n));
  }

  /** A well-formed numeral of at most five characters whose value lies in
      [0, 999] is accepted as that value when typed as written. */
  lemma NumeralAccepted(n: Numeral)
    requires WellFormed(n) && |Render(n)| <= MaxLength
    requires MinVolts <= Value(n) <= MaxVolts
    ensures Classify(Render(n)) == Voltage(Value(n))
  {
    NumeralJudged(n);
    BareNumeral(n);
  }

  /** A well-formed numeral typed as written is compared as written. */
  lemma BareNumeral(n: Numeral)
    requires WellFormed(n)
    ensures Normalize(Render(n)) == Render(n)
  {
    var s := Render(n);
    RenderGrammar(n);
    RenderSign(n);
    assert forall i :: 0 <= i < |s| ==> IsDigit(s[i]) || s[i] == '.' || s[i] == '-';
    NormalizeBare(s);
  }

  /** A minus sign anywhere but first (`1-2`, `5-`) makes composed text
      refused by `float()`. */
  lemma InnerMinusIsNotANumber(s: string, i: nat)
    requires Composed(s)
    requires 0 < i < |s| && s[i] == '-'
    ensures Judge(s) == Reject(NotANumber)
  {
    NotANumberIff(s);
  }

  /** A second decimal point (`1.2.3`) makes composed text refused by
      `float()`. */
  lemma SecondPointIsNotANumber(s: string, i: nat, j: nat)
    requires Composed(s)
    requires i < j < |s| && s[i] == '.' && s[j] == '.'
    ensures Judge(s) == Reject(NotANumber)
  {
    NotANumberIff(s);
  }

  /** A well-formed numeral whose value exceeds 999 (`1000`, `999.9`) or is
      below zero (`-5`) is refused with the range message. */
  lemma NumeralOutOfRange(n: Numeral)
    requires WellFormed(n) && |Render(n)| <= MaxLength
    requires !(MinVolts <= Value(n) <= MaxVolts)
    ensures Classify(Render(n)) == Reject(OutOfRange)
  {
    var s := Render(n);
    RenderGrammar(n);
    BareNumeral(n);
    ParseRender(n);
    ComposedIff(s);
    assert exists i :: 0 <= i < |s| && IsDigit(s[i]);
    OutOfRangeIff(s);
  }

  // The examples below take their literal through a parameter
  // (`requires a == "3.30"`) rather than writing it in the ensures: this keeps
  // the verifier from unfolding the literal character by character
  // throughout the proof.

  /** `3.30` is accepted as 3.3 volts. */
  lemma ExampleAccepted(a: string)
    requires a == "3.30"
    ensures Classify(a) == Voltage(3.3)
  {
    var n := Numeral(false, "3", true, "30");
    assert Value(n) == 3.3 by {
      assert PrefixValue(n.whole, 1) == 3;
      assert PrefixValue(n.fraction, 1) == 3;
      assert PrefixValue(n.fraction, 2) == 30;
    }
    assert Render(n) == a;
    NumeralAccepted(n);
  }

  /** `-0` is accepted as zero volts: negative zero is not below zero. */
  lemma ExampleNegativeZero(a: string)
    requires a == "-0"
    ensures Classify(a) == Voltage(0.0)
  {
    var n := Numeral(true, "0", false, "");
    assert Value(n) == 0.0 by {
      assert PrefixValue(n.whole, 1) == 0;
    }
    assert Render(n) == a;
    NumeralAccepted(n);
  }

  /** `5.` is accepted as five volts: `float()` takes a trailing point. */
  lemma ExampleTrailingPoint(a: string)
    requires a == "5."
    ensures Classify(a) == Voltage(5.0)
  {
    var n := Numeral(false, "5", true, "");
    assert Value(n) == 5.0 by {
      assert PrefixValue(n.whole, 1) == 5;
    }
    assert Render(n) == a;
    NumeralAccepted(n);
  }

  /** `.5` is accepted as half a volt: `float()` takes a leading point. */
  lemma ExampleLeadingPoint(a: string)
    requires a == ".5"
    ensures Classify(a) == Voltage(0.5)
  {
    var n := Numeral(false, "", true, "5");
    assert Value(n) == 0.5 by {
      assert PrefixValue(n.fraction, 1) == 5;
    }
    assert Render(n) == a;
    NumeralAccepted(n);
  }

  /** `-5` is refused with the range message. */
  lemma ExampleNegative(a: string)
    requires a == "-5"
    ensures Classify(a) == Reject(OutOfRange)
  {
    var n := Numeral(true, "5", false, "");
    assert Value(n) == -5.0 by {
      assert PrefixValue(n.whole, 1) == 5;
    }
    assert Render(n) == a;
    NumeralOutOfRange(n);
  }

  /** `1000` is refused with the range message. */
  lemma ExampleThousand(a: string)
    requires a == "1000"
    ensures Classify(a) == Reject(OutOfRange)
  {
    var n := Numeral(false, "1000", false, "");
    assert Value(n) == 1000.0 by {
      assert PrefixValue(n.whole, 1) == 1;
      assert PrefixValue(n.whole, 2) == 10;
      assert PrefixValue(n.whole, 3) == 100;
      assert PrefixValue(n.whole, 4) == 1000;
    }
    assert Render(n) == a;
    NumeralOutOfRange(n);
  }

  /** `1-2` passes the composition check and is then refused by `float()`. */
  lemma ExampleInnerMinus(a: string)
    requires a == "1-2"
    ensures Classify(a) == Reject(NotANumber)
  {
    assert AllInAlphabet(a) && IsDigit(a[0]);
    assert Classify(a) == Judge(a) by { ClassifyInAlphabet(a); }
    assert Composed(a) by { ComposedIff(a); }
    assert Judge(a) == Reject(NotANumber) by { InnerMinusIsNotANumber(a, 1); }
  }

  /** `1.2.3` passes the composition check and is then refused by `float()`. */
  lemma ExampleTwoPoints(a: string)
    requires a == "1.2.3"
    ensures Classify(a) == Reject(NotANumber)
  {
    assert AllInAlphabet(a) && IsDigit(a[0]);
    TwoPointsRejected(a, 1, 3);
  }

  /** A short line over the alphabet with a digit and two decimal points is
      refused by `float()`, whatever its other characters. */
  lemma TwoPointsRejected(s: string, i: nat, j: nat)
    requires i < j < |s| && s[i] == '.' && s[j] == '.'
    requires |s| <= MaxLength && AllInAlphabet(s) && IsDigit(s[0])
    ensures Classify(s) == Reject(NotANumber)
  {
    ClassifyInAlphabet(s);
    ComposedIff(s);
    SecondPointIsNotANumber(s, i, j);
  }

  /** The empty line and `abc` fail the composition check. */
  lemma ExampleNotComposed(a: string, b: string)
    requires a == "" && b == "abc"
    ensures Classify(a) == Reject(NotComposed)
    ensures Classify(b) == Reject(NotComposed)
  {
    assert LeadingSpaces(a) == 0;
    assert Normalize(a) == a;
    ForeignTextRejected(a);
    NormalizeBare(b);
    assert !InAlphabet(b[0]);
    ForeignTextRejected(b);
  }

  /** `123.456` is a well-formed number of seven characters, two more than the
      five allowed, and fails the composition check. */
  lemma ExampleTooLong(c: string)
    requires c == "123.456"
    ensures Classify(c) == Reject(NotComposed)
  {
    assert AllInAlphabet(c);
    ClassifyInAlphabet(c);
  }

  /** The prompt's `while True` loop over the lines the operator types, in
      order: it skips rejected lines and answers with the first line that is
      the keyword or an accepted voltage. `None` means the lines ran out
      first. */
  method PromptForVoltage(lines: seq<string>) returns (answer: Option<Answer>, rejected: nat)
    ensures rejected <= |lines|
    ensures forall j :: 0 <= j < rejected ==> Classify(lines[j]).Reject?
    ensures answer.Some? ==> rejected < |lines| && answer.value == Classify(lines[rejected])
    ensures answer.None? ==> rejected == |lines|
  {
    rejected := 0;
    while rejected < |lines|
      invariant rejected <= |lines|
      invariant forall j :: 0 <= j < rejected ==> Classify(lines[j]).Reject?
    {
      var entry := Classify(lines[rejected]);
      if !entry.Reject? {
        return Some(entry), rejected;
      }
      forall j | 0 <= j <= rejected
        ensures Classify(lines[j]).Reject?
      {
        if j == rejected {
          assert entry == Classify(lines[j]);
        }
      }
      rejected := rejected + 1;
    }
    answer := None;
  }
}
