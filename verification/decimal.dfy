/** The part of Python's `float()` that the voltage prompt can reach. By the
    time `float()` is called, the prompt has already checked that the text uses
    only the characters `0`-`9`, `.` and `-`; over that alphabet `float()`
    accepts exactly an optional leading minus, digits, and at most one decimal
    point, with at least one digit somewhere (`5`, `-0`, `5.`, `.5`, `3.30`). */
module Decimal {
  import opened Wrappers
  import opened Text

  /** A decimal numeral as written: sign, digits before the point, whether a
      point was written, and digits after it. */
  datatype Numeral = Numeral(negative: bool, whole: string, point: bool, fraction: string)

  predicate AllDigits(s: string)
  {
    forall i :: 0 <= i < |s| ==> IsDigit(s[i])
  }

  /** A numeral `float()` accepts: digits on both sides of the point, no
      fraction without a point, and at least one digit in all. */
  predicate WellFormed(n: Numeral)
  {
    && AllDigits(n.whole)
    && AllDigits(n.fraction)
    && (n.point || n.fraction == [])
    && |n.whole| + |n.fraction| > 0
  }

  /** The text of a numeral. */
  function Render(n: Numeral): string
  {
    (if n.negative then "-" else "") + n.whole + (if n.point then "." + n.fraction else "")
  }

  /** The grammar as a property of the characters: each one is a digit, a
      point, or a minus in first position; there is at most one point; and at
      least one character is a digit. */
  predicate Grammar(s: string)
  {
    && (forall i :: 0 <= i < |s| ==> IsDigit(s[i]) || s[i] == '.' || (i == 0 && s[i] == '-'))
    && (forall i, j :: 0 <= i < |s| && 0 <= j < |s| && s[i] == '.' && s[j] == '.' ==> i == j)
    && (exists i :: 0 <= i < |s| && IsDigit(s[i]))
  }

  /** The position of the first `c` in `s`, if any. */
  function Find(s: string, c: char): (r: Option<nat>)
    ensures r.None? <==> c !in s
    ensures r.Some? ==> r.value < |s| && s[r.value] == c && c !in s[..r.value]
  {
    if |s| == 0 then None
    else if s[0] == c then Some(0)
    else match Find(s[1..], c)
      case None => None
      case Some(i) => assert s[..i + 1] == [s[0]] + s[1..][..i]; Some(i + 1)
  }

  /** Splits unsigned text at its first point: the digits before it, whether
      there was one, and everything after it. */
  function SplitAtPoint(body: string): (r: (string, bool, string))
    ensures '.' !in r.0
    ensures r.1 ==> body == r.0 + "." + r.2
    ensures !r.1 ==> body == r.0 && r.2 == []
  {
    match Find(body, '.')
    case None => (body, false, [])
    case Some(i) =>
      assert body == body[..i] + "." + body[i + 1..];
      (body[..i], true, body[i + 1..])
  }

  /** The split is determined by the text: the first point is the one after
      a point-free prefix. */
  lemma SplitAtPointUnique(w: string, point: bool, f: string)
    requires '.' !in w
    requires !point ==> f == []
    ensures SplitAtPoint(w + (if point then "." + f else "")) == (w, point, f)
  {
    var body := w + (if point then "." + f else "");
    var r := SplitAtPoint(body);
    if point {
      assert body[|w|] == '.';
      assert forall i :: 0 <= i < |w| ==> body[i] == w[i];
      assert body[|r.0|] == '.';
      assert forall i :: 0 <= i < |r.0| ==> body[i] == r.0[i];
      assert |r.0| == |w|;
      assert r.0 == body[..|w|] == w;
      assert r.2 == body[|w| + 1..] == f;
    } else {
      assert body == w;
    }
  }

  /** Reads text as a numeral without judging it: a leading minus is the
      sign, the first point splits the rest. When the pieces are well formed
      they spell the text back. */
  function Scan(s: string): (n: Numeral)
    ensures WellFormed(n) ==> Render(n) == s
  {
    if |s| > 0 && s[0] == '-' then
      var parts := SplitAtPoint(s[1..]);
      assert s == "-" + s[1..];
      Numeral(true, parts.0, parts.1, parts.2)
    else
      var parts := SplitAtPoint(s);
      Numeral(false, parts.0, parts.1, parts.2)
  }

  /** `float(s)` for a string over digits, `.` and `-`: the numeral it reads,
      or `None` where `float()` raises `ValueError`. A successful parse reads
      back exactly the text it was given. */
  function Parse(s: string): (r: Option<Numeral>)
    ensures r.Some? ==> WellFormed(r.value) && Render(r.value) == s
  {
    if WellFormed(Scan(s)) then Some(Scan(s)) else None
  }

  /** Parsing the text of a well-formed numeral gives the numeral back. */
  lemma ParseRender(n: Numeral)
    requires WellFormed(n)
    ensures Parse(Render(n)) == Some(n)
  {
    var s := Render(n);
    var body := n.whole + (if n.point then "." + n.fraction else "");
    assert s == (if n.negative then "-" else "") + body;
    if |body| > 0 {
      assert body[0] == '.' || body[0] == n.whole[0];
    }
    assert (if |s| > 0 && s[0] == '-' then s[1..] else s) == body;
    assert '.' !in n.whole;
    SplitAtPointUnique(n.whole, n.point, n.fraction);
  }

  /** A numeral's text starts with a minus sign exactly when it is negative. */
  lemma RenderSign(n: Numeral)
    requires WellFormed(n)
    ensures |Render(n)| > 0
    ensures Render(n)[0] == '-' <==> n.negative
  {
    if !n.negative {
      if |n.whole| > 0 {
        assert Render(n)[0] == n.whole[0];
      } else {
        assert Render(n)[0] == '.';
      }
    }
  }

  /** Every well-formed numeral's text is in the grammar. */
  lemma RenderGrammar(n: Numeral)
    requires WellFormed(n)
    ensures Grammar(Render(n))
  {
    var s := Render(n);
    var sign := if n.negative then "-" else "";
    var tail := if n.point then "." + n.fraction else "";
    assert s == sign + n.whole + tail;
    var w := |sign| + |n.whole|;
    forall i | 0 <= i < |s|
      ensures IsDigit(s[i]) || (i == w && s[i] == '.' && n.point) || (i == 0 && s[i] == '-')
    {
      if i < |sign| {
      } else if i < w {
        assert s[i] == n.whole[i - |sign|];
      } else if n.point {
        assert s[i] == tail[i - w];
        if i > w {
          assert s[i] == n.fraction[i - w - 1];
        }
      }
    }
    if |n.whole| > 0 {
      assert IsDigit(s[|sign|]);
    } else {
      assert IsDigit(s[w + 1]);
    }
  }

  /** Unsigned text made of digits and at most one point, with at least one
      digit, splits into a well-formed numeral. */
  lemma UnsignedParses(negative: bool, body: string)
    requires forall i :: 0 <= i < |body| ==> IsDigit(body[i]) || body[i] == '.'
    requires forall i, j :: 0 <= i < |body| && 0 <= j < |body| && body[i] == '.' && body[j] == '.' ==> i == j
    requires exists i :: 0 <= i < |body| && IsDigit(body[i])
    ensures var (w, p, f) := SplitAtPoint(body); WellFormed(Numeral(negative, w, p, f))
  {
    var (w, p, f) := SplitAtPoint(body);
    var d :| 0 <= d < |body| && IsDigit(body[d]);
    if p {
      assert body[|w|] == '.';
      assert forall i :: 0 <= i < |w| ==> w[i] == body[i];
      forall i | 0 <= i < |f|
        ensures IsDigit(f[i])
      {
        assert f[i] == body[|w| + 1 + i];
      }
      if d < |w| {
        assert |w| > 0;
      } else {
        assert d != |w|;
        assert f[d - |w| - 1] == body[d];
      }
    } else {
      assert body == w;
    }
  }

  /** A string in the grammar parses. */
  lemma GrammarParses(s: string)
    requires Grammar(s)
    ensures Parse(s).Some?
  {
    var negative := |s| > 0 && s[0] == '-';
    var body := if negative then s[1..] else s;
    var off := if negative then 1 else 0;
    assert forall i :: 0 <= i < |body| ==> body[i] == s[i + off];
    var d :| 0 <= d < |s| && IsDigit(s[d]);
    assert body[d - off] == s[d];
    UnsignedParses(negative, body);
  }

  /** `float()` succeeds on a string over digits, `.` and `-` exactly when the
      string is in the grammar. */
  lemma ParseIffGrammar(s: string)
    ensures Parse(s).Some? <==> Grammar(s)
  {
    if Parse(s).Some? {
      RenderGrammar(Parse(s).value);
    }
    if Grammar(s) {
      GrammarParses(s);
    }
  }

  /** The numeral read from text is well formed exactly when the text is in
      the grammar. */
  lemma ScanIffGrammar(s: string)
    ensures WellFormed(Scan(s)) <==> Grammar(s)
  {
    ParseIffGrammar(s);
  }

  function DigitValue(c: char): (r: nat)
    requires IsDigit(c)
    ensures r <= 9
  {
    c as int - '0' as int
  }

  /** The value of a run of decimal digits, read most significant first. */
  function DigitsValue(s: string): nat
    requires AllDigits(s)
  {
    PrefixValue(s, |s|)
  }

  /** The value of the first `k` digits of `s`. */
  function PrefixValue(s: string, k: nat): nat
    requires k <= |s| && AllDigits(s)
  {
    if k == 0 then 0 else PrefixValue(s, k - 1) * 10 + DigitValue(s[k - 1])
  }

  /** Ten to the power `k`. */
  function Pow10(k: nat): (r: nat)
    ensures r >= 1
  {
    if k == 0 then 1 else 10 * Pow10(k - 1)
  }

  /** `k` digits are worth less than ten to the `k`. */
  lemma {:induction false} PrefixValueBound(s: string, k: nat)
    requires k <= |s| && AllDigits(s)
    ensures PrefixValue(s, k) < Pow10(k)
  {
    if k > 0 {
      PrefixValueBound(s, k - 1);
      BoundStep(PrefixValue(s, k - 1), Pow10(k - 1), DigitValue(s[k - 1]));
    }
  }

  lemma BoundStep(x: nat, p: nat, d: nat)
    requires x < p && d <= 9
    ensures x * 10 + d < 10 * p
  {
  }

  /** The value of the digits after a decimal point, the first one worth a
      tenth: the digits read as a whole number, over ten to their count. Any
      run of them is worth less than one. */
  function FractionValue(f: string): (r: real)
    requires AllDigits(f)
    ensures 0.0 <= r < 1.0
  {
    PrefixValueBound(f, |f|);
    BelowOne(DigitsValue(f), Pow10(|f|));
    DigitsValue(f) as real / Pow10(|f|) as real
  }

  lemma BelowOne(x: nat, p: nat)
    requires x < p
    ensures 0.0 <= x as real / p as real < 1.0
  {
  }

  /** The magnitude of a numeral: its whole part plus its fraction. */
  function Magnitude(n: Numeral): (r: real)
    requires WellFormed(n)
    ensures DigitsValue(n.whole) as real <= r < DigitsValue(n.whole) as real + 1.0
  {
    DigitsValue(n.whole) as real + FractionValue(n.fraction)
  }

  /** The number a numeral denotes, as an exact real. The sign of zero is not
      kept: `-0` and `0` have the same value. */
  function Value(n: Numeral): (r: real)
    requires WellFormed(n)
    ensures n.negative ==> r <= 0.0
    ensures !n.negative ==> r >= 0.0
  {
    if n.negative then -Magnitude(n) else Magnitude(n)
  }

  /** The digits of a prefix of `a + b` are read from `a` alone. */
  lemma {:induction false} PrefixValueOfPrefix(a: string, b: string, j: nat)
    requires AllDigits(a) && AllDigits(b) && j <= |a|
    ensures AllDigits(a + b)
    ensures PrefixValue(a + b, j) == PrefixValue(a, j)
  {
    assert forall i :: 0 <= i < |a + b| ==> (a + b)[i] == if i < |a| then a[i] else b[i - |a|];
    if j > 0 {
      PrefixValueOfPrefix(a, b, j - 1);
      assert (a + b)[j - 1] == a[j - 1];
    }
  }

  lemma {:induction false} PrefixValueAppend(a: string, b: string, k: nat)
    requires AllDigits(a) && AllDigits(b) && k <= |b|
    ensures AllDigits(a + b)
    ensures PrefixValue(a + b, |a| + k) == PrefixValue(a, |a|) * Pow10(k) + PrefixValue(b, k)
  {
    if k == 0 {
      PrefixValueOfPrefix(a, b, |a|);
    } else {
      PrefixValueAppend(a, b, k - 1);
      assert (a + b)[|a| + k - 1] == b[k - 1];
      ShiftDigit(PrefixValue(a, |a|), Pow10(k - 1), PrefixValue(b, k - 1), DigitValue(b[k - 1]));
    }
  }

  lemma ShiftDigit(x: int, p: int, y: int, d: int)
    ensures (x * p + y) * 10 + d == x * (10 * p) + (y * 10 + d)
  {
  }

  /** Digit strings compose positionally: the digits of `a` followed by those
      of `b` are worth `a` shifted past `b`, plus `b`. */
  lemma DigitsValueAppend(a: string, b: string)
    requires AllDigits(a) && AllDigits(b)
    ensures AllDigits(a + b)
    ensures DigitsValue(a + b) == DigitsValue(a) * Pow10(|b|) + DigitsValue(b)
  {
    PrefixValueAppend(a, b, |b|);
    assert DigitsValue(a + b) == PrefixValue(a + b, |a| + |b|);
  }

  /** The decimal reading of a numeral: its magnitude, scaled by ten to the
      number of fraction digits, is the whole number spelled by all its
      digits with the point removed (`3.30` is 330 hundredths). */
  lemma ScaledMagnitude(n: Numeral)
    requires WellFormed(n)
    ensures AllDigits(n.whole + n.fraction)
    ensures Magnitude(n) * Pow10(|n.fraction|) as real == DigitsValue(n.whole + n.fraction) as real
  {
    DigitsValueAppend(n.whole, n.fraction);
    Rescale(Magnitude(n), DigitsValue(n.whole), DigitsValue(n.fraction), Pow10(|n.fraction|),
      DigitsValue(n.whole + n.fraction));
  }

  lemma Rescale(m: real, w: nat, f: nat, p: nat, total: nat)
    requires p >= 1
    requires m == w as real + f as real / p as real
    requires total == w * p + f
    ensures m * p as real == total as real
  {
  }
}
