/** The string primitives the voltage prompt relies on: Python's `str.strip()`,
    `str.lower()`, `str.replace(c, '')` and `str.isdigit()`, each over Dafny's
    `string` (a sequence of Unicode scalar values). */
module Text {

  /** Python's `str.isspace()`, which is also the set `str.strip()` removes. */
  predicate IsSpace(c: char)
  {
    || c == ' '
    || ('\t' <= c <= '\r')               // tab, line feed, vertical tab, form feed, carriage return
    || ('\U{1C}' <= c <= '\U{1F}')       // file, group, record and unit separators
    || c == '\U{85}' || c == '\U{A0}' || c == '\U{1680}'
    || ('\U{2000}' <= c <= '\U{200A}')
    || c == '\U{2028}' || c == '\U{2029}' || c == '\U{202F}' || c == '\U{205F}' || c == '\U{3000}'
  }

  predicate AllSpace(s: string)
  {
    forall i :: 0 <= i < |s| ==> IsSpace(s[i])
  }

  /** The number of whitespace characters `s` starts with. */
  function LeadingSpaces(s: string): (k: nat)
    ensures k <= |s|
    ensures forall i :: 0 <= i < k ==> IsSpace(s[i])
    ensures k < |s| ==> !IsSpace(s[k])
  {
    if |s| > 0 && IsSpace(s[0]) then 1 + LeadingSpaces(s[1..]) else 0
  }

  /** The number of whitespace characters `s` ends with. */
  function TrailingSpaces(s: string): (k: nat)
    ensures k <= |s|
    ensures forall i :: |s| - k <= i < |s| ==> IsSpace(s[i])
    ensures k < |s| ==> !IsSpace(s[|s| - k - 1])
  {
    if |s| > 0 && IsSpace(s[|s| - 1]) then 1 + TrailingSpaces(s[..|s| - 1]) else 0
  }

  /** Python's `str.strip()` with no argument: the text between the leading
      and the trailing whitespace. */
  function Strip(s: string): (r: string)
    ensures |r| > 0 ==> !IsSpace(r[0]) && !IsSpace(r[|r| - 1])
    ensures forall i :: 0 <= i < |r| ==> r[i] in s
  {
    var k := LeadingSpaces(s);
    s[k..][..|s| - k - TrailingSpaces(s[k..])]
  }

  /** Stripping a word padded on both sides with whitespace gives back exactly
      the word, whatever the padding. */
  lemma StripPadded(pre: string, w: string, post: string)
    requires AllSpace(pre) && AllSpace(post)
    requires |w| > 0 && !IsSpace(w[0]) && !IsSpace(w[|w| - 1])
    ensures Strip(pre + w + post) == w
  {
    var s := pre + w + post;
    var k := LeadingSpaces(s);
    assert s[|pre|] == w[0];
    assert k == |pre|;
    var t := s[k..];
    assert t == w + post;
    var j := TrailingSpaces(t);
    assert t[|w| - 1] == w[|w| - 1];
    assert j <= |post|;
    assert j == |post|;
    assert t[..|t| - j] == w;
  }

  /** Conversely, every string is its stripped text with whitespace on either
      side: `strip()` removes only whitespace, and only at the ends. */
  lemma StripDecomposes(s: string) returns (pre: string, post: string)
    ensures AllSpace(pre) && AllSpace(post)
    ensures s == pre + Strip(s) + post
  {
    var k := LeadingSpaces(s);
    var j := TrailingSpaces(s[k..]);
    pre, post := Surround(s, k, j, Strip(s));
  }

  /** Cutting whitespace from the front and then from the back of what remains
      leaves a middle with whitespace on either side of it. */
  lemma Surround(s: string, k: nat, j: nat, mid: string) returns (pre: string, post: string)
    requires k <= |s| && j <= |s| - k
    requires forall i :: 0 <= i < k ==> IsSpace(s[i])
    requires forall i :: |s| - k - j <= i < |s| - k ==> IsSpace(s[k..][i])
    requires mid == s[k..][..|s| - k - j]
    ensures AllSpace(pre) && AllSpace(post)
    ensures s == pre + mid + post
  {
    var t := s[k..];
    pre, post := s[..k], t[|t| - j..];
    assert s == pre + t;
    assert t == mid + post;
    forall i | 0 <= i < |post|
      ensures IsSpace(post[i])
    {
      assert post[i] == t[|t| - j + i];
    }
  }

  /** Python's `str.lower()` on one character, for the ASCII letters. */
  function LowerChar(c: char): char
  {
    if 'A' <= c <= 'Z' then (c as int - 'A' as int + 'a' as int) as char else c
  }

  /** Python's `str.lower()`, for the ASCII letters. */
  function Lower(s: string): (r: string)
    ensures |r| == |s|
    ensures forall i :: 0 <= i < |s| ==> r[i] == LowerChar(s[i])
  {
    if |s| == 0 then [] else [LowerChar(s[0])] + Lower(s[1..])
  }

  predicate IsDigit(c: char)
  {
    '0' <= c <= '9'
  }

  /** Python's `str.isdigit()` restricted to ASCII: true exactly when the
      string is non-empty and every character is a decimal digit. */
  predicate IsDigits(s: string)
  {
    |s| > 0 && forall i :: 0 <= i < |s| ==> IsDigit(s[i])
  }

  /** Python's `s.replace(c, '')`: every occurrence of `c` deleted, the other
      characters kept in order. */
  function Without(s: string, c: char): (r: string)
    ensures |r| <= |s|
    ensures forall x :: x in r <==> x in s && x != c
  {
    if |s| == 0 then []
    else if s[0] == c then Without(s[1..], c)
    else [s[0]] + Without(s[1..], c)
  }

  /** Every character other than `c` survives as many times as it occurs;
      every `c` is gone. */
  lemma {:induction false} WithoutCounts(s: string, c: char)
    ensures multiset(Without(s, c)) == multiset(s)[c := 0]
  {
    if |s| > 0 {
      WithoutCounts(s[1..], c);
      assert s == [s[0]] + s[1..];
    }
  }

  /** Deletion works piece by piece: the characters that remain keep their
      order, since deleting from a concatenation is concatenating the
      deletions. */
  lemma {:induction false} WithoutAppend(a: string, b: string, c: char)
    ensures Without(a + b, c) == Without(a, c) + Without(b, c)
  {
    if |a| == 0 {
      assert a + b == b;
    } else {
      assert (a + b)[0] == a[0];
      assert (a + b)[1..] == a[1..] + b;
      WithoutAppend(a[1..], b, c);
    }
  }
}
