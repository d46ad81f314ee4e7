/** The string operations the viewer applies to its inputs and to message text:
    `str.strip`, `str.isdigit`, `int(...)` on a digit string, `str(n)` on a
    non-negative integer, and single-character `str.replace`. */
module Text {

  /** The characters Python's `str.strip()` removes when called without
      arguments (those for which `str.isspace()` holds). */
  predicate IsSpace(c: char) {
    || c == ' '
    || ('\t' <= c <= '\r')
    || ('\U{1c}' <= c <= '\U{1f}')
    || c == '\U{85}' || c == '\U{a0}' || c == '\U{1680}'
    || ('\U{2000}' <= c <= '\U{200a}')
    || c == '\U{2028}' || c == '\U{2029}' || c == '\U{202f}'
    || c == '\U{205f}' || c == '\U{3000}'
  }

  /** Number of leading whitespace characters of `s`. */
  function LeadingSpace(s: string): (i: nat)
    ensures i <= |s|
    ensures forall k :: 0 <= k < i ==> IsSpace(s[k])
    ensures i < |s| ==> !IsSpace(s[i])
  {
    if s != [] && IsSpace(s[0]) then 1 + LeadingSpace(s[1..]) else 0
  }

  /** End of `s` once its trailing whitespace is cut, never going below `lo`. */
  function TrailingCut(s: string, lo: nat): (j: nat)
    requires lo <= |s|
    ensures lo <= j <= |s|
    ensures forall k :: j <= k < |s| ==> IsSpace(s[k])
    ensures lo < j ==> !IsSpace(s[j - 1])
    decreases |s|
  {
    if lo < |s| && IsSpace(s[|s| - 1]) then TrailingCut(s[..|s| - 1], lo) else |s|
  }

  /** Python's `s.strip()`: the slice of `s` left once leading and trailing
      whitespace are removed. Only whitespace is removed, and what is left
      neither starts nor ends with whitespace. */
  function Strip(s: string): (r: string)
    ensures r == [] || (!IsSpace(r[0]) && !IsSpace(r[|r| - 1]))
    ensures LeadingSpace(s) + |r| <= |s|
    ensures r == s[LeadingSpace(s)..LeadingSpace(s) + |r|]
    ensures forall k :: 0 <= k < LeadingSpace(s) ==> IsSpace(s[k])
    ensures forall k :: LeadingSpace(s) + |r| <= k < |s| ==> IsSpace(s[k])
  {
    var i := LeadingSpace(s);
    s[i..TrailingCut(s, i)]
  }

  /** `Strip` leaves nothing exactly when the input is all whitespace. */
  lemma StripEmptyIffBlank(s: string)
    ensures Strip(s) == [] <==> forall k :: 0 <= k < |s| ==> IsSpace(s[k])
  {
    if Strip(s) == [] {
    } else {
      var i := LeadingSpace(s);
      assert s[i] == Strip(s)[0];
    }
  }

  /** Stripping twice is stripping once. */
  lemma StripIdempotent(s: string)
    ensures Strip(Strip(s)) == Strip(s)
  {
    var r := Strip(s);
    if r != [] {
      assert LeadingSpace(r) == 0;
    }
  }

  predicate IsDigit(c: char) {
    '0' <= c <= '9'
  }

  predicate AllDigits(s: string) {
    forall k :: 0 <= k < |s| ==> IsDigit(s[k])
  }

  function DigitValue(c: char): (d: nat)
    requires IsDigit(c)
    ensures d < 10
  {
    (c as int) - ('0' as int)
  }

  function DigitChar(d: nat): (c: char)
    requires d < 10
    ensures IsDigit(c) && DigitValue(c) == d
  {
    (('0' as int) + d) as char
  }

  /** A digit string has no surrounding whitespace, so stripping keeps it. */
  lemma StripDigits(s: string)
    requires AllDigits(s)
    ensures Strip(s) == s
  {
    if s != [] {
      assert !IsSpace(s[0]) && !IsSpace(s[|s| - 1]);
    }
  }

  /** `10^n`. */
  function Pow10(n: nat): (p: nat)
    ensures p >= 1
  {
    if n == 0 then 1 else 10 * Pow10(n - 1)
  }

  /** Python's `int(s)` on a string of decimal digits (leading zeros allowed):
      a numeral of `n` digits denotes a number below `10^n`. */
  function DecimalValue(s: string): (v: nat)
    requires AllDigits(s)
    ensures v < Pow10(|s|)
  {
    if s == [] then 0 else 10 * DecimalValue(s[..|s| - 1]) + DigitValue(s[|s| - 1])
  }

  /** A decimal numeral in canonical form: non-empty, no leading zero except "0" itself. */
  predicate Canonical(s: string) {
    && s != []
    && AllDigits(s)
    && (s[0] == '0' ==> |s| == 1)
  }

  /** Python's `str(n)` on a non-negative integer. */
  function NatToDecimal(n: nat): (r: string)
    ensures Canonical(r)
    ensures |r| == 1 <==> n < 10
  {
    if n < 10 then [DigitChar(n)] else NatToDecimal(n / 10) + [DigitChar(n % 10)]
  }

  /** Reading back the numeral `str(n)` gives `n`. */
  lemma {:induction false} DecimalRoundTrip(n: nat)
    ensures DecimalValue(NatToDecimal(n)) == n
  {
    if n >= 10 {
      var p := NatToDecimal(n / 10);
      var r := NatToDecimal(n);
      assert r[..|r| - 1] == p;
      DecimalRoundTrip(n / 10);
    }
  }

  /** A canonical numeral with a non-zero first digit denotes a positive number. */
  lemma {:induction false} LeadingDigitPositive(s: string)
    requires s != [] && AllDigits(s) && s[0] != '0'
    ensures DecimalValue(s) > 0
  {
    if |s| > 1 {
      LeadingDigitPositive(s[..|s| - 1]);
    }
  }

  /** Every canonical numeral is `str` of the number it denotes, so `str` is a
      bijection between naturals and canonical numerals. */
  lemma {:induction false} CanonicalRoundTrip(s: string)
    requires Canonical(s)
    ensures NatToDecimal(DecimalValue(s)) == s
  {
    if |s| > 1 {
      var p := s[..|s| - 1];
      LeadingDigitPositive(p);
      CanonicalRoundTrip(p);
      assert s == p + [s[|s| - 1]];
    }
  }

  /** Python's `str(i)` on any integer. */
  function IntToDecimal(i: int): (r: string)
    ensures r != []
    ensures i >= 0 ==> Canonical(r) && DecimalValue(r) == i
    ensures i < 0 ==> r[0] == '-' && Canonical(r[1..]) && DecimalValue(r[1..]) == -i
  {
    if i < 0 then
      DecimalRoundTrip(-i);
      assert ("-" + NatToDecimal(-i))[1..] == NatToDecimal(-i);
      "-" + NatToDecimal(-i)
    else
      DecimalRoundTrip(i);
      NatToDecimal(i)
  }

  /** Python's `s.replace(from, to)` where both are single characters. */
  function ReplaceChar(s: string, from: char, to: char): (r: string)
    ensures |r| == |s|
    ensures forall k :: 0 <= k < |s| ==> r[k] == (if s[k] == from then to else s[k])
  {
    if s == [] then [] else [if s[0] == from then to else s[0]] + ReplaceChar(s[1..], from, to)
  }

  /** Python's `s.replace(c, '')`: every `c` deleted, everything else kept in order. */
  function DeleteChar(s: string, c: char): (r: string)
    ensures c !in r
    ensures |r| <= |s|
    ensures forall x :: x in r ==> x in s
    ensures c !in s ==> r == s
  {
    if s == [] then [] else if s[0] == c then DeleteChar(s[1..], c) else [s[0]] + DeleteChar(s[1..], c)
  }

  /** Deleting distributes over concatenation. */
  lemma {:induction false} DeleteCharConcat(a: string, b: string, c: char)
    ensures DeleteChar(a + b, c) == DeleteChar(a, c) + DeleteChar(b, c)
  {
    if a != [] {
      assert (a + b)[1..] == a[1..] + b;
      DeleteCharConcat(a[1..], b, c);
    } else {
      assert a + b == b;
    }
  }

  /** On one character: gone if it is `c`, kept otherwise. With
      `DeleteCharConcat` this fixes `DeleteChar` on every string: every
      other character is kept, in order. */
  lemma DeleteCharSingle(x: char, c: char)
    ensures DeleteChar([x], c) == if x == c then [] else [x]
  {
    assert [x][1..] == [];
  }

  /** Replacing distributes over concatenation. */
  lemma ReplaceCharConcat(a: string, b: string, from: char, to: char)
    ensures ReplaceChar(a + b, from, to) == ReplaceChar(a, from, to) + ReplaceChar(b, from, to)
  {
    var l := ReplaceChar(a + b, from, to);
    var r := ReplaceChar(a, from, to) + ReplaceChar(b, from, to);
    forall k | 0 <= k < |l|
      ensures l[k] == r[k]
    {
      if k < |a| {
        assert (a + b)[k] == a[k];
      } else {
        assert (a + b)[k] == b[k - |a|];
      }
    }
  }

  /** Replacing one character by another leaves the count of any third
      character alone. */
  lemma {:induction false} CountAfterReplace(s: string, from: char, to: char, c: char)
    requires c != from && c != to
    ensures Count(ReplaceChar(s, from, to), c) == Count(s, c)
  {
    if s != [] {
      CountAfterReplace(s[1..], from, to, c);
      assert ReplaceChar(s, from, to)[1..] == ReplaceChar(s[1..], from, to);
    }
  }

  /** After replacing `from` by a different character none is left, and a
      string without `from` is unchanged. */
  lemma ReplaceRemoves(s: string, from: char, to: char)
    requires from != to
    ensures from !in ReplaceChar(s, from, to)
    ensures from !in s ==> ReplaceChar(s, from, to) == s
  {
    var r := ReplaceChar(s, from, to);
    forall k | 0 <= k < |r|
      ensures r[k] != from
    {
    }
    if from !in s {
      forall k | 0 <= k < |s|
        ensures r[k] == s[k]
      {
      }
    }
  }

  /** Replacing never introduces a character that is neither in the text
      nor the replacement. */
  lemma ReplaceAbsent(s: string, from: char, to: char, c: char)
    requires c != to && c !in s
    ensures c !in ReplaceChar(s, from, to)
  {
    var r := ReplaceChar(s, from, to);
    forall k | 0 <= k < |r|
      ensures r[k] != c
    {
    }
  }

  /** Number of occurrences of `c` in `s`. */
  function Count(s: string, c: char): nat {
    if s == [] then 0 else (if s[0] == c then 1 else 0) + Count(s[1..], c)
  }

  /** Deleting a character shortens the string by exactly its number of occurrences. */
  lemma {:induction false} DeleteCharLength(s: string, c: char)
    ensures |DeleteChar(s, c)| == |s| - Count(s, c)
  {
    if s != [] {
      DeleteCharLength(s[1..], c);
    }
  }
}
