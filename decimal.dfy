/**
  How JavaScript writes an integral number into a template literal:
  decimal digits without leading zeros, preceded by `-` when negative.
*/
module Decimal {

  predicate IsDigit(c: char) {
    '0' <= c <= '9'
  }

  predicate AllDigits(s: string) {
    forall i :: 0 <= i < |s| ==> IsDigit(s[i])
  }

  function DigitChar(d: nat): (c: char)
    requires d < 10
  {
    ('0' as int + d) as char
  }

  function DigitValue(c: char): nat
    requires IsDigit(c)
  {
    c as int - '0' as int
  }

  /** The decimal numeral of `n`, with no leading zero unless `n` is zero. */
  function NatToString(n: nat): (r: string)
    ensures |r| >= 1 && AllDigits(r)
    ensures r[0] == '0' ==> n == 0 && |r| == 1
    decreases n
  {
    if n < 10 then [DigitChar(n)] else NatToString(n / 10) + [DigitChar(n % 10)]
  }

  /** The value a string of digits denotes. */
  function DigitsValue(s: string): nat
    requires AllDigits(s)
    decreases |s|
  {
    if s == [] then 0 else DigitsValue(s[..|s| - 1]) * 10 + DigitValue(s[|s| - 1])
  }

  /** Reading the numeral back gives the number. */
  lemma {:induction false} NatToStringRoundTrip(n: nat)
    ensures DigitsValue(NatToString(n)) == n
    decreases n
  {
    if n >= 10 {
      var prefix := NatToString(n / 10);
      var r := prefix + [DigitChar(n % 10)];
      assert r[..|r| - 1] == prefix;
      NatToStringRoundTrip(n / 10);
    }
  }

  /** `${i}` for an integer `i`. */
  function IntToString(i: int): string {
    if i < 0 then "-" + NatToString(-i) else NatToString(i)
  }

  /** Text of the shape IntToString produces: an optional `-`, then digits. */
  predicate IsIntegerText(s: string) {
    if s != [] && s[0] == '-' then |s| > 1 && AllDigits(s[1..]) else |s| > 0 && AllDigits(s)
  }

  /** The integer such text denotes. */
  function ParseInt(s: string): int
    requires IsIntegerText(s)
  {
    if s[0] == '-' then -(DigitsValue(s[1..]) as int) else DigitsValue(s)
  }

  /**
    Integer text as JavaScript writes it: no leading zero unless the number
    is zero itself, and no negative zero.
  */
  predicate IsCanonicalIntegerText(s: string) {
    && IsIntegerText(s)
    && (s[0] == '0' ==> |s| == 1)
    && (s[0] == '-' ==> s[1] != '0')
  }

  /**
    IntToString writes canonical integer text, with the sign exactly for
    negatives, and that text reads back as `i`.
  */
  lemma IntToStringRoundTrip(i: int)
    ensures IsCanonicalIntegerText(IntToString(i))
    ensures (IntToString(i)[0] == '-') == (i < 0)
    ensures ParseInt(IntToString(i)) == i
  {
    var r := IntToString(i);
    if i < 0 {
      assert r[1..] == NatToString(-i);
      NatToStringRoundTrip(-i);
    } else {
      NatToStringRoundTrip(i);
    }
  }

  /** A numeral with a nonzero leading digit denotes a positive number. */
  lemma {:induction false} DigitsPositive(d: string)
    requires |d| >= 1 && AllDigits(d) && d[0] != '0'
    ensures DigitsValue(d) >= 1
    decreases |d|
  {
    if |d| > 1 {
      DigitsPositive(d[..|d| - 1]);
    }
  }

  /** A numeral without leading zeros is the one NatToString writes for its value. */
  lemma {:induction false} DigitsCanonical(d: string)
    requires |d| >= 1 && AllDigits(d) && (d[0] == '0' ==> |d| == 1)
    ensures NatToString(DigitsValue(d)) == d
    decreases |d|
  {
    var p := d[..|d| - 1];
    var last := d[|d| - 1];
    if |d| == 1 {
      assert p == [];
      assert d == [last];
    } else {
      DigitsCanonical(p);
      DigitsPositive(p);
      var v := DigitsValue(d);
      assert v / 10 == DigitsValue(p) && v % 10 == DigitValue(last);
      assert d == p + [last];
    }
  }

  /**
    Canonical integer text is the text IntToString writes for the number it
    denotes, so IntToString and ParseInt are inverse between the integers and
    the canonical texts.
  */
  lemma CanonicalTextUnique(s: string)
    requires IsCanonicalIntegerText(s)
    ensures IntToString(ParseInt(s)) == s
  {
    if s[0] == '-' {
      var d := s[1..];
      DigitsCanonical(d);
      DigitsPositive(d);
      assert s == "-" + d;
    } else {
      DigitsCanonical(s);
    }
  }
}
