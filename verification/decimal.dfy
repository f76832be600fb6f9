/** The exact decimal text of an integer, which is what JavaScript's `String(n)`
    gives an integer-valued number of magnitude at most 2^53,
    and the parser that reads it back. */
module Decimal {
  import opened Options

  predicate IsDigit(c: char) {
    '0' <= c <= '9'
  }

  predicate AllDigits(s: string) {
    forall i | 0 <= i < |s| :: IsDigit(s[i])
  }

  function DigitChar(d: nat): (c: char)
    requires d < 10
    ensures IsDigit(c)
  {
    ('0' as int + d) as char
  }

  function DigitValue(c: char): (d: nat)
    requires IsDigit(c)
    ensures d < 10
  {
    c as int - '0' as int
  }

  /** Decimal digits of `n`, most significant first, with no leading zero. */
  function NatToString(n: nat): (s: string)
    ensures |s| >= 1 && AllDigits(s)
    ensures s[0] == '0' <==> n == 0
    ensures s[0] == '0' ==> |s| == 1
  {
    if n < 10 then [DigitChar(n)]
    else NatToString(n / 10) + [DigitChar(n % 10)]
  }

  /** Digits with no leading zero: "0" itself, or a non-zero digit first. */
  predicate Plain(d: string) {
    |d| >= 1 && AllDigits(d) && (d[0] == '0' ==> |d| == 1)
  }

  /** The canonical decimal text of an integer: plain digits, or a minus sign
      before plain digits other than "0" (there is no "-0"). */
  predicate Canonical(s: string) {
    Plain(s) || (|s| >= 2 && s[0] == '-' && Plain(s[1..]) && s[1] != '0')
  }

  /** The exact decimal text of `n`: a minus sign before the digits of `|n|`.
      This is JavaScript's `String(n)` for integers of magnitude at most 2^53. */
  function IntToString(n: int): (s: string)
    ensures Canonical(s)
    ensures s[0] == '-' <==> n < 0
  {
    if n < 0 then
      var s := "-" + NatToString(-n);
      assert s[1..] == NatToString(-n);
      s
    else NatToString(n)
  }

  function DigitsValue(s: string): nat
    requires AllDigits(s)
  {
    if |s| == 0 then 0
    else DigitsValue(s[..|s| - 1]) * 10 + DigitValue(s[|s| - 1])
  }

  /** Reads an optional minus sign followed by at least one digit. */
  function ParseInt(s: string): Option<int> {
    if |s| >= 2 && s[0] == '-' && AllDigits(s[1..]) then Some(-(DigitsValue(s[1..]) as int))
    else if |s| >= 1 && AllDigits(s) then Some(DigitsValue(s) as int)
    else None
  }

  lemma {:induction false} NatRoundTrip(n: nat)
    ensures DigitsValue(NatToString(n)) == n
  {
    var s := NatToString(n);
    if n < 10 {
      assert s[..|s| - 1] == [];
    } else {
      assert s[..|s| - 1] == NatToString(n / 10);
      NatRoundTrip(n / 10);
    }
  }

  /** Reading back the text of any integer gives that integer, so distinct
      numbers never render as the same cell text. */
  lemma IntRoundTrip(n: int)
    ensures ParseInt(IntToString(n)) == Some(n)
  {
    var s := IntToString(n);
    if n < 0 {
      assert s[1..] == NatToString(-n);
      NatRoundTrip(-n);
    } else {
      NatRoundTrip(n);
    }
  }

  lemma DigitRoundTrip(c: char)
    requires IsDigit(c)
    ensures DigitChar(DigitValue(c)) == c
  {
  }

  /** Plain digits starting with a non-zero digit denote a positive number. */
  lemma {:induction false} DigitsPositive(d: string)
    requires |d| >= 1 && AllDigits(d) && d[0] != '0'
    ensures DigitsValue(d) > 0
  {
    if |d| > 1 {
      var init := d[..|d| - 1];
      assert init[0] == d[0];
      assert AllDigits(init);
      DigitsPositive(init);
    }
  }

  /** Plain digits are exactly the text of the number they denote. */
  lemma {:induction false} PlainRoundTrip(d: string)
    requires Plain(d)
    ensures NatToString(DigitsValue(d)) == d
  {
    var last := d[|d| - 1];
    DigitRoundTrip(last);
    if |d| == 1 {
      assert d == [last];
    } else {
      var init := d[..|d| - 1];
      assert init[0] == d[0] && AllDigits(init);
      DigitsPositive(init);
      PlainRoundTrip(init);
      var n := DigitsValue(d);
      assert n == DigitsValue(init) * 10 + DigitValue(last);
      assert n / 10 == DigitsValue(init) && n % 10 == DigitValue(last);
      assert d == init + [last];
    }
  }

  /** The canonical text of an integer is unique: every canonical text reads
      as some integer whose text it is. With `IntRoundTrip`, `IntToString` is
      the one canonical text reading back as `n`. */
  lemma CanonicalRoundTrip(s: string)
    requires Canonical(s)
    ensures ParseInt(s).Some? && IntToString(ParseInt(s).value) == s
  {
    if Plain(s) {
      assert s[0] != '-';
      PlainRoundTrip(s);
    } else {
      var d := s[1..];
      DigitsPositive(d);
      PlainRoundTrip(d);
      assert s == "-" + d;
    }
  }
}
