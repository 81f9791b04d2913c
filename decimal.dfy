/**
 * Decimal rendering of an elapsed nanosecond count, as `format!("{}", n)`
 * produces it for the `u128` that `Duration::as_nanos` returns in
 * timing_server/src/main.rs, and its inverse.
 */
module Decimal {

  predicate IsDigit(c: char) {
    '0' <= c <= '9'
  }

  /** A non-empty string of decimal digits with no leading zero (except "0" itself). */
  predicate IsCanonical(s: string) {
    && |s| >= 1
    && (forall i :: 0 <= i < |s| ==> IsDigit(s[i]))
    && (|s| > 1 ==> s[0] != '0')
  }

  function DigitChar(d: nat): (c: char)
    requires d < 10
    ensures IsDigit(c) && (c == '0' <==> d == 0)
  {
    ('0' as int + d) as char
  }

  function DigitValue(c: char): (d: nat)
    requires IsDigit(c)
    ensures d < 10 && DigitChar(d) == c
  {
    (c as int - '0' as int) as nat
  }

  /** The decimal representation of `n`, most significant digit first. */
  function NatToDecimal(n: nat): (s: string)
    ensures IsCanonical(s)
    decreases n
  {
    if n < 10 then
      [DigitChar(n)]
    else
      var front := NatToDecimal(n / 10);
      assert (front + [DigitChar(n % 10)])[0] == front[0];
      front + [DigitChar(n % 10)]
  }

  /** The number a string of decimal digits denotes. */
  function DecimalValue(s: string): nat
    requires forall i :: 0 <= i < |s| ==> IsDigit(s[i])
  {
    if s == [] then 0 else DecimalValue(s[..|s| - 1]) * 10 + DigitValue(s[|s| - 1])
  }

  /** Rendering gives a canonical digit string that reads back as the same number. */
  lemma {:induction false} RenderCanonical(n: nat)
    ensures IsCanonical(NatToDecimal(n))
    ensures DecimalValue(NatToDecimal(n)) == n
    decreases n
  {
    var s := NatToDecimal(n);
    if n >= 10 {
      RenderCanonical(n / 10);
      var front := NatToDecimal(n / 10);
      assert s[..|s| - 1] == front;
      assert s[0] == front[0];
      assert DigitValue(s[|s| - 1]) == n % 10;
    }
  }

  /** A canonical string with more than one digit denotes at least 10. */
  lemma {:induction false} LongCanonicalAtLeastTen(s: string)
    requires IsCanonical(s) && |s| > 1
    ensures DecimalValue(s) >= 10
    decreases |s|
  {
    var front := s[..|s| - 1];
    assert front[0] == s[0];
    if |front| > 1 {
      LongCanonicalAtLeastTen(front);
    } else {
      assert DecimalValue(front) == DigitValue(s[0]) >= 1;
    }
  }

  /** Every canonical string is the rendering of the number it denotes. */
  lemma {:induction false} ParseCanonical(s: string)
    requires IsCanonical(s)
    ensures NatToDecimal(DecimalValue(s)) == s
    decreases |s|
  {
    var v := DecimalValue(s);
    if |s| > 1 {
      var front := s[..|s| - 1];
      var d := DigitValue(s[|s| - 1]);
      assert front[0] == s[0];
      ParseCanonical(front);
      LongCanonicalAtLeastTen(s);
      assert v == DecimalValue(front) * 10 + d;
      assert v / 10 == DecimalValue(front) && v % 10 == d;
      assert s == front + [s[|s| - 1]];
    }
  }

  /** Distinct numbers have distinct renderings. */
  lemma RenderInjective(m: nat, n: nat)
    requires NatToDecimal(m) == NatToDecimal(n)
    ensures m == n
  {
    RenderCanonical(m);
    RenderCanonical(n);
  }

  /** A rendered number never collides with the sentinel bodies "-1" and "unknown". */
  lemma RenderNotSentinel(n: nat)
    ensures NatToDecimal(n) != "-1" && NatToDecimal(n) != "unknown"
  {
    RenderCanonical(n);
    assert !IsDigit('-') && !IsDigit('u');
  }
}
