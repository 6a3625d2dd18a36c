/** Decimal text of Java `long` values: `Long.toString` (what string
    concatenation of a `Long` produces) and `Long.parseLong`. */
module JLong {
  import opened Common

  const MIN_LONG: int := -0x8000_0000_0000_0000
  const MAX_LONG: int := 0x7fff_ffff_ffff_ffff

  predicate InLongRange(n: int)
  {
    MIN_LONG <= n <= MAX_LONG
  }

  predicate IsDigit(ch: char)
  {
    '0' <= ch <= '9'
  }

  predicate AllDigits(s: string)
  {
    forall k :: 0 <= k < |s| ==> IsDigit(s[k])
  }

  function DigitChar(d: nat): (ch: char)
    requires d < 10
    ensures IsDigit(ch)
  {
    (('0' as int) + d) as char
  }

  /** Decimal digits of `n`, most significant first, no leading zeros. */
  function NatToDigits(n: nat): (s: string)
    ensures |s| >= 1 && AllDigits(s)
  {
    if n < 10 then [DigitChar(n)] else NatToDigits(n / 10) + [DigitChar(n % 10)]
  }

  /** The value of a string of decimal digits. */
  function DigitsValue(s: string): nat
    requires AllDigits(s)
  {
    if |s| == 0 then 0
    else DigitsValue(s[..|s| - 1]) * 10 + (s[|s| - 1] as int - '0' as int)
  }

  /** `Long.toString(n)`: a minus sign for negative values, then the digits. */
  function LongToString(n: int): (s: string)
  {
    if n < 0 then "-" + NatToDigits(-n) else NatToDigits(n)
  }

  /** `Long.parseLong(s)`: an optional `-` or `+`, then at least one decimal
      digit, and a value that fits 64 bits; anything else throws
      `NumberFormatException`, modelled as `None`. */
  function ParseLong(s: string): (r: Option<int>)
    ensures r.Some? ==> InLongRange(r.value)
  {
    if |s| == 0 then None
    else
      var body := if s[0] == '-' || s[0] == '+' then s[1..] else s;
      if |body| == 0 || !AllDigits(body) then None
      else
        var magnitude: int := DigitsValue(body);
        var v := if s[0] == '-' then -magnitude else magnitude;
        if InLongRange(v) then Some(v) else None
  }

  lemma {:induction false} DigitsRoundTrip(n: nat)
    ensures DigitsValue(NatToDigits(n)) == n
  {
    if n >= 10 {
      var s := NatToDigits(n);
      DigitsRoundTrip(n / 10);
      assert s[..|s| - 1] == NatToDigits(n / 10);
    }
  }

  /** Every `long` printed by `Long.toString` parses back to itself. */
  lemma LongRoundTrip(n: int)
    requires InLongRange(n)
    ensures ParseLong(LongToString(n)) == Some(n)
  {
    var s := LongToString(n);
    if n < 0 {
      DigitsRoundTrip(-n);
      assert s[1..] == NatToDigits(-n);
    } else {
      DigitsRoundTrip(n);
    }
  }

  /** Printed longs use only digits and a leading minus sign, so they never
      contain any of the protocol's separators. */
  lemma LongToStringChars(n: int)
    ensures |LongToString(n)| >= 1
    ensures forall k :: 0 <= k < |LongToString(n)| ==>
      LongToString(n)[k] == '-' || IsDigit(LongToString(n)[k])
    ensures ':' !in LongToString(n) && ',' !in LongToString(n) && '|' !in LongToString(n)
  {
    var s := LongToString(n);
    assert forall k :: 0 <= k < |s| ==> s[k] == '-' || IsDigit(s[k]);
  }

  /** The printed text starts with a minus sign exactly for negative values. */
  lemma SignChar(n: int)
    ensures |LongToString(n)| >= 1
    ensures (LongToString(n)[0] == '-') == (n < 0)
  {
    if n >= 0 {
      assert IsDigit(NatToDigits(n)[0]);
    }
  }

  /** Distinct values print differently. */
  lemma LongToStringInjective(a: int, b: int)
    requires LongToString(a) == LongToString(b)
    ensures a == b
  {
    SignChar(a);
    SignChar(b);
    var s := LongToString(a);
    var ma: nat := if a < 0 then -a else a;
    var mb: nat := if b < 0 then -b else b;
    var digits := if s[0] == '-' then s[1..] else s;
    assert digits == NatToDigits(ma);
    assert digits == NatToDigits(mb);
    DigitsRoundTrip(ma);
    DigitsRoundTrip(mb);
  }
}
