/** Decimal text for amounts held as integer minor units. */
module Decimal {
  import opened Outcome

  predicate IsDigit(c: char)
  {
    '0' <= c <= '9'
  }

  predicate AllDigits(s: string)
  {
    forall i | 0 <= i < |s| :: IsDigit(s[i])
  }

  function DigitChar(d: nat): (c: char)
    requires d < 10
    ensures IsDigit(c)
  {
    ('0' as int + d) as char
  }

  function DigitValue(c: char): (d: nat)
    requires IsDigit(c)
    ensures d < 10
  {
    c as int - '0' as int
  }

  /** Shortest decimal spelling of `n`. */
  function FormatNat(n: nat): (s: string)
    ensures |s| >= 1 && AllDigits(s)
  {
    if n < 10 then [DigitChar(n)] else FormatNat(n / 10) + [DigitChar(n % 10)]
  }

  /** Value of a digit string, most significant digit first. */
  function DigitsValue(s: string): nat
    requires AllDigits(s)
  {
    if |s| == 0 then 0 else DigitsValue(s[..|s| - 1]) * 10 + DigitValue(s[|s| - 1])
  }

  function ParseNat(s: string): (r: Option<nat>)
    ensures r.Some? <==> |s| >= 1 && AllDigits(s)
  {
    if |s| >= 1 && AllDigits(s) then Some(DigitsValue(s)) else None
  }

  /** Amount text as written to the records file: a '-' sign for negatives, then digits. */
  function FormatInt(n: int): (s: string)
    ensures ',' !in s
  {
    if n < 0 then "-" + FormatNat(-n) else FormatNat(n)
  }

  function ParseInt(s: string): (r: Option<int>)
    ensures r.Some? ==> |s| >= 1
  {
    if |s| >= 1 && s[0] == '-' then
      match ParseNat(s[1..])
      case Some(n) => Some(-(n as int))
      case None => None
    else
      match ParseNat(s)
      case Some(n) => Some(n)
      case None => None
  }

  lemma {:induction false} NatRoundTrip(n: nat)
    ensures DigitsValue(FormatNat(n)) == n
  {
    if n >= 10 {
      var s := FormatNat(n);
      assert s[..|s| - 1] == FormatNat(n / 10);
      NatRoundTrip(n / 10);
    } else {
      var s := FormatNat(n);
      assert s[..|s| - 1] == [];
    }
  }

  /** Every amount written is read back as itself. */
  lemma IntRoundTrip(n: int)
    ensures ParseInt(FormatInt(n)) == Some(n)
  {
    if n < 0 {
      var digits := FormatNat(-n);
      var s := "-" + digits;
      assert FormatInt(n) == s;
      assert s[1..] == digits;
      NatRoundTrip(-n);
      assert ParseNat(digits) == Some(-n);
    } else {
      var s := FormatNat(n);
      assert FormatInt(n) == s;
      assert IsDigit(s[0]);
      NatRoundTrip(n);
      assert ParseNat(s) == Some(n);
    }
  }
}
