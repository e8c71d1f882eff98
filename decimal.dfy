/** The decimal text of integers: `str(n)` for an `int`, and the part of
    `int(s)` for a `str` that the adapters rely on (an optional sign followed
    by ASCII digits). */
module Decimal {
  import opened Wrappers

  predicate IsDigit(c: char)
  {
    '0' <= c <= '9'
  }

  predicate AllDigits(s: string)
  {
    forall i :: 0 <= i < |s| ==> IsDigit(s[i])
  }

  function DigitChar(d: nat): (c: char)
    requires d < 10
    ensures IsDigit(c) && c as int - '0' as int == d
  {
    ('0' as int + d) as char
  }

  /** The digits of `n`, most significant first, without leading zeros. */
  function Digits(n: nat): (s: string)
    ensures |s| > 0 && AllDigits(s)
    decreases n
  {
    if n < 10 then [DigitChar(n)] else Digits(n / 10) + [DigitChar(n % 10)]
  }

  /** The number a string of digits spells. */
  function DigitsValue(s: string): (r: nat)
    requires AllDigits(s)
    decreases |s|
  {
    if s == [] then 0 else DigitsValue(s[..|s| - 1]) * 10 + (s[|s| - 1] as int - '0' as int)
  }

  /** `str(i)`. */
  function Render(i: int): (r: string)
  {
    if i < 0 then "-" + Digits(-i) else Digits(i)
  }

  /** `int(s)`; None is the `ValueError` it raises. */
  function Parse(s: string): (r: Option<int>)
    ensures r.Some? ==> |s| > 0 && (IsDigit(s[0]) || s[0] == '-' || s[0] == '+')
  {
    if |s| > 1 && (s[0] == '-' || s[0] == '+') && AllDigits(s[1..]) then
      Some(if s[0] == '-' then 0 - DigitsValue(s[1..]) else DigitsValue(s[1..]))
    else if |s| > 0 && AllDigits(s) then
      Some(DigitsValue(s))
    else
      None
  }

  lemma {:induction false} DigitsValueOfDigits(n: nat)
    ensures DigitsValue(Digits(n)) == n
    decreases n
  {
    if n >= 10 {
      var s := Digits(n);
      assert s[..|s| - 1] == Digits(n / 10);
      DigitsValueOfDigits(n / 10);
    }
  }

  /** `int(str(i)) == i`. */
  lemma ParseRender(i: int)
    ensures Parse(Render(i)) == Some(i)
  {
    if i < 0 {
      var d := Digits(-i);
      var r := "-" + d;
      assert r[1..] == d;
      assert r[0] == '-' && |r| > 1;
      DigitsValueOfDigits(-i);
    } else {
      var d := Digits(i);
      assert !(d[0] == '-' || d[0] == '+');
      DigitsValueOfDigits(i);
    }
  }
}
