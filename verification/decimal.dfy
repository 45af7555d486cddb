/** Decimal text for `u32` values: Rust's `u32::from_str` (the same as
    `u32::from_str_radix(_, 10)`) and `u32::to_string`. */
module Decimal {
  import opened Wrappers

  /** One more than the largest `u32`. */
  const U32_LIMIT: nat := 0x1_0000_0000

  predicate IsDigit(c: char)
  {
    '0' <= c <= '9'
  }

  predicate AllDigits(s: string)
  {
    forall j :: 0 <= j < |s| ==> IsDigit(s[j])
  }

  function DigitValue(c: char): nat
    requires IsDigit(c)
  {
    (c as int) - ('0' as int)
  }

  /** The number a string of decimal digits denotes (leading zeros allowed). */
  function DigitsValue(d: string): nat
    requires AllDigits(d)
    decreases |d|
  {
    if d == [] then 0 else DigitsValue(d[..|d| - 1]) * 10 + DigitValue(d[|d| - 1])
  }

  /** `u32::from_str`: an optional leading '+', then at least one decimal
      digit, and a value that fits in 32 bits; anything else is an error. */
  function ParseU32(s: string): (r: Option<nat>)
    ensures r.Some? ==> r.value < U32_LIMIT
  {
    var digits := if s != [] && s[0] == '+' then s[1..] else s;
    if digits != [] && AllDigits(digits) && DigitsValue(digits) < U32_LIMIT
    then Some(DigitsValue(digits))
    else None
  }

  function DigitChar(d: nat): (c: char)
    requires d < 10
    ensures IsDigit(c) && DigitValue(c) == d
  {
    ('0' as int + d) as char
  }

  /** `n.to_string()`: the shortest decimal text of `n`. */
  function ToDecimal(n: nat): (s: string)
    ensures s != [] && AllDigits(s)
    ensures DigitsValue(s) == n
    decreases n
  {
    if n < 10 then [DigitChar(n)]
    else
      var s := ToDecimal(n / 10) + [DigitChar(n % 10)];
      assert s[..|s| - 1] == ToDecimal(n / 10);
      s
  }

  /** Printing a `u32` and parsing it back gives the same number. */
  lemma ParseToDecimal(n: nat)
    requires n < U32_LIMIT
    ensures ParseU32(ToDecimal(n)) == Some(n)
  {
    assert ToDecimal(n)[0] != '+' by { assert IsDigit(ToDecimal(n)[0]); }
  }

  /** Decimal text holds none of the protover separators. */
  lemma DecimalHasNoSeparator(n: nat, c: char)
    requires !IsDigit(c)
    ensures c !in ToDecimal(n)
  {
  }

  /** The accepted forms include a leading '+' and leading zeros; a sign
      alone, the empty string and a minus sign are refused. */
  lemma ParseU32Examples()
    ensures ParseU32("7") == Some(7)
    ensures ParseU32("+7") == Some(7)
    ensures ParseU32("007") == Some(7)
    ensures ParseU32("") == None
    ensures ParseU32("+") == None
    ensures ParseU32("-7") == None
  {
    assert DigitsValue("7") == 7;
    assert DigitsValue("00") == 0;
    assert "+7"[1..] == "7";
    assert "007"[..2] == "00" && "00"[..1] == "0";
  }

  /** A value past `u32::MAX` is refused, with or without a '+'. */
  lemma ParseU32Overflow(n: nat)
    requires n >= U32_LIMIT
    ensures ParseU32(ToDecimal(n)) == None
    ensures ParseU32("+" + ToDecimal(n)) == None
  {
    assert ToDecimal(n)[0] != '+' by { assert IsDigit(ToDecimal(n)[0]); }
    assert ("+" + ToDecimal(n))[1..] == ToDecimal(n);
  }

  /** A leading '+' is accepted in front of any `u32`. */
  lemma ParseU32Plus(n: nat)
    requires n < U32_LIMIT
    ensures ParseU32("+" + ToDecimal(n)) == Some(n)
  {
    assert ("+" + ToDecimal(n))[1..] == ToDecimal(n);
  }
}
