/** Decimal text of integers: `int.ToString()` (invariant culture), the
    zero-padded fields of a custom date format, and `int.Parse`. */
module Digits {
  import opened Wrappers
  import opened Errors

  const Int32Min: int := -0x8000_0000
  const Int32Max: int := 0x7fff_ffff

  function Pow10(w: nat): (p: nat)
    ensures p >= 1
  {
    if w == 0 then 1 else 10 * Pow10(w - 1)
  }

  predicate IsDigit(c: char) {
    '0' <= c <= '9'
  }

  predicate AllDigits(s: string) {
    forall i :: 0 <= i < |s| ==> IsDigit(s[i])
  }

  function DigitChar(n: nat): (c: char)
    requires n < 10
    ensures IsDigit(c)
  {
    '0' + n as char
  }

  function DigitValue(c: char): (n: nat)
    requires IsDigit(c)
    ensures n < 10 && DigitChar(n) == c
  {
    (c - '0') as nat
  }

  /** The `w` least significant decimal digits of `n`, most significant
      first, padded with '0' on the left. */
  function Fixed(n: nat, w: nat): (s: string)
    ensures |s| == w && AllDigits(s)
  {
    if w == 0 then [] else Fixed(n / 10, w - 1) + [DigitChar(n % 10)]
  }

  /** The number a string of decimal digits denotes. */
  function ValueOf(s: string): (n: nat)
    requires AllDigits(s)
    ensures n < Pow10(|s|)
  {
    if s == [] then 0 else ValueOf(s[..|s| - 1]) * 10 + DigitValue(s[|s| - 1])
  }

  /** Reading the digits back gives the number, when it fits in `w` digits. */
  lemma {:induction false} ValueOfFixed(n: nat, w: nat)
    requires n < Pow10(w)
    ensures ValueOf(Fixed(n, w)) == n
  {
    if w > 0 {
      var s := Fixed(n, w);
      assert s[..|s| - 1] == Fixed(n / 10, w - 1);
      assert n / 10 < Pow10(w - 1);
      ValueOfFixed(n / 10, w - 1);
    }
  }

  /** The number of digits `ToString` prints for a natural number. */
  function NumDigits(n: nat): (w: nat)
    ensures 1 <= w && n < Pow10(w)
    ensures w > 1 ==> Pow10(w - 1) <= n
  {
    if n < 10 then 1 else 1 + NumDigits(n / 10)
  }

  /** `int.ToString()`: a '-' for negative numbers, then the digits without
      leading zeros. */
  function IntToString(i: int): (s: string)
    ensures |s| >= 1
    ensures i >= 0 <==> s[0] != '-'
  {
    if i < 0 then "-" + Fixed(-i, NumDigits(-i)) else Fixed(i, NumDigits(i))
  }

  /** `int.Parse` restricted to an optional '-' and decimal digits. */
  function ParseInt(s: string): (r: Result<int, Error>)
    ensures r.Ok? ==> Int32Min <= r.value <= Int32Max
    ensures s == [] ==> r == Err(FormatError)
  {
    var negative := |s| > 0 && s[0] == '-';
    var digits := if negative then s[1..] else s;
    if digits == [] || !AllDigits(digits) then Err(FormatError)
    else
      var v: int := if negative then 0 - ValueOf(digits) as int else ValueOf(digits);
      if v < Int32Min || Int32Max < v then Err(OverflowError) else Ok(v)
  }

  /** A plain digit string parses to its value when the value fits. */
  lemma ParseDigits(d: string)
    requires d != [] && AllDigits(d) && ValueOf(d) <= Int32Max
    ensures ParseInt(d) == Ok(ValueOf(d))
  {
    assert d[0] != '-';
  }

  /** A '-' followed by digits parses to the negated value when it fits. */
  lemma ParseNegatedDigits(d: string)
    requires d != [] && AllDigits(d) && ValueOf(d) <= -Int32Min
    ensures ParseInt("-" + d) == Ok(0 - ValueOf(d) as int)
  {
    var s := "-" + d;
    assert s[0] == '-' && s[1..] == d;
  }

  /** Every 32-bit integer survives printing and parsing. */
  lemma ParseIntOfIntToString(i: int)
    requires Int32Min <= i <= Int32Max
    ensures ParseInt(IntToString(i)) == Ok(i)
  {
    if i < 0 {
      var n: nat := -i;
      var d := Fixed(n, NumDigits(n));
      ValueOfFixed(n, NumDigits(n));
      ParseNegatedDigits(d);
      assert IntToString(i) == "-" + d;
    } else {
      var d := Fixed(i, NumDigits(i));
      ValueOfFixed(i, NumDigits(i));
      ParseDigits(d);
      assert IntToString(i) == d;
    }
  }
}
