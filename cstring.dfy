/** The C library character and number conversions the shell relies on:
    `isnumber` on one character and `atoi` on a token. */
module CString {

  /** `isnumber(c)` for the characters a typed line can hold: a decimal digit. */
  predicate IsDigit(c: char): (b: bool)
    ensures b <==> c in "0123456789"
  {
    '0' <= c <= '9'
  }

  /** `isspace(c)`: space, or one of tab, newline, vertical tab, form feed,
      carriage return. */
  predicate IsSpace(c: char)
  {
    c == ' ' || '\t' <= c <= '\r'
  }

  /** Length of the run of digits that starts `s`. */
  function DigitRun(s: string): (n: nat)
    ensures n <= |s|
    ensures forall i :: 0 <= i < n ==> IsDigit(s[i])
    ensures n < |s| ==> !IsDigit(s[n])
  {
    if s != [] && IsDigit(s[0]) then 1 + DigitRun(s[1..]) else 0
  }

  /** The number a string of digits spells in base 10. */
  function DecimalValue(d: string): nat
    requires forall i :: 0 <= i < |d| ==> IsDigit(d[i])
  {
    if d == [] then 0
    else
      assert IsDigit(d[|d| - 1]);
      10 * DecimalValue(d[..|d| - 1]) + (d[|d| - 1] as int - '0' as int)
  }

  /** `atoi`: skip leading white space, read an optional sign, then the
      longest run of digits; no digits gives 0. The result is negative only
      when a minus sign was read, and a line that starts with a digit gives
      a number that is not negative. */
  function Atoi(s: string): (r: int)
    ensures r < 0 ==> '-' in s
    ensures s != [] && IsDigit(s[0]) ==> r >= 0
    ensures s != [] && !IsSpace(s[0]) && !IsDigit(s[0]) && s[0] !in "+-" ==> r == 0
  {
    if s != [] && IsSpace(s[0]) then Atoi(s[1..])
    else if s != [] && (s[0] == '-' || s[0] == '+') then
      var v: int := DecimalValue(s[1..][..DigitRun(s[1..])]);
      if s[0] == '-' then -v else v
    else DecimalValue(s[..DigitRun(s)])
  }

  /** The base-10 spelling of `n`, as `printf("%d")` writes it. */
  function Decimal(n: nat): (d: string)
    ensures d != [] && forall i :: 0 <= i < |d| ==> IsDigit(d[i])
  {
    var last := ['0' + ((n % 10) as char)];
    if n < 10 then last else Decimal(n / 10) + last
  }

  lemma {:induction false} DecimalValueOfDecimal(n: nat)
    ensures DecimalValue(Decimal(n)) == n
  {
    var d := Decimal(n);
    if n >= 10 {
      DecimalValueOfDecimal(n / 10);
      assert d[..|d| - 1] == Decimal(n / 10);
    }
  }

  /** `atoi` reads back every number written in base 10. */
  lemma AtoiOfDecimal(n: nat)
    ensures Atoi(Decimal(n)) == n
  {
    var d := Decimal(n);
    assert DigitRun(d) == |d|;
    assert d[..|d|] == d;
    DecimalValueOfDecimal(n);
  }
}
