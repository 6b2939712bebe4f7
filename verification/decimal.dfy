/** Decimal rendering and parsing of Swift's 64-bit `Int`: string
    interpolation `"\(n)"` and the failable initialiser `Int(_: String)`. Both
    are used to build coding keys from integers and integers from keys. */
module Decimal {
  import opened Optionals

  const IntMin: int := -0x8000_0000_0000_0000
  const IntMax: int := 0x7FFF_FFFF_FFFF_FFFF

  /** Values representable by Swift's `Int` on a 64-bit platform. */
  predicate InIntRange(n: int) {
    IntMin <= n <= IntMax
  }

  predicate IsDigit(c: char) {
    '0' <= c <= '9'
  }

  predicate AllDigits(s: string) {
    forall i :: 0 <= i < |s| ==> IsDigit(s[i])
  }

  function DigitChar(d: int): (c: char)
    requires 0 <= d < 10
    ensures IsDigit(c)
  {
    ('0' as int + d) as char
  }

  function DigitValue(c: char): (d: int)
    requires IsDigit(c)
    ensures 0 <= d < 10
  {
    c as int - '0' as int
  }

  /** Decimal digits of `n`, most significant first, without leading zeros. */
  function Digits(n: nat): (s: string)
    ensures |s| > 0
    ensures AllDigits(s)
    ensures n > 0 ==> s[0] != '0'
  {
    if n < 10 then [DigitChar(n)] else Digits(n / 10) + [DigitChar(n % 10)]
  }

  /** The number a non-empty run of decimal digits denotes. */
  function ValueOf(s: string): nat
    requires AllDigits(s)
  {
    if |s| == 0 then 0 else 10 * ValueOf(s[..|s| - 1]) + DigitValue(s[|s| - 1])
  }

  lemma {:induction false} ValueOfDigits(n: nat)
    ensures ValueOf(Digits(n)) == n
  {
    if n >= 10 {
      ValueOfDigits(n / 10);
      var s := Digits(n);
      assert s[..|s| - 1] == Digits(n / 10);
      assert DigitValue(s[|s| - 1]) == n % 10;
    }
  }

  /** `"\(n)"`: an optional minus sign followed by the digits of |n|. */
  function DecimalString(n: int): (s: string)
    ensures |s| > 0
    ensures n >= 0 <==> IsDigit(s[0])
    ensures n < 0 <==> s[0] == '-'
  {
    if n < 0 then "-" + Digits(-n) else Digits(n)
  }

  function Bounded(n: int): (r: Option<int>)
    ensures r.Some? <==> InIntRange(n)
    ensures r.Some? ==> r.value == n
  {
    if InIntRange(n) then Some(n) else None
  }

  /** `Int(s)`: an optional `+` or `-` followed by at least one ASCII digit
      and nothing else; `nil` when the text is malformed or the value does
      not fit in 64 bits. */
  function ParseInt(s: string): (r: Option<int>)
    ensures r.Some? ==> InIntRange(r.value)
    ensures |s| == 0 ==> r.None?
    ensures r.Some? ==> IsDigit(s[0]) || s[0] == '-' || s[0] == '+'
    ensures r.Some? ==> forall i :: 1 <= i < |s| ==> IsDigit(s[i])
    ensures |s| > 0 && AllDigits(s) ==> (r.Some? <==> ValueOf(s) <= IntMax)
    ensures |s| > 0 && AllDigits(s) && r.Some? ==> r.value == ValueOf(s)
    ensures |s| > 1 && (s[0] == '-' || s[0] == '+') && AllDigits(s[1..])
            ==> r == Bounded(if s[0] == '-' then 0 - (ValueOf(s[1..]) as int) else ValueOf(s[1..]) as int)
  {
    if |s| > 0 && (s[0] == '-' || s[0] == '+') then
      var body := s[1..];
      if |body| > 0 && AllDigits(body) then
        var magnitude: int := ValueOf(body);
        Bounded(if s[0] == '-' then -magnitude else magnitude)
      else
        None
    else if |s| > 0 && AllDigits(s) then
      Bounded(ValueOf(s))
    else
      None
  }

  /** Parsing the interpolated form of an `Int` gives the `Int` back. */
  lemma ParseDecimalString(n: int)
    ensures InIntRange(n) ==> ParseInt(DecimalString(n)) == Some(n)
  {
    if !InIntRange(n) {
    } else if n < 0 {
      ValueOfDigits(-n);
      assert DecimalString(n)[1..] == Digits(-n);
    } else {
      ValueOfDigits(n);
    }
  }

  /** Distinct `Int`s interpolate to distinct strings. */
  lemma DecimalStringInjective(m: int, n: int)
    requires InIntRange(m) && InIntRange(n)
    requires DecimalString(m) == DecimalString(n)
    ensures m == n
  {
    ParseDecimalString(m);
    ParseDecimalString(n);
  }
}
