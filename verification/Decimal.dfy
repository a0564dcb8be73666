/** Decimal numbers as printf("%d") writes them and strtol reads them. */
module Decimal {

  function Digit(d: nat): char
    requires d < 10
  {
    '0' + d as char
  }

  predicate IsDigit(c: char)
  {
    '0' <= c <= '9'
  }

  function DigitValue(c: char): nat
  {
    if IsDigit(c) then c as int - '0' as int else 0
  }

  function Digits(n: nat): string
  {
    if n < 10 then [Digit(n)] else Digits(n / 10) + [Digit(n % 10)]
  }

  /** `%d` */
  function Print(n: int): string
  {
    if n < 0 then "-" + Digits(-n) else Digits(n)
  }

  /** The number of leading digits. */
  function DigitRun(s: string): (k: nat)
    ensures k <= |s|
  {
    if s == "" || !IsDigit(s[0]) then 0 else 1 + DigitRun(s[1..])
  }

  function ValueOf(s: string): nat
  {
    if s == "" then 0 else 10 * ValueOf(s[..|s| - 1]) + DigitValue(s[|s| - 1])
  }

  /**
   swlib_atoi on a text without leading white space: the value of the digits after an optional '-', and an
   error when there are none.
   */
  function Atoi(s: string): (int, bool)
  {
    var neg := s != "" && s[0] == '-';
    var t := if neg then s[1..] else s;
    var k := DigitRun(t);
    var v: int := ValueOf(t[..k]);
    (if neg then -v else v, k == 0)
  }

  lemma {:induction false} DigitsFacts(n: nat)
    ensures ValueOf(Digits(n)) == n
    ensures Digits(n) != "" && AllDigits(Digits(n))
  {
    if n >= 10 {
      DigitsFacts(n / 10);
      var s := Digits(n);
      assert s[..|s| - 1] == Digits(n / 10);
    } else {
      assert Digits(n)[..0] == "";
    }
  }

  predicate AllDigits(s: string)
  {
    forall i :: 0 <= i < |s| ==> IsDigit(s[i])
  }

  lemma {:induction false} DigitRunAll(s: string)
    requires AllDigits(s)
    ensures DigitRun(s) == |s|
  {
    if s == "" {
    } else {
      DigitRunAll(s[1..]);
    }
  }

  /** Reading what was printed gives the number back, without an error. */
  lemma PrintAtoi(n: int)
    ensures Atoi(Print(n)) == (n, false)
  {
    var m: nat := if n < 0 then -n else n;
    DigitsFacts(m);
    var s := Digits(m);
    DigitRunAll(s);
    assert s[..|s|] == s;
    if n < 0 {
      assert Print(n)[1..] == s;
    }
  }
}
