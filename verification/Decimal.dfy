/** Decimal text of integers, as Python's str() and C's %d print it and Python's int() reads it back. */
module Decimal {

  function Digits(n: nat): (s: string)
    ensures s != ""
    ensures forall c :: c in s ==> '0' <= c <= '9'
  {
    if n < 10 then [DigitChar(n)] else Digits(n / 10) + [DigitChar(n % 10)]
  }

  function DigitChar(d: nat): (c: char)
    requires d < 10
    ensures '0' <= c <= '9' && DigitValue(c) == d
  {
    "0123456789"[d]
  }

  function DigitValue(c: char): nat {
    if '0' <= c <= '9' then c as int - '0' as int else 0
  }

  function DigitsValue(s: string): nat {
    if s == "" then 0 else DigitsValue(s[..|s| - 1]) * 10 + DigitValue(s[|s| - 1])
  }

  function ToString(n: int): (s: string)
    ensures s != "" && '.' !in s
    ensures n >= 0 ==> s == Digits(n)
  {
    if n < 0 then "-" + Digits(-n) else Digits(n)
  }

  function Parse(s: string): int {
    if s != "" && s[0] == '-' then -(DigitsValue(s[1..]) as int) else DigitsValue(s)
  }

  lemma OneDigit(d: nat)
    requires d < 10
    ensures ToString(d) == [('0' as int + d) as char]
  {
    var c: int := DigitChar(d) as int;
    assert c == '0' as int + d;
  }

  // The characters of a text are its digits from the most significant on, after a minus sign if negative.
  lemma DecimalText(n: nat, d: nat)
    requires n > 0 && d < 10
    ensures ToString(10 * n + d) == ToString(n) + [('0' as int + d) as char]
    ensures ToString(-(n as int)) == "-" + ToString(n)
  {
    OneDigit(d);
    var m := 10 * n + d;
    assert m / 10 == n && m % 10 == d;
  }

  lemma {:induction false} DigitsValueDigits(n: nat)
    ensures DigitsValue(Digits(n)) == n
  {
    if n >= 10 {
      DigitsValueDigits(n / 10);
      assert Digits(n)[..|Digits(n)| - 1] == Digits(n / 10);
    } else {
      assert [DigitChar(n)][..0] == "";
    }
  }

  lemma ParseToString(n: int)
    ensures Parse(ToString(n)) == n
  {
    if n < 0 {
      DigitsValueDigits(-n);
      assert ToString(n)[1..] == Digits(-n);
    } else {
      DigitsValueDigits(n);
      assert Digits(n)[0] in Digits(n);
    }
  }

  lemma ToStringInjective(m: int, n: int)
    requires ToString(m) == ToString(n)
    ensures m == n
  {
    ParseToString(m);
    ParseToString(n);
  }
}
