/** Integers in decimal, as `str` writes them.

    Reading the digits back gives the number, which is what makes two numbers
    written alike the same number. */
module Decimals {

  function Digit(d: nat): (c: char)
    requires d < 10
    ensures '0' <= c <= '9' && c as int - '0' as int == d
  {
    ('0' as int + d) as char
  }

  function Digits(n: nat): (s: string)
    ensures s != ""
  {
    (if n < 10 then "" else Digits(n / 10)) + [Digit(n % 10)]
  }

  function Decimal(n: int): string
  {
    if n < 0 then "-" + Digits(-n) else Digits(n)
  }

  function Number(s: string): int
  {
    if s == "" then 0 else Number(s[..|s| - 1]) * 10 + (s[|s| - 1] as int - '0' as int)
  }

  function Signed(s: string): int
  {
    if s != "" && s[0] == '-' then -Number(s[1..]) else Number(s)
  }

  lemma OneDigitMore(s: string, d: nat)
    requires d < 10
    ensures Number(s + [Digit(d)]) == Number(s) * 10 + d
  {
    assert (s + [Digit(d)])[..|s|] == s;
  }

  lemma DigitsByTen(n: nat)
    ensures Digits(n) == (if n < 10 then "" else Digits(n / 10)) + [Digit(n % 10)]
    ensures n == (if n < 10 then 0 else n / 10) * 10 + n % 10
  {
  }

  lemma {:induction false} DigitsAreDigits(n: nat)
    ensures forall i :: 0 <= i < |Digits(n)| ==> '0' <= Digits(n)[i] <= '9'
  {
    if n >= 10 {
      DigitsAreDigits(n / 10);
    }
  }

  lemma {:induction false} DigitsAreRead(n: nat)
    ensures Number(Digits(n)) == n
  {
    DigitsByTen(n);
    var init := if n < 10 then "" else Digits(n / 10);
    if n >= 10 {
      DigitsAreRead(n / 10);
    }
    OneDigitMore(init, n % 10);
  }

  /** No sign and no slash among them. */
  lemma DigitsArePlain(n: nat)
    ensures '-' !in Digits(n) && '/' !in Digits(n) && Digits(n)[0] != '-'
  {
    DigitsAreDigits(n);
    assert Digits(n)[0] in Digits(n);
  }

  lemma SignIsRead(s: string)
    ensures Signed("-" + s) == -Number(s)
  {
    assert ("-" + s)[0] == '-' && ("-" + s)[1..] == s;
  }

  lemma DecimalIsRead(n: int)
    ensures '/' !in Decimal(n) && Signed(Decimal(n)) == n
    ensures Decimal(n) != "" && (Decimal(n)[0] == '-' <==> n < 0)
  {
    var m: nat := if n < 0 then -n else n;
    DigitsAreRead(m);
    DigitsArePlain(m);
    SignIsRead(Digits(m));
  }
}
