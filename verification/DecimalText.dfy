/** Integers in decimal, as `std::to_string` and stream output write them. */
module DecimalText {

  function Digit(d: nat): char
    requires d < 10
  {
    "0123456789"[d]
  }

  function Digits(n: nat): string {
    if n < 10 then [Digit(n)] else Digits(n / 10) + [Digit(n % 10)]
  }

  /** `std::to_string`. */
  function Decimal(n: int): string {
    if n < 0 then "-" + Digits(-n) else Digits(n)
  }

  predicate IsDigit(c: char) { '0' <= c <= '9' }

  function ReadDigits(s: string, n: nat): (r: (nat, string))
    ensures |r.1| <= |s|
  {
    if s != "" && IsDigit(s[0]) then ReadDigits(s[1..], 10 * n + (s[0] as int - '0' as int)) else (n, s)
  }

  lemma {:induction false} DigitsAreDigits(n: nat)
    ensures Digits(n) != "" && forall i :: 0 <= i < |Digits(n)| ==> IsDigit(Digits(n)[i])
  {
    if n >= 10 { DigitsAreDigits(n / 10); }
  }

  lemma {:induction false} ReadPrintedDigits(n: nat, rest: string)
    ensures ReadDigits(Digits(n) + rest, 0) == ReadDigits(rest, n)
  {
    if n < 10 {
      DigitValue(n);
      assert (Digits(n) + rest)[1..] == rest;
      return;
    }
    var d, last := n % 10, [Digit(n % 10)];
    DigitValue(d);
    ReadPrintedDigits(n / 10, last + rest);
    assert Digits(n) == Digits(n / 10) + last && 10 * (n / 10) + d == n;
    hide Digits, Digit;
    assert (last + rest)[1..] == rest && (last + rest)[0] == Digit(d);
    assert ReadDigits(last + rest, n / 10) == ReadDigits(rest, n);
    hide ReadDigits;
    assert Digits(n) + rest == Digits(n / 10) + (last + rest);
  }

  lemma DigitValue(d: nat)
    requires d < 10
    ensures IsDigit(Digit(d)) && Digit(d) as int - '0' as int == d
  {}

  /** Different integers have different texts. */
  lemma DecimalInjective(m: int, n: int)
    requires Decimal(m) == Decimal(n)
    ensures m == n
  {
    var p, q := if m < 0 then -m else m, if n < 0 then -n else n;
    DigitsAreDigits(p);
    DigitsAreDigits(q);
    assert (m < 0) == (Decimal(m)[0] == '-') == (n < 0);
    assert m < 0 ==> Decimal(m)[1..] == Digits(p) && Decimal(n)[1..] == Digits(q);
    assert Digits(p) == Digits(q);
    ReadPrintedDigits(p, "");
    ReadPrintedDigits(q, "");
    assert Digits(p) + "" == Digits(p) && Digits(q) + "" == Digits(q);
  }

  /** A text holds nothing but digits and a sign. */
  lemma DecimalHolds(n: int, c: char)
    requires !IsDigit(c) && c != '-'
    ensures c !in Decimal(n)
  {
    DigitsAreDigits(if n < 0 then -n else n);
  }
}
