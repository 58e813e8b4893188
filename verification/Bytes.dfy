/** Bytes, and the decimal digits that the wire formats share. */
module Bytes {

  type byte = b: int | 0 <= b < 256

  predicate IsDigit(b: byte) { 48 <= b <= 57 }

  predicate AllDigits(s: seq<byte>) { forall i :: 0 <= i < |s| ==> IsDigit(s[i]) }

  /** The number that a row of digits stands for. */
  function Value(s: seq<byte>): nat
    requires AllDigits(s)
  {
    if s == [] then 0 else Value(s[..|s| - 1]) * 10 + (s[|s| - 1] - 48)
  }

  /** The digits of n, most significant first; none for zero. */
  function Digits(n: nat): seq<byte> {
    if n == 0 then [] else Digits(n / 10) + [48 + n % 10]
  }

  /** The decimal text of n. */
  function Decimal(n: nat): seq<byte> {
    if n == 0 then [48] else Digits(n)
  }

  lemma {:induction false} DigitsValue(n: nat)
    ensures AllDigits(Digits(n)) && Value(Digits(n)) == n
    ensures n > 0 ==> Digits(n) != [] && Digits(n)[0] != 48
  {
    if n > 0 {
      DigitsValue(n / 10);
      var d := Digits(n);
      assert d[..|d| - 1] == Digits(n / 10);
    }
  }

  /** Printing and reading back is the identity. */
  lemma DecimalValue(n: nat)
    ensures Decimal(n) != [] && AllDigits(Decimal(n)) && Value(Decimal(n)) == n
    ensures Decimal(n)[0] == 48 ==> n == 0
  {
    DigitsValue(n);
    assert Value([48]) == 0 by {
      assert [48][..0] == [];
    }
  }

  /** Ten, and the most significant digit first. */
  lemma DecimalOrder()
    ensures Decimal(120) == [49, 50, 48] && Value([49, 50, 48]) == 120
  {
    assert Digits(1) == [49] && Digits(12) == [49, 50];
    DecimalValue(120);
  }

  const MINUS: byte := 45
  const PLUS: byte := 43

  /** The decimal text of an integer. */
  function IntText(n: int): seq<byte> {
    if n < 0 then [MINUS] + Decimal(-n) else Decimal(n)
  }

  /** Well-formed UTF-8, table 3-7 of the Unicode Standard. */
  predicate Utf8(s: seq<byte>) {
    if s == [] then true
    else if s[0] < 0x80 then Utf8(s[1..])
    else if 0xC2 <= s[0] <= 0xDF then |s| >= 2 && Tail(s[1]) && Utf8(s[2..])
    else if 0xE0 <= s[0] <= 0xEF then
      |s| >= 3 && Tail(s[1]) && Tail(s[2]) &&
      (s[0] == 0xE0 ==> s[1] >= 0xA0) && (s[0] == 0xED ==> s[1] < 0xA0) && Utf8(s[3..])
    else
      0xF0 <= s[0] <= 0xF4 && |s| >= 4 && Tail(s[1]) && Tail(s[2]) && Tail(s[3]) &&
      (s[0] == 0xF0 ==> s[1] >= 0x90) && (s[0] == 0xF4 ==> s[1] < 0x90) && Utf8(s[4..])
  }

  predicate Tail(b: byte) { 0x80 <= b <= 0xBF }
}
