/** Decimal numerals as ASCII octets, as `{}` prints them and `str::parse` reads them. */
module Decimal {
  import opened Bytes

  predicate IsDigit(b: byte) { 48 <= b <= 57 }

  predicate AllDigits(s: seq<byte>) {
    forall i :: 0 <= i < |s| ==> IsDigit(s[i])
  }

  /** The shortest numeral of `n`. */
  function Digits(n: nat): (r: seq<byte>)
    ensures r != [] && AllDigits(r)
  {
    if n < 10 then [48 + n] else Digits(n / 10) + [48 + n % 10]
  }

  /** The number a digit string denotes. */
  function Value(s: seq<byte>): (r: nat)
    requires AllDigits(s)
  {
    if s == [] then 0 else Value(s[..|s| - 1]) * 10 + (s[|s| - 1] as int - 48)
  }

  lemma ValueSnoc(s: seq<byte>, d: nat)
    requires AllDigits(s) && d < 10
    ensures AllDigits(s + [48 + d]) && Value(s + [48 + d]) == Value(s) * 10 + d
  {
    var t := s + [48 + d];
    assert t[..|t| - 1] == s;
  }

  lemma {:induction false} ValueOfDigits(n: nat)
    ensures Value(Digits(n)) == n
  {
    if n < 10 {
      assert [48 + n][..0] == [];
    } else {
      ValueOfDigits(n / 10);
      ValueSnoc(Digits(n / 10), n % 10);
    }
  }
}
