/** Decimal text of natural numbers, as strconv and BigInt write and read it. */
module Decimals {
  import Radix

  predicate IsDigit(c: char) {
    '0' <= c <= '9'
  }

  predicate AllDigits(s: string) {
    forall i :: 0 <= i < |s| ==> IsDigit(s[i])
  }

  function Digits(s: string): seq<nat>
    requires AllDigits(s)
  {
    seq(|s|, i requires 0 <= i < |s| => (s[i] - '0') as nat)
  }

  function Decimal(n: nat): string {
    if n == 0 then "0"
    else
      var ds := Radix.Numeral(n, 10);
      seq(|ds|, i requires 0 <= i < |ds| => if ds[i] < 10 then '0' + ds[i] as char else '0')
  }

  lemma DecimalDigits(n: nat)
    ensures AllDigits(Decimal(n)) && Decimal(n) != ""
    ensures Radix.Value(Digits(Decimal(n)), 10) == n
  {
    if n == 0 {
      assert Digits("0") == [0];
      assert Radix.Value([0], 10) == 0;
    } else {
      Radix.NumeralValue(n, 10);
      assert Digits(Decimal(n)) == Radix.Numeral(n, 10);
    }
  }
}
