/** Positional numerals, most significant digit first, and the two size
    estimates base58.go sizes its conversion buffers with. */
module Radix {
  function Pow(b: nat, e: nat): nat {
    if e == 0 then 1 else b * Pow(b, e - 1)
  }

  ghost predicate Digits(ds: seq<nat>, base: nat) {
    forall i :: 0 <= i < |ds| ==> ds[i] < base
  }

  /** The number a big-endian digit string denotes. */
  function Value(ds: seq<nat>, base: nat): nat {
    if ds == [] then 0 else Value(ds[..|ds| - 1], base) * base + ds[|ds| - 1]
  }

  /** The digits of n without leading zeros; zero has none. */
  function Numeral(n: nat, base: nat): seq<nat>
    requires base >= 2
  {
    if n == 0 then [] else Numeral(n / base, base) + [n % base]
  }

  function Zeros(n: nat): seq<nat> {
    seq(n, _ => 0)
  }

  // --- Powers -------------------------------------------------------------------

  lemma {:induction false} PowAdd(b: nat, x: nat, y: nat)
    ensures Pow(b, x + y) == Pow(b, x) * Pow(b, y)
    decreases y
  {
    if y > 0 {
      PowAdd(b, x, y - 1);
      assert Pow(b, x + y) == b * (Pow(b, x) * Pow(b, y - 1));
    }
  }

  lemma {:induction false} PowPositive(b: nat, e: nat)
    requires b > 0
    ensures Pow(b, e) > 0
  {
    if e > 0 {
      PowPositive(b, e - 1);
    }
  }

  lemma {:induction false} PowMonotonic(b: nat, x: nat, y: nat)
    requires b > 0 && x <= y
    ensures Pow(b, x) <= Pow(b, y)
    decreases y
  {
    if x < y {
      PowMonotonic(b, x, y - 1);
      Grows(b, Pow(b, y - 1));
    }
  }

  lemma Grows(b: nat, p: nat)
    requires b > 0
    ensures p <= b * p
  {}

  lemma MulMonotonic(a: nat, b: nat, c: nat, d: nat)
    requires a <= c && b <= d
    ensures a * b <= c * d
  {
    assert a * b <= c * b;
    assert c * b <= c * d;
  }

  /** If b^x <= c^y and b^u <= c^v then b^(x+u) <= c^(y+v). */
  lemma PowProduct(b: nat, x: nat, u: nat, c: nat, y: nat, v: nat)
    requires Pow(b, x) <= Pow(c, y) && Pow(b, u) <= Pow(c, v)
    ensures Pow(b, x + u) <= Pow(c, y + v)
  {
    PowAdd(b, x, u);
    PowAdd(c, y, v);
    MulMonotonic(Pow(b, x), Pow(b, u), Pow(c, y), Pow(c, v));
  }

  /** If b^x <= c^y then so it is for their q-th powers. */
  lemma {:induction false} PowTimes(b: nat, x: nat, c: nat, y: nat, q: nat)
    requires Pow(b, x) <= Pow(c, y)
    ensures Pow(b, x * q) <= Pow(c, y * q)
    decreases q
  {
    if q > 0 {
      PowTimes(b, x, c, y, q - 1);
      PowProduct(b, x * (q - 1), x, c, y * (q - 1), y);
      assert x * (q - 1) + x == x * q && y * (q - 1) + y == y * q;
    } else {
      assert x * q == 0 && y * q == 0;
    }
  }

  lemma MulLess(a: nat, b: nat, c: nat, d: nat)
    requires a <= c && b < d && c > 0
    ensures a * b < c * d
  {
    MulMonotonic(a, b, c, b);
  }

  lemma PowStep(b: nat, x: nat, q: nat)
    ensures Pow(b, x * (q + 1)) == Pow(b, x * q) * Pow(b, x)
  {
    assert x * (q + 1) == x * q + x;
    PowAdd(b, x * q, x);
  }

  lemma PowTimesLess(b: nat, x: nat, c: nat, y: nat, q: nat)
    requires c > 0 && Pow(b, x) < Pow(c, y)
    ensures Pow(b, x * (q + 1)) < Pow(c, y * (q + 1))
  {
    PowTimes(b, x, c, y, q);
    PowStep(b, x, q);
    PowStep(c, y, q);
    PowPositive(c, y * q);
    MulLess(Pow(b, x * q), Pow(b, x), Pow(c, y * q), Pow(c, y));
  }

  // --- Numerals -----------------------------------------------------------------

  lemma {:induction false} ValueBound(ds: seq<nat>, base: nat)
    requires base > 0 && Digits(ds, base)
    ensures Value(ds, base) < Pow(base, |ds|)
  {
    if ds != [] {
      var v := Value(ds[..|ds| - 1], base);
      ValueBound(ds[..|ds| - 1], base);
      MulMonotonic(v + 1, base, Pow(base, |ds| - 1), base);
      assert (v + 1) * base == v * base + base;
    }
  }

  lemma ValueSnoc(ds: seq<nat>, d: nat, base: nat)
    ensures Value(ds + [d], base) == base * Value(ds, base) + d
  {
    assert (ds + [d])[..|ds|] == ds;
  }

  lemma Shifted(d: nat, p: nat, v: nat, base: nat)
    ensures (d * p + v) * base == d * (base * p) + v * base
  {}

  /** The leading digit weighs base^(length - 1). */
  lemma {:induction false} ValueFront(d: nat, ds: seq<nat>, base: nat)
    ensures Value([d] + ds, base) == d * Pow(base, |ds|) + Value(ds, base)
  {
    if ds == [] {
      assert ([d] + ds)[..0] == [];
    } else {
      var k := |ds| - 1;
      ValueFront(d, ds[..k], base);
      assert ([d] + ds)[..k + 1] == [d] + ds[..k];
      Shifted(d, Pow(base, k), Value(ds[..k], base), base);
      assert Pow(base, k + 1) == base * Pow(base, k);
    }
  }

  lemma {:induction false} ValueLeadingZeros(n: nat, ds: seq<nat>, base: nat)
    ensures Value(Zeros(n) + ds, base) == Value(ds, base)
  {
    if n == 0 {
      assert Zeros(0) + ds == ds;
    } else {
      ValueLeadingZeros(n - 1, ds, base);
      assert Zeros(n) + ds == [0] + (Zeros(n - 1) + ds);
      ValueFront(0, Zeros(n - 1) + ds, base);
    }
  }

  lemma DivLess(n: nat, base: nat)
    requires base >= 2 && n > 0
    ensures n / base < n && n == n / base * base + n % base
  {}

  lemma {:induction false} NumeralValue(n: nat, base: nat)
    requires base >= 2
    ensures Value(Numeral(n, base), base) == n
    ensures Digits(Numeral(n, base), base)
    ensures n > 0 ==> Numeral(n, base) != [] && Numeral(n, base)[0] != 0
  {
    if n > 0 {
      DivLess(n, base);
      NumeralValue(n / base, base);
      var ds := Numeral(n / base, base);
      assert (ds + [n % base])[..|ds|] == ds;
    }
  }

  lemma DivModUnique(q: nat, r: nat, base: nat)
    requires r < base
    ensures (q * base + r) / base == q && (q * base + r) % base == r
  {
    var n := q * base + r;
    var d := n / base;
    assert n == d * base + n % base;
    if d < q {
      MulMonotonic(d + 1, base, q, base);
    } else if d > q {
      MulMonotonic(q + 1, base, d, base);
    }
  }

  /** A digit string without leading zeros is the numeral of its value. */
  lemma {:induction false} ValueNumeral(ds: seq<nat>, base: nat)
    requires base >= 2 && Digits(ds, base) && (ds != [] ==> ds[0] != 0)
    ensures Numeral(Value(ds, base), base) == ds
    ensures ds != [] ==> Value(ds, base) > 0
  {
    if ds != [] {
      var k := |ds| - 1;
      ValueNumeral(ds[..k], base);
      var q := Value(ds[..k], base);
      DivModUnique(q, ds[k], base);
      if k > 0 {
        MulMonotonic(1, base, q, base);
      }
      assert ds == ds[..k] + [ds[k]];
    }
  }

  // --- Buffer sizes -------------------------------------------------------------

  lemma RoundUp(n: nat, m: nat, d: nat)
    requires d > 0
    ensures n * m <= (n * m / d + 1) * d
  {
    var a := n * m;
    assert a == a / d * d + a % d;
  }

  /** If d digits of base b fit in m digits of base c, then n of them fit in
      n*m/d + 1, however many there are. */
  lemma SizeEstimate(b: nat, d: nat, c: nat, m: nat, n: nat)
    requires b > 0 && c > 0 && d > 0 && Pow(b, d) <= Pow(c, m)
    ensures Pow(b, n) <= Pow(c, n * m / d + 1)
  {
    var size := n * m / d + 1;
    PowTimes(b, d, c, m, n);
    RoundUp(n, m, d);
    assert m * n == n * m && d * n == n * d;
    PowMonotonic(c, n * m, size * d);
    if Pow(c, size) < Pow(b, n) {
      PowTimesLess(c, size, b, n, d - 1);
    }
  }

  lemma HundredBytes()
    ensures Pow(256, 100) <= Pow(58, 138)
  {
    assert Pow(256, 8) <= Pow(58, 11);
    PowTimes(256, 8, 58, 11, 12);
    assert Pow(256, 4) <= Pow(58, 6);
    PowProduct(256, 96, 4, 58, 132, 6);
  }

  /** n bytes fit in n*138/100 + 1 base-58 digits. */
  lemma EncodeBufferFits(n: nat)
    ensures Pow(256, n) <= Pow(58, n * 138 / 100 + 1)
  {
    HundredBytes();
    SizeEstimate(256, 100, 58, 138, n);
  }

  /** 58^71 and 256^52 differ by six percent, so this one is computed outright. */
  lemma SeventyOneInFiftyTwo()
    ensures Pow(58, 71) <= Pow(256, 52)
  {
    assert Pow(58, 7) == 2207984167552;
    PowAdd(58, 7, 7);
    assert Pow(58, 14) == 4875194084160298409672704;
    PowAdd(58, 14, 14);
    PowAdd(58, 28, 7);
    assert Pow(58, 35) == 52478302028992644968172978478148648556151605660894866578604032;
    PowAdd(58, 35, 35);
    PowAdd(58, 70, 1);
    assert Pow(256, 13) == 20282409603651670423947251286016;
    PowAdd(256, 13, 13);
    PowAdd(256, 26, 26);
  }

  lemma ThousandDigits()
    ensures Pow(58, 1000) <= Pow(256, 733)
  {
    SeventyOneInFiftyTwo();
    PowTimes(58, 71, 256, 52, 14);
    assert Pow(58, 6) <= Pow(256, 5);
    PowProduct(58, 994, 6, 256, 728, 5);
  }

  /** n base-58 digits fit in n*733/1000 + 1 bytes. */
  lemma DecodeBufferFits(n: nat)
    ensures Pow(58, n) <= Pow(256, n * 733 / 1000 + 1)
  {
    ThousandDigits();
    SizeEstimate(58, 1000, 256, 733, n);
  }
}
