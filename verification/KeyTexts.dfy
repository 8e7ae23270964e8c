/** The texts of src/server/base58.go and src/server/did.go, with the alphabet and
    the multicodec prefix written out. */
module KeyTexts {
  import opened Wrappers
  import opened Radix
  import opened Base58
  import opened DidKey

  // --- Base 58 --------------------------------------------------------------------------

  /** The digit a character stands for: digits, upper-case and lower-case letters
      in order, without 0, I, O and l. */
  function DigitFor(c: char): Option<nat> {
    if '1' <= c <= '9' then Some((c - '1') as nat)
    else if 'A' <= c <= 'H' then Some((c - 'A') as nat + 9)
    else if 'J' <= c <= 'N' then Some((c - 'J') as nat + 17)
    else if 'P' <= c <= 'Z' then Some((c - 'P') as nat + 22)
    else if 'a' <= c <= 'k' then Some((c - 'a') as nat + 33)
    else if 'm' <= c <= 'z' then Some((c - 'm') as nat + 44)
    else None
  }

  lemma DigitForIs(d: nat)
    requires d < 58
    ensures |ALPHABET| == 58 && DigitFor(ALPHABET[d]) == Some(d)
  {
    AlphabetAt(d);
  }

  lemma AlphabetFor(c: char)
    requires DigitFor(c).Some?
    ensures DigitFor(c).value < 58 && |ALPHABET| == 58 && ALPHABET[DigitFor(c).value] == c
  {
    AlphabetAt(DigitFor(c).value);
  }

  lemma DigitIs(c: char)
    ensures DigitOf(c) == DigitFor(c)
  {
    DigitRange(c, 0);
    if DigitFor(c).Some? {
      AlphabetFor(c);
      FindSpelled(DigitFor(c).value, 0);
    } else if DigitOf(c).Some? {
      AlphabetAt(0);
      DigitForIs(DigitOf(c).value);
    }
  }

  function Power(base: nat, e: nat): nat {
    if e == 0 then 1 else base * Power(base, e - 1)
  }

  /** The number digits denote: each weighs the base to the number of digits after it. */
  function Weighed(ds: seq<nat>, base: nat): nat {
    if ds == [] then 0 else ds[0] * Power(base, |ds| - 1) + Weighed(ds[1..], base)
  }

  lemma {:induction false} PowerIs(base: nat, e: nat)
    ensures Power(base, e) == Pow(base, e)
  {
    if e > 0 {
      PowerIs(base, e - 1);
    }
  }

  lemma {:induction false} WeighedIs(ds: seq<nat>, base: nat)
    ensures Weighed(ds, base) == Value(ds, base)
  {
    if ds != [] {
      WeighedIs(ds[1..], base);
      PowerIs(base, |ds| - 1);
      ValueFront(ds[0], ds[1..], base);
      assert ds == [ds[0]] + ds[1..];
    }
  }

  /** The digits a text of the alphabet spells. */
  function DigitsFor(s: string): seq<nat> {
    seq(|s|, i requires 0 <= i < |s| => if DigitFor(s[i]).Some? then DigitFor(s[i]).value else 0)
  }

  /** The text has a '1' for each leading zero byte, and then the base-58 numeral
      of the bytes' number, which has no leading '1'. */
  ghost predicate Writes(b: seq<octet>, s: string, zeros: nat) {
    && zeros <= |b| && zeros <= |s|
    && (forall i :: 0 <= i < zeros ==> b[i] == 0 && s[i] == '1')
    && (zeros < |b| ==> b[zeros] != 0) && (zeros < |s| ==> s[zeros] != '1')
    && (forall i :: 0 <= i < |s| ==> DigitFor(s[i]).Some?)
    && Weighed(DigitsFor(s), 58) == Weighed(b, 256)
  }

  /** The digits spelled are those that DigitsFor reads. */
  lemma SpelledDigits(ds: seq<nat>)
    requires Digits(ds, 58)
    ensures |Spell(ds)| == |ds| && DigitsFor(Spell(ds)) == ds
    ensures forall i :: 0 <= i < |ds| ==> DigitFor(Spell(ds)[i]) == Some(ds[i]) && (ds[i] == 0 <==> Spell(ds)[i] == '1')
  {
    forall i | 0 <= i < |ds|
      ensures DigitFor(Spell(ds)[i]) == Some(ds[i]) && (ds[i] == 0 <==> Spell(ds)[i] == '1')
    {
      DigitForIs(ds[i]);
      AlphabetAt(ds[i]);
    }
  }

  lemma ConvertedDigits(b: seq<octet>)
    ensures var ds, z := Convert(b, 256, 58), LeadingZeros(b);
            && Digits(ds, 58) && z <= |b| && z <= |ds| && Weighed(ds, 58) == Weighed(b, 256)
            && (forall i :: 0 <= i < z ==> b[i] == 0 && ds[i] == 0)
            && (z < |b| ==> b[z] != 0) && (z < |ds| ==> ds[z] != 0)
  {
    var v, z := Value(b, 256), LeadingZeros(b);
    NumeralValue(v, 58);
    ValueLeadingZeros(z, Numeral(v, 58), 58);
    WeighedIs(Convert(b, 256, 58), 58);
    WeighedIs(b, 256);
    assert forall i :: 0 <= i < z ==> b[i] == b[..z][i];
  }

  lemma EncodingIs(b: seq<octet>)
    ensures exists zeros :: Writes(b, Encode(b), zeros)
  {
    ConvertedDigits(b);
    SpelledDigits(Convert(b, 256, 58));
    assert Writes(b, Encode(b), LeadingZeros(b));
  }

  /** Decoding fails exactly at the first character that is not of the alphabet. */
  lemma DecodingFailsIff(s: string, i: nat)
    ensures Decode(s) == Failure(i) <==>
      i < |s| && DigitFor(s[i]).None? && forall j :: 0 <= j < i ==> DigitFor(s[j]).Some?
  {
    FirstBad(s, 0, i);
  }

  lemma {:induction false} FirstBad(s: string, from: nat, i: nat)
    requires from <= |s|
    ensures FirstInvalid(s, from) == Some(i) <==>
      from <= i < |s| && DigitFor(s[i]).None? && forall j :: from <= j < i ==> DigitFor(s[j]).Some?
    decreases |s| - from
  {
    if from < |s| {
      DigitIs(s[from]);
      FirstBad(s, from + 1, i);
    }
  }

  // --- did:key --------------------------------------------------------------------------

  /** A number in the range of a prefix p followed by k digits begins with p's digits. */
  lemma {:induction false} NumeralPrefix(v: nat, p: nat, base: nat, k: nat)
    requires base >= 2 && p > 0 && p * Pow(base, k) <= v < (p + 1) * Pow(base, k)
    ensures |Numeral(v, base)| == |Numeral(p, base)| + k && Numeral(p, base) <= Numeral(v, base)
    decreases k
  {
    if k > 0 {
      PrefixStep(v, p, base, Pow(base, k - 1));
      NumeralPrefix(v / base, p, base, k - 1);
    }
  }

  lemma DivAtLeast(v: nat, base: nat, x: nat)
    requires base > 0 && x * base <= v
    ensures x <= v / base
  {
    var q := v / base;
    assert v < q * base + base == (q + 1) * base;
    if q + 1 <= x {
      MulMonotonic(q + 1, base, x, base);
    }
  }

  lemma DivLess(v: nat, base: nat, x: nat)
    requires base > 0 && v < x * base
    ensures v / base < x
  {
    var q := v / base;
    assert q * base <= v;
    if x <= q {
      MulMonotonic(x, base, q, base);
    }
  }

  lemma PrefixStep(v: nat, p: nat, base: nat, m: nat)
    requires base >= 2 && p * (base * m) <= v < (p + 1) * (base * m)
    ensures p * m <= v / base < (p + 1) * m
  {
    assert p * (base * m) == p * m * base && (p + 1) * (base * m) == (p + 1) * m * base;
    DivAtLeast(v, base, p * m);
    DivLess(v, base, (p + 1) * m);
  }

  /** 0xed01 and 32 more bytes are 47 digits of base 58 that begin with 6Mk. */
  lemma MulticodecRange()
    ensures 18023 * Pow(58, 44) <= 0xed01 * Pow(256, 32)
    ensures 0xed02 * Pow(256, 32) <= 18024 * Pow(58, 44)
  {
    assert Pow(58, 11) == 24986644000165537792;
    PowAdd(58, 11, 11);
    assert Pow(58, 22) == 624332378391008467754527498760580235264;
    PowAdd(58, 22, 22);
    assert Pow(58, 44) == 389790918707373377135528568990913592653094657612049369038476873218241589149696;
    assert Pow(256, 8) == 18446744073709551616;
    PowAdd(256, 8, 8);
    assert Pow(256, 16) == 340282366920938463463374607431768211456;
    PowAdd(256, 16, 16);
    assert Pow(256, 32) == 115792089237316195423570985008687907853269984665640564039457584007913129639936;
  }

  lemma KeyNumber(pub: seq<octet>)
    requires |pub| == 32
    ensures 0xed01 * Pow(256, 32) <= Value([0xed, 0x01] + pub, 256) < 0xed02 * Pow(256, 32)
  {
    var tail := [0x01] + pub;
    ValueFront(0xed, tail, 256);
    ValueFront(0x01, pub, 256);
    ValueBound(pub, 256);
    assert [0xed, 0x01] + pub == [0xed] + tail;
    assert Pow(256, 33) == 256 * Pow(256, 32);
  }

  lemma FirstDigits()
    ensures Numeral(18023, 58) == [5, 20, 43]
  {
    assert 18023 / 58 == 310 && 18023 % 58 == 43 && 310 / 58 == 5 && 310 % 58 == 20;
    assert Numeral(5, 58) == [5];
    assert Numeral(310, 58) == [5, 20];
  }

  /** The identifier of every 32-byte key is 56 characters that begin with did:key:z6Mk. */
  lemma IdentifierText(pub: seq<octet>)
    requires |pub| == 32
    ensures DIDKeyFromEd25519(pub).Success?
    ensures var did := DIDKeyFromEd25519(pub).value; |did| == 56 && "did:key:z6Mk" <= did
  {
    var data: seq<octet> := [0xed, 0x01] + pub;
    var v := Value(data, 256);
    MulticodecRange();
    KeyNumber(pub);
    NumeralPrefix(v, 18023, 58, 44);
    FirstDigits();
    var ds := Numeral(v, 58);
    assert Convert(data, 256, 58) == ds by {
      assert LeadingZeros(data) == 0;
      assert Zeros(0) + ds == ds;
    }
    ConvertDigits(data, 256, 58);
    assert ds[0] == 5 && ds[1] == 20 && ds[2] == 43;
    AlphabetAt(5);
    AlphabetAt(20);
    AlphabetAt(43);
    assert Encode(data) == Spell(ds);
    SpelledPrefix(ds);
    assert DIDKeyFromEd25519(pub).value == "did:key:z" + Spell(ds);
  }

  lemma SpelledPrefix(ds: seq<nat>)
    requires Digits(ds, 58) && |ds| >= 3 && ds[0] == 5 && ds[1] == 20 && ds[2] == 43
    ensures "did:key:z6Mk" <= "did:key:z" + Spell(ds)
  {
    AlphabetAt(5);
    AlphabetAt(20);
    AlphabetAt(43);
    var s := Spell(ds);
    assert s[0] == '6' && s[1] == 'M' && s[2] == 'k';
    assert "did:key:z6Mk" == "did:key:z" + "6Mk";
    assert s[..3] == "6Mk";
  }
}
