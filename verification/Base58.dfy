/** base58btc (src/server/base58.go): radix conversion in place on a buffer
    whose size is a rational estimate of log 256 / log 58. */
module Base58 {
  import opened Wrappers
  import opened Radix

  type octet = x: nat | x < 256

  /** A Go string: a sequence of bytes, each written as the character of its code. */
  type bytestring = s: string | forall i :: 0 <= i < |s| ==> s[i] as int < 256

  /** The alphabet, by its runs of consecutive characters: no 0, I, O or l. */
  const ALPHABET: string := "123456789" + ("ABCDEFGH" + "JKLMN" + "PQRSTUVWXYZ") + ("abcdefghijk" + "mnopqrstuvwxyz")

  // --- The encoding, on values ------------------------------------------------

  /** The digit a character stands for: its first position in the alphabet. */
  function DigitOf(c: char): Option<nat> {
    FindFrom(c, 0)
  }

  function FindFrom(c: char, i: nat): Option<nat>
    requires i <= |ALPHABET|
    decreases |ALPHABET| - i, c
  {
    if i == |ALPHABET| then None
    else if ALPHABET[i] == c then Some(i)
    else FindFrom(c, i + 1)
  }

  ghost predicate IsBase58(s: string) {
    forall i :: 0 <= i < |s| ==> DigitOf(s[i]).Some?
  }

  function DigitsOf(s: string): seq<nat>
    requires IsBase58(s)
  {
    seq(|s|, i requires 0 <= i < |s| => DigitOf(s[i]).value)
  }

  function Spell(ds: seq<nat>): string
    requires Digits(ds, 58)
  {
    seq(|ds|, i requires 0 <= i < |ds| && ds[i] < 58 => ALPHABET[ds[i]])
  }

  function LeadingZeros(ds: seq<nat>): (n: nat)
    ensures n <= |ds| && ds[..n] == Zeros(n)
    ensures n < |ds| ==> ds[n] != 0
  {
    if ds == [] || ds[0] != 0 then 0
    else
      var n := 1 + LeadingZeros(ds[1..]);
      assert ds[..n] == [0] + ds[1..][..n - 1];
      n
  }

  /** The same number written in another base, with as many leading zero digits. */
  function Convert(ds: seq<nat>, from: nat, to: nat): seq<nat>
    requires to >= 2
  {
    Zeros(LeadingZeros(ds)) + Numeral(Value(ds, from), to)
  }

  function Encode(b: seq<octet>): string {
    NumeralValue(Value(b, 256), 58);
    Spell(Convert(b, 256, 58))
  }

  /** The first character outside the alphabet is reported by its offset. */
  function Decode(s: string): Result<seq<nat>, nat> {
    match FirstInvalid(s, 0)
    case Some(i) => Failure(i)
    case None => FirstInvalidNone(s, 0); Success(Convert(DigitsOf(s), 58, 256))
  }

  function FirstInvalid(s: string, i: nat): Option<nat>
    requires i <= |s|
    decreases |s| - i
  {
    if i == |s| then None
    else if DigitOf(s[i]).None? then Some(i)
    else FirstInvalid(s, i + 1)
  }

  // --- The alphabet -----------------------------------------------------------

  lemma {:induction false} DigitRange(c: char, i: nat)
    requires i <= |ALPHABET|
    ensures match FindFrom(c, i) case None => true case Some(d) => i <= d < |ALPHABET| && ALPHABET[d] == c
    decreases |ALPHABET| - i
  {
    if i < |ALPHABET| && ALPHABET[i] != c {
      DigitRange(c, i + 1);
    }
  }

  /** Character d of the alphabet, worked out from its run. */
  lemma AlphabetAt(d: nat)
    requires d < 58
    ensures |ALPHABET| == 58
    ensures ALPHABET[d] ==
            if d < 9 then '1' + d as char
            else if d < 17 then 'A' + (d - 9) as char
            else if d < 22 then 'J' + (d - 17) as char
            else if d < 33 then 'P' + (d - 22) as char
            else if d < 44 then 'a' + (d - 33) as char
            else 'm' + (d - 44) as char
  {}

  /** The alphabet's 58 characters are in strictly increasing code order. */
  lemma AlphabetSteps(i: nat)
    requires i + 1 < |ALPHABET|
    ensures ALPHABET[i] < ALPHABET[i + 1]
  {
    AlphabetAt(i);
    AlphabetAt(i + 1);
  }

  lemma {:induction false} AlphabetIncreasing(i: nat, j: nat)
    requires i < j < |ALPHABET|
    ensures ALPHABET[i] < ALPHABET[j]
    decreases j
  {
    AlphabetSteps(j - 1);
    if i < j - 1 {
      AlphabetIncreasing(i, j - 1);
    }
  }

  lemma {:induction false} FindSpelled(d: nat, i: nat)
    requires i <= d < |ALPHABET|
    ensures FindFrom(ALPHABET[d], i) == Some(d)
    decreases d - i
  {
    if i < d {
      AlphabetIncreasing(i, d);
      FindSpelled(d, i + 1);
    }
  }

  lemma {:induction false} FirstInvalidNone(s: string, i: nat)
    requires i <= |s| && FirstInvalid(s, i).None?
    ensures forall k :: i <= k < |s| ==> DigitOf(s[k]).Some?
    decreases |s| - i
  {
    if i < |s| {
      FirstInvalidNone(s, i + 1);
    }
  }

  lemma {:induction false} FirstInvalidSome(s: string, i: nat)
    requires i <= |s|
    ensures match FirstInvalid(s, i)
            case None => true
            case Some(k) => i <= k < |s| && DigitOf(s[k]).None?
    decreases |s| - i
  {
    if i < |s| {
      FirstInvalidSome(s, i + 1);
    }
  }

  lemma DigitsInRange(s: string)
    requires IsBase58(s)
    ensures Digits(DigitsOf(s), 58)
  {
    forall i: nat | i < |s|
      ensures DigitsOf(s)[i] < 58
    {
      DigitRange(s[i], 0);
    }
  }

  lemma SpellDigits(s: string)
    requires IsBase58(s)
    ensures Digits(DigitsOf(s), 58) && Spell(DigitsOf(s)) == s
  {
    DigitsInRange(s);
    forall i: nat | i < |s|
      ensures Spell(DigitsOf(s))[i] == s[i]
    {
      DigitRange(s[i], 0);
    }
  }

  lemma DigitsSpell(ds: seq<nat>)
    requires Digits(ds, 58)
    ensures IsBase58(Spell(ds)) && DigitsOf(Spell(ds)) == ds
  {
    var s := Spell(ds);
    forall i: nat | i < |s|
      ensures DigitOf(s[i]) == Some(ds[i])
    {
      FindSpelled(ds[i], 0);
    }
    forall i: nat | i < |s|
      ensures DigitsOf(s)[i] == ds[i]
    {
    }
  }

  // --- Round trips ------------------------------------------------------------

  lemma ConvertDigits(ds: seq<nat>, from: nat, to: nat)
    requires from >= 2 && to >= 2
    ensures Digits(Convert(ds, from, to), to)
  {
    NumeralValue(Value(ds, from), to);
  }

  lemma {:induction false} LeadingZerosUnique(ds: seq<nat>, n: nat)
    requires n <= |ds| && ds[..n] == Zeros(n)
    requires n < |ds| ==> ds[n] != 0
    ensures LeadingZeros(ds) == n
  {
    if n > 0 {
      assert ds[0] == ds[..n][0] == 0;
      assert ds[1..][..n - 1] == ds[..n][1..] == Zeros(n - 1);
      LeadingZerosUnique(ds[1..], n - 1);
    }
  }

  lemma LeadingZerosOf(n: nat, ds: seq<nat>)
    requires ds == [] || ds[0] != 0
    ensures LeadingZeros(Zeros(n) + ds) == n
  {
    var all := Zeros(n) + ds;
    assert all[..n] == Zeros(n);
    LeadingZerosUnique(all, n);
  }

  /** Converting to another base and back is the identity on digit strings. */
  lemma ConvertBack(ds: seq<nat>, from: nat, to: nat)
    requires from >= 2 && to >= 2 && Digits(ds, from)
    ensures Convert(Convert(ds, from, to), to, from) == ds
  {
    var z := LeadingZeros(ds);
    var rest := ds[z..];
    assert ds == Zeros(z) + rest;
    ValueLeadingZeros(z, rest, from);
    var v := Value(rest, from);
    NumeralValue(v, to);
    LeadingZerosOf(z, Numeral(v, to));
    ValueLeadingZeros(z, Numeral(v, to), to);
    ValueNumeral(rest, from);
  }

  /** base58Decode undoes base58Encode on every byte string. */
  lemma DecodeEncode(b: seq<octet>)
    ensures Decode(Encode(b)) == Success(b)
  {
    var ds := Convert(b, 256, 58);
    ConvertDigits(b, 256, 58);
    DigitsSpell(ds);
    FirstInvalidSome(Spell(ds), 0);
    ConvertBack(b, 256, 58);
  }

  /** base58Decode accepts exactly the alphabet strings, and base58Encode
      gives each of them back. */
  lemma EncodeDecode(s: string)
    ensures Decode(s).Success? <==> IsBase58(s)
    ensures Decode(s).Success? ==> Digits(Decode(s).value, 256) && Encode(Decode(s).value) == s
  {
    FirstInvalidSome(s, 0);
    if Decode(s).Success? {
      FirstInvalidNone(s, 0);
      var ds := DigitsOf(s);
      DigitsInRange(s);
      ConvertDigits(ds, 58, 256);
      ConvertBack(ds, 58, 256);
      SpellDigits(s);
    }
  }

  // --- The conversion in place ------------------------------------------------

  lemma CarryAlgebra(v: int, v': int, w: int, w': int, p: int, p': int, d: int, o: int, base: int, mul: int, c: int,
                     carry: int, carry': int)
    requires v + carry * p == mul * w + c
    requires v' == d * p + v && w' == o * p + w && p' == base * p
    requires carry' * base + d == carry + mul * o
    ensures v' + carry' * p' == mul * w' + c
  {
    assert (carry' * base + d) * p == carry' * (base * p) + d * p;
    assert (carry + mul * o) * p == carry * p + mul * (o * p);
    assert mul * (o * p + w) == mul * (o * p) + mul * w;
  }

  function Sum(carry: nat, mul: nat, o: nat): nat {
    carry + mul * o
  }

  lemma CarryDivides(sum: nat, base: nat)
    requires base >= 2
    ensures sum / base >= 0 && 0 <= sum % base < base && sum / base * base + sum % base == sum
  {}

  /** The digits from position j on, with the carry above them, are exactly
      mul times what they were, plus c. */
  ghost predicate Exact(now: seq<nat>, was: seq<nat>, j: nat, carry: nat, mul: nat, c: nat, base: nat)
    requires j <= |now| == |was|
  {
    Value(now[j..], base) + carry * Pow(base, |now| - j) == mul * Value(was[j..], base) + c
  }

  /** One turn of the carry loop, at position j. */
  lemma CarryStep(now: seq<nat>, was: seq<nat>, j: nat, d: nat, carry: nat, carry': nat, mul: nat, c: nat, base: nat)
    requires j < |now| == |was| && Exact(now, was, j + 1, carry, mul, c, base)
    requires carry' * base + d == carry + mul * was[j]
    ensures Exact(now[j := d], was, j, carry', mul, c, base)
  {
    var tail, wasTail := now[j + 1..], was[j + 1..];
    assert now[j := d][j..] == [d] + tail && was[j..] == [was[j]] + wasTail;
    ValueFront(d, tail, base);
    ValueFront(was[j], wasTail, base);
    CarryAlgebra(Value(tail, base), Value([d] + tail, base), Value(wasTail, base), Value([was[j]] + wasTail, base),
                 Pow(base, |tail|), Pow(base, |tail| + 1), d, was[j], base, mul, c, carry, carry');
  }

  /** The loop stopped with no carry and the digits left of position j zero. */
  lemma CarryDone(now: seq<nat>, was: seq<nat>, j: nat, mul: nat, c: nat, base: nat)
    requires j <= |now| == |was| && now[..j] == was[..j] == Zeros(j)
    requires Exact(now, was, j, 0, mul, c, base)
    ensures Value(now, base) == mul * Value(was, base) + c
  {
    assert now == Zeros(j) + now[j..] && was == Zeros(j) + was[j..];
    ValueLeadingZeros(j, now[j..], base);
    ValueLeadingZeros(j, was[j..], base);
  }

  /** When the product fits the buffer, nothing is carried out of its top. */
  lemma NoCarryOut(now: seq<nat>, was: seq<nat>, carry: nat, mul: nat, c: nat, base: nat)
    requires |now| == |was| && Exact(now, was, 0, carry, mul, c, base)
    requires mul * Value(was, base) + c < Pow(base, |now|)
    ensures carry == 0
  {
    assert now[0..] == now && was[0..] == was;
    if carry >= 1 {
      MulMonotonic(1, Pow(base, |now|), carry, Pow(base, |now|));
    }
  }

  /** The loop's state: the digits from j on are done, those before it are as they were. */
  ghost predicate Carrying(now: seq<nat>, was: seq<nat>, j: nat, carry: nat, mul: nat, c: nat, base: nat) {
    && |now| == |was| && j <= |now| && now[..j] == was[..j] && Digits(now, base)
    && Exact(now, was, j, carry, mul, c, base)
  }

  lemma CarryStart(was: seq<nat>, mul: nat, c: nat, base: nat)
    requires Digits(was, base)
    ensures Carrying(was, was, |was|, c, mul, c, base)
  {
    assert was[|was|..] == [];
  }

  lemma CarryOn(now: seq<nat>, was: seq<nat>, j: nat, carry: nat, mul: nat, c: nat, base: nat)
    requires base >= 2 && j < |now| && Carrying(now, was, j + 1, carry, mul, c, base)
    ensures var sum := Sum(carry, mul, now[j]);
            sum / base >= 0 && sum % base >= 0 && Carrying(now[j := sum % base], was, j, sum / base, mul, c, base)
  {
    var sum := Sum(carry, mul, now[j]);
    assert now[j] == now[..j + 1][j] == was[j];
    CarryDivides(sum, base);
    CarryStep(now, was, j, sum % base, carry, sum / base, mul, c, base);
    assert now[j := sum % base][..j] == now[..j + 1][..j] == was[..j + 1][..j];
  }

  lemma CarryEnd(now: seq<nat>, was: seq<nat>, j: nat, carry: nat, mul: nat, c: nat, base: nat, zeros: nat)
    requires Carrying(now, was, j, carry, mul, c, base) && j <= zeros <= |was| && was[..zeros] == Zeros(zeros)
    requires mul * Value(was, base) + c < Pow(base, |was|) && (j > 0 ==> carry == 0)
    ensures carry == 0 && Digits(now, base) && now[..j] == Zeros(j)
    ensures Value(now, base) == mul * Value(was, base) + c
  {
    assert was[..j] == was[..zeros][..j];
    if j == 0 {
      NoCarryOut(now, was, carry, mul, c, base);
    }
    CarryDone(now, was, j, mul, c, base);
  }

  /** The carry loop, on values: k digits are left to do. It stops early once the
      carry is spent and all `length` low digits are rewritten. The results are the
      digits, the new length and the carry. */
  function Carried(ds: seq<nat>, k: nat, carry: nat, base: nat, mul: nat, length: nat): (seq<nat>, nat, nat)
    requires base >= 2 && k <= |ds|
    decreases k
  {
    if k == 0 || (carry == 0 && |ds| - k >= length) then (ds, |ds| - k, carry)
    else
      var sum := Sum(carry, mul, ds[k - 1]);
      CarryDivides(sum, base);
      Carried(ds[k - 1 := sum % base], k - 1, sum / base, base, mul, length)
  }

  lemma {:induction false} CarriedKeeps(ds: seq<nat>, was: seq<nat>, k: nat, carry: nat, mul: nat, c: nat, base: nat,
                                        length: nat)
    requires base >= 2 && Carrying(ds, was, k, carry, mul, c, base)
    ensures var (now, newLength, left) := Carried(ds, k, carry, base, mul, length);
            && newLength <= |was| && (newLength < |was| ==> left == 0 && newLength >= length)
            && Carrying(now, was, |was| - newLength, left, mul, c, base)
    decreases k
  {
    if k > 0 {
      CarryOn(ds, was, k - 1, carry, mul, c, base);
      var sum := Sum(carry, mul, ds[k - 1]);
      CarriedKeeps(ds[k - 1 := sum % base], was, k - 1, sum / base, mul, c, base, length);
    }
  }

  /** The loop multiplies the big-endian number by mul and adds c. Because the
      result still fits, it never leaves the buffer with a carry in hand. */
  lemma CarriedMultiplies(ds: seq<nat>, base: nat, mul: nat, c: nat, length: nat)
    requires base >= 2 && Digits(ds, base) && length <= |ds| && ds[..|ds| - length] == Zeros(|ds| - length)
    requires mul * Value(ds, base) + c < Pow(base, |ds|)
    ensures var (now, newLength, carry) := Carried(ds, |ds|, c, base, mul, length);
            && carry == 0 && |now| == |ds| && Digits(now, base) && newLength <= |ds|
            && now[..|ds| - newLength] == Zeros(|ds| - newLength)
            && Value(now, base) == mul * Value(ds, base) + c
  {
    CarryStart(ds, mul, c, base);
    CarriedKeeps(ds, ds, |ds|, c, mul, c, base, length);
    var (now, newLength, carry) := Carried(ds, |ds|, c, base, mul, length);
    CarryEnd(now, ds, |ds| - newLength, carry, mul, c, base, if newLength < |ds| then |ds| - length else 0);
  }

  method CarryLoop(buf: array<nat>, base: nat, mul: nat, c: nat, length: nat) returns (newLength: nat, carry: nat)
    requires base >= 2
    modifies buf
    ensures (buf[..], newLength, carry) == Carried(old(buf[..]), buf.Length, c, base, mul, length)
  {
    carry := c;
    var i := 0;
    var j := buf.Length - 1;
    while (carry != 0 || i < length) && j >= 0
      invariant i == buf.Length - 1 - j && -1 <= j < buf.Length
      invariant Carried(buf[..], j + 1, carry, base, mul, length)
                == Carried(old(buf[..]), buf.Length, c, base, mul, length)
    {
      ghost var now := buf[..];
      carry := Sum(carry, mul, buf[j]);
      CarryDivides(carry, base);
      buf[j] := carry % base;
      assert buf[..] == now[j := buf[j]];
      carry := carry / base;
      i := i + 1;
      j := j - 1;
    }
    newLength := i;
  }

  /** The inner loop both directions share. */
  method MultiplyAdd(buf: array<nat>, base: nat, mul: nat, c: nat, length: nat) returns (newLength: nat, carry: nat)
    requires base >= 2 && Digits(buf[..], base) && length <= buf.Length
    requires buf[..buf.Length - length] == Zeros(buf.Length - length)
    requires mul * Value(buf[..], base) + c < Pow(base, buf.Length)
    modifies buf
    ensures carry == 0
    ensures Digits(buf[..], base) && newLength <= buf.Length
    ensures buf[..buf.Length - newLength] == Zeros(buf.Length - newLength)
    ensures Value(buf[..], base) == mul * old(Value(buf[..], base)) + c
  {
    CarriedMultiplies(buf[..], base, mul, c, length);
    newLength, carry := CarryLoop(buf, base, mul, c, length);
  }

  /** The outer loop: buf * 256 + byte, for every byte. */
  method ConvertBytes(rest: seq<octet>, b58: array<nat>) returns (length: nat)
    requires b58.Length == |rest| * 138 / 100 + 1 && b58[..] == Zeros(b58.Length) && Value(b58[..], 58) == 0
    modifies b58
    ensures Digits(b58[..], 58) && length <= b58.Length
    ensures b58[..b58.Length - length] == Zeros(b58.Length - length)
    ensures Value(b58[..], 58) == Value(rest, 256)
  {
    length := 0;
    for k := 0 to |rest|
      invariant Digits(b58[..], 58) && length <= b58.Length
      invariant b58[..b58.Length - length] == Zeros(b58.Length - length)
      invariant Value(b58[..], 58) == Value(rest[..k], 256)
    {
      assert rest[..k + 1] == rest[..k] + [rest[k]];
      EncodeStep(rest[..k], rest[k], |rest|);
      var carry;
      length, carry := MultiplyAdd(b58, 58, 256, rest[k], length);
    }
    assert rest[..|rest|] == rest;
  }

  method Base58Encode(input: seq<octet>) returns (out: string)
    ensures out == Encode(input)
  {
    if |input| == 0 {
      return "";
    }
    var zeros := CountZeros(input);
    var rest := input[zeros..];
    var size := |rest| * 138 / 100 + 1;
    var b58 := new nat[size](_ => 0);
    EmptyBuffer(b58[..], 58);
    var length := ConvertBytes(rest, b58);
    var idx := SkipZeros(b58, size - length);
    out := [];
    for i := 0 to zeros
      invariant out == Spell(Zeros(i))
    {
      out := out + ['1'];
    }
    out := out + Spell(b58[idx..]);
    StrippedIsNumeral(b58[..], idx, 58);
    EncodeResult(input, zeros);
  }

  method Base58Decode(s: bytestring) returns (r: Result<seq<nat>, nat>)
    ensures r == Decode(s)
  {
    if s == "" {
      DecodeEmpty();
      return Success([]);
    }
    var zeros := CountOnes(s);
    var size := (|s| - zeros) * 733 / 1000 + 1;
    var b256 := new nat[size](_ => 0);
    var length, invalid := ReadDigits(s, zeros, b256);
    if invalid.Some? {
      return Failure(invalid.value);
    }
    var idx := SkipZeros(b256, size - length);
    var out: seq<nat> := [];
    for i := 0 to zeros
      invariant out == Zeros(i)
    {
      out := out + [0];
    }
    StrippedIsNumeral(b256[..], idx, 256);
    DecodeResult(s, zeros);
    r := Success(out + b256[idx..]);
  }

  /** The decoding loop: fold every character of s into buf, or stop at the
      first one outside the alphabet. */
  method ReadDigits(s: bytestring, zeros: nat, buf: array<nat>) returns (length: nat, invalid: Option<nat>)
    requires zeros <= |s| && forall k :: 0 <= k < zeros ==> s[k] == '1'
    requires buf.Length == (|s| - zeros) * 733 / 1000 + 1 && buf[..] == Zeros(buf.Length)
    modifies buf
    ensures invalid == FirstInvalid(s, 0)
    ensures invalid.None? ==>
      && IsBase58(s) && length <= buf.Length && Digits(buf[..], 256)
      && buf[..buf.Length - length] == Zeros(buf.Length - length)
      && Value(buf[..], 256) == Value(DigitsOf(s), 58)
  {
    var alphabetIdx := AlphabetTable();
    length := 0;
    EmptyBuffer(buf[..], 256);
    assert IsBase58(s[..0]) && DigitsOf(s[..0]) == [];
    for i := 0 to |s|
      invariant IsBase58(s[..i])
      invariant FirstInvalid(s, 0) == FirstInvalid(s, i)
      invariant Digits(buf[..], 256) && length <= buf.Length
      invariant buf[..buf.Length - length] == Zeros(buf.Length - length)
      invariant Value(buf[..], 256) == Value(DigitsOf(s[..i]), 58)
    {
      var v := alphabetIdx[s[i] as int];
      ghost var digit := DigitOf(s[i]);
      if v < 0 {
        return length, Some(i);
      }
      DecodeStep(s, i, zeros);
      var carry;
      length, carry := MultiplyAdd(buf, 256, 58, v, length);
    }
    assert s[..|s|] == s;
    invalid := None;
  }

  lemma DecodeEmpty()
    ensures Decode("") == Success([])
  {
    assert DigitsOf("") == [] && FirstInvalid("", 0) == None;
    assert Convert([], 58, 256) == [];
  }

  method CountOnes(s: string) returns (zeros: nat)
    ensures zeros <= |s|
    ensures forall k :: 0 <= k < zeros ==> s[k] == '1'
    ensures zeros < |s| ==> s[zeros] != '1'
  {
    zeros := 0;
    while zeros < |s| && s[zeros] == '1'
      invariant zeros <= |s|
      invariant forall k :: 0 <= k < zeros ==> s[k] == '1'
    {
      zeros := zeros + 1;
    }
  }

  /** One zero byte per leading '1', then the bytes of the converted number. */
  lemma DecodeResult(s: string, zeros: nat)
    requires IsBase58(s) && zeros <= |s|
    requires forall k :: 0 <= k < zeros ==> s[k] == '1'
    requires zeros < |s| ==> s[zeros] != '1'
    ensures Decode(s) == Success(Zeros(zeros) + Numeral(Value(DigitsOf(s), 58), 256))
  {
    FirstInvalidSome(s, 0);
    ZerosAreOnes(s, zeros);
  }

  method CountZeros(input: seq<octet>) returns (zeros: nat)
    ensures zeros == LeadingZeros(input)
  {
    zeros := 0;
    while zeros < |input| && input[zeros] == 0
      invariant zeros <= |input|
      invariant forall k :: 0 <= k < zeros ==> input[k] == 0
    {
      zeros := zeros + 1;
    }
    assert input == Zeros(zeros) + input[zeros..];
    LeadingZerosOf(zeros, input[zeros..]);
  }

  method SkipZeros(buf: array<nat>, start: nat) returns (idx: nat)
    requires start <= buf.Length && buf[..start] == Zeros(start)
    ensures idx <= buf.Length && buf[..idx] == Zeros(idx)
    ensures idx < buf.Length ==> buf[idx] != 0
  {
    idx := start;
    while idx < buf.Length && buf[idx] == 0
      invariant idx <= buf.Length && buf[..idx] == Zeros(idx)
    {
      idx := idx + 1;
    }
  }

  /** The 256-entry reverse table: -1 for bytes outside the alphabet. */
  method AlphabetTable() returns (table: seq<int>)
    ensures |table| == 256
    ensures forall c: char :: c as int < 256 ==> table[c as int] == match DigitOf(c) case None => -1 case Some(d) => d
  {
    var t := new int[256](_ => -1);
    for i := 0 to |ALPHABET|
      invariant forall c: char :: c as int < 256 ==>
        t[c as int] == match DigitOf(c) case None => -1 case Some(d) => if d < i then d else -1
    {
      FindSpelled(i, 0);
      forall c: char | DigitOf(c) == Some(i)
        ensures c == ALPHABET[i]
      {
        DigitRange(c, 0);
      }
      AlphabetIsAscii(i);
      t[ALPHABET[i] as int] := i;
    }
    forall c: char
      ensures match DigitOf(c) case None => true case Some(d) => d < |ALPHABET|
    {
      DigitRange(c, 0);
    }
    table := t[..];
  }

  lemma AlphabetIsAscii(i: nat)
    requires i < |ALPHABET|
    ensures ALPHABET[i] as int < 128
  {
    AlphabetAt(i);
  }

  lemma EmptyBuffer(buf: seq<nat>, base: nat)
    requires forall i :: 0 <= i < |buf| ==> buf[i] == 0
    ensures buf == Zeros(|buf|) && Value(buf, base) == 0
  {
    assert buf == Zeros(|buf|) + [];
    ValueLeadingZeros(|buf|, [], base);
  }

  /** Reading one more of n bytes keeps the value inside the encoding buffer. */
  lemma EncodeStep(read: seq<nat>, byte: nat, n: nat)
    requires |read| < n && Digits(read, 256) && byte < 256
    ensures Value(read + [byte], 256) == 256 * Value(read, 256) + byte
    ensures Value(read + [byte], 256) < Pow(58, n * 138 / 100 + 1)
  {
    ValueSnoc(read, byte, 256);
    PrefixFits(read + [byte], n, 256);
    EncodeBufferFits(n);
  }

  lemma PrefixFits(ds: seq<nat>, n: nat, base: nat)
    requires |ds| <= n && base > 0 && Digits(ds, base)
    ensures Value(ds, base) < Pow(base, n)
  {
    ValueBound(ds, base);
    PowMonotonic(base, |ds|, n);
  }

  /** The spelled digits of the converted number, after one '1' per leading zero byte. */
  lemma EncodeResult(input: seq<octet>, zeros: nat)
    requires zeros == LeadingZeros(input)
    ensures var digits := Numeral(Value(input[zeros..], 256), 58);
            Digits(digits, 58) && Encode(input) == Spell(Zeros(zeros)) + Spell(digits)
  {
    var rest := input[zeros..];
    NumeralValue(Value(rest, 256), 58);
    assert input == Zeros(zeros) + rest;
    ValueLeadingZeros(zeros, rest, 256);
  }

  /** A digit string stripped of its leading zeros is the numeral of its value. */
  lemma StrippedIsNumeral(ds: seq<nat>, idx: nat, base: nat)
    requires base >= 2 && Digits(ds, base) && idx <= |ds| && ds[..idx] == Zeros(idx)
    requires idx < |ds| ==> ds[idx] != 0
    ensures ds[idx..] == Numeral(Value(ds, base), base)
  {
    assert ds == Zeros(idx) + ds[idx..];
    ValueLeadingZeros(idx, ds[idx..], base);
    ValueNumeral(ds[idx..], base);
  }

  lemma DigitsOfSnoc(s: string, c: char)
    requires IsBase58(s) && DigitOf(c).Some?
    ensures IsBase58(s + [c]) && DigitsOf(s + [c]) == DigitsOf(s) + [DigitOf(c).value]
  {
    var t := s + [c];
    forall i: nat | i < |t|
      ensures DigitsOf(t)[i] == (DigitsOf(s) + [DigitOf(c).value])[i]
    {
      if i < |s| {
      }
    }
  }

  /** Leading '1' characters are leading zero digits. */
  lemma ZerosAreOnes(s: string, zeros: nat)
    requires IsBase58(s) && zeros <= |s|
    requires forall k :: 0 <= k < zeros ==> s[k] == '1'
    requires zeros < |s| ==> s[zeros] != '1'
    ensures LeadingZeros(DigitsOf(s)) == zeros
  {
    var ds := DigitsOf(s);
    FindSpelled(0, 0);
    forall k: nat | k < |s|
      ensures ds[k] == 0 <==> s[k] == '1'
    {
      DigitRange(s[k], 0);
    }
    assert ds == Zeros(zeros) + ds[zeros..];
    LeadingZerosOf(zeros, ds[zeros..]);
  }

  /** A string that starts with z '1' characters has at most |p| - z digits. */
  lemma DecodedFits(p: string, z: nat)
    requires IsBase58(p) && z <= |p|
    requires forall k :: 0 <= k < z ==> p[k] == '1'
    ensures Value(DigitsOf(p), 58) < Pow(58, |p| - z)
  {
    var ds := DigitsOf(p);
    DigitsInRange(p);
    forall k: nat | k < z
      ensures ds[k] == 0
    {
      FindSpelled(0, 0);
      AlphabetAt(0);
    }
    assert ds == Zeros(z) + ds[z..];
    ValueLeadingZeros(z, ds[z..], 58);
    ValueBound(ds[z..], 58);
  }

  /** Reading one more character keeps the value inside the decoding buffer. */
  lemma DecodeStep(s: string, i: nat, zeros: nat)
    requires i < |s| && zeros <= |s| && IsBase58(s[..i]) && DigitOf(s[i]).Some?
    requires forall k :: 0 <= k < zeros ==> s[k] == '1'
    ensures IsBase58(s[..i + 1])
    ensures Value(DigitsOf(s[..i + 1]), 58) == 58 * Value(DigitsOf(s[..i]), 58) + DigitOf(s[i]).value
    ensures Value(DigitsOf(s[..i + 1]), 58) < Pow(256, (|s| - zeros) * 733 / 1000 + 1)
  {
    assert s[..i + 1] == s[..i] + [s[i]];
    DigitsOfSnoc(s[..i], s[i]);
    ValueSnoc(DigitsOf(s[..i]), DigitOf(s[i]).value, 58);
    var z := if zeros <= i + 1 then zeros else i + 1;
    DecodedFits(s[..i + 1], z);
    PowMonotonic(58, i + 1 - z, |s| - zeros);
    DecodeBufferFits(|s| - zeros);
  }
}
