/** Bits packed into bytes, most significant bit first: bit 0 of a buffer is
    the 0x80 bit of its first byte. The fuzzy extractor and the status list
    both address their buffers this way. */
module Bits {
  type byte = bv8

  /** The bit of x that a right shift by s brings to the bottom. */
  predicate BitOf(x: byte, s: nat)
    requires s < 8
  {
    (x >> s) & 1 == 1
  }

  /** Bit i of a buffer; positions past its end read as clear. */
  predicate BitAt(b: seq<byte>, i: nat) {
    i / 8 < |b| && BitOf(b[i / 8], 7 - i % 8)
  }

  function One(b: bool): nat {
    if b then 1 else 0
  }

  function PopCount(x: byte): nat {
    One(BitOf(x, 0)) + One(BitOf(x, 1)) + One(BitOf(x, 2)) + One(BitOf(x, 3)) +
    One(BitOf(x, 4)) + One(BitOf(x, 5)) + One(BitOf(x, 6)) + One(BitOf(x, 7))
  }

  /** How many positions in [lo, hi) hold different bits in a and b. */
  function Distance(a: seq<byte>, b: seq<byte>, lo: nat, hi: nat): nat
    requires lo <= hi
    decreases hi - lo, a
  {
    if lo == hi then 0
    else Distance(a, b, lo, hi - 1) + One(BitAt(a, hi - 1) != BitAt(b, hi - 1))
  }

  /** How many bits in [lo, hi) are set: the distance from the empty buffer. */
  function Ones(x: seq<byte>, lo: nat, hi: nat): nat
    requires lo <= hi
  {
    Distance(x, [], lo, hi)
  }

  function PackByte(b0: bool, b1: bool, b2: bool, b3: bool, b4: bool, b5: bool, b6: bool, b7: bool): byte {
    (if b0 then 0x80 else 0) | (if b1 then 0x40 else 0) | (if b2 then 0x20 else 0) | (if b3 then 0x10 else 0) |
    (if b4 then 0x08 else 0) | (if b5 then 0x04 else 0) | (if b6 then 0x02 else 0) | (if b7 then 0x01 else 0)
  }

  /** The n-byte buffer whose bit i is f(i). */
  function Pack(f: nat -> bool, n: nat): seq<byte> {
    seq(n, i requires 0 <= i =>
      PackByte(f(8 * i), f(8 * i + 1), f(8 * i + 2), f(8 * i + 3),
               f(8 * i + 4), f(8 * i + 5), f(8 * i + 6), f(8 * i + 7)))
  }

  function Xor(a: seq<byte>, b: seq<byte>): seq<byte> {
    seq(if |b| < |a| then |b| else |a|, i requires 0 <= i < |a| && i < |b| => a[i] ^ b[i])
  }

  // --- Single bytes ---------------------------------------------------------

  lemma PackByteBits(b0: bool, b1: bool, b2: bool, b3: bool, b4: bool, b5: bool, b6: bool, b7: bool)
    ensures var x := PackByte(b0, b1, b2, b3, b4, b5, b6, b7);
            && BitOf(x, 7) == b0 && BitOf(x, 6) == b1 && BitOf(x, 5) == b2 && BitOf(x, 4) == b3
            && BitOf(x, 3) == b4 && BitOf(x, 2) == b5 && BitOf(x, 1) == b6 && BitOf(x, 0) == b7
  {}

  lemma SameBitsSameByte(x: byte, y: byte)
    requires forall k: nat :: k < 8 ==> BitOf(x, k) == BitOf(y, k)
    ensures x == y
  {
    assert BitOf(x, 0) == BitOf(y, 0) && BitOf(x, 1) == BitOf(y, 1) && BitOf(x, 2) == BitOf(y, 2);
    assert BitOf(x, 3) == BitOf(y, 3) && BitOf(x, 4) == BitOf(y, 4) && BitOf(x, 5) == BitOf(y, 5);
    assert BitOf(x, 6) == BitOf(y, 6) && BitOf(x, 7) == BitOf(y, 7);
  }

  /** Clearing the lowest set bit lowers the population count by exactly one. */
  lemma ClearLowestBit(x: byte)
    requires x != 0
    ensures PopCount(x & (x - 1)) == PopCount(x) - 1
  {}

  /** x with the bit at shift s forced to v. */
  function WithBit(x: byte, s: nat, v: bool): byte
    requires s < 8
  {
    if v then x | (1 << s) else x & !(1 << s)
  }

  lemma SetBitOf(x: byte, s: nat, t: nat)
    requires s < 8 && t < 8
    ensures BitOf(x | (1 << s), t) == (s == t || BitOf(x, t))
  {
    if s == 0 {} else if s == 1 {} else if s == 2 {} else if s == 3 {}
    else if s == 4 {} else if s == 5 {} else if s == 6 {} else {}
  }

  lemma ClearBitOf(x: byte, s: nat, t: nat)
    requires s < 8 && t < 8
    ensures BitOf(x & !(1 << s), t) == (s != t && BitOf(x, t))
  {
    if s == 0 {} else if s == 1 {} else if s == 2 {} else if s == 3 {}
    else if s == 4 {} else if s == 5 {} else if s == 6 {} else {}
  }

  lemma WithBitOf(x: byte, s: nat, v: bool, t: nat)
    requires s < 8 && t < 8
    ensures BitOf(WithBit(x, s, v), t) == if s == t then v else BitOf(x, t)
  {
    if v {
      SetBitOf(x, s, t);
    } else {
      ClearBitOf(x, s, t);
    }
  }

  /** The left-to-right mask 0x80 >> k selects the bit at shift 7 - k. */
  lemma MaskSelects(x: byte, k: nat)
    requires k < 8
    ensures (x & (0x80 >> k) != 0) == BitOf(x, 7 - k)
  {
    if k == 0 {} else if k == 1 {} else if k == 2 {} else if k == 3 {}
    else if k == 4 {} else if k == 5 {} else if k == 6 {} else {}
  }

  lemma MaskSets(x: byte, k: nat)
    requires k < 8
    ensures x | (0x80 >> k) == WithBit(x, 7 - k, true)
  {
    if k == 0 {} else if k == 1 {} else if k == 2 {} else if k == 3 {}
    else if k == 4 {} else if k == 5 {} else if k == 6 {} else {}
  }

  lemma ShiftXor(x: byte, y: byte, s: nat)
    requires s < 8
    ensures (x ^ y) >> s == (x >> s) ^ (y >> s)
  {}

  lemma LowBitXor(p: byte, q: byte)
    ensures ((p ^ q) & 1 == 1) == ((p & 1 == 1) != (q & 1 == 1))
  {}

  lemma XorBitOf(x: byte, y: byte, s: nat)
    requires s < 8
    ensures BitOf(x ^ y, s) == (BitOf(x, s) != BitOf(y, s))
  {
    ShiftXor(x, y, s);
    LowBitXor(x >> s, y >> s);
  }

  // --- Buffers --------------------------------------------------------------

  lemma WithBitAt(b: seq<byte>, i: nat, v: bool, k: nat)
    requires i < 8 * |b| && k < 8 * |b|
    ensures BitAt(b[i / 8 := WithBit(b[i / 8], 7 - i % 8, v)], k) == if k == i then v else BitAt(b, k)
  {
    if k / 8 == i / 8 {
      WithBitOf(b[i / 8], 7 - i % 8, v, 7 - k % 8);
    }
  }

  lemma PackAt(f: nat -> bool, n: nat, i: nat)
    requires i < 8 * n
    ensures BitAt(Pack(f, n), i) == f(i)
  {
    var j := i / 8;
    PackByteBits(f(8 * j), f(8 * j + 1), f(8 * j + 2), f(8 * j + 3),
                 f(8 * j + 4), f(8 * j + 5), f(8 * j + 6), f(8 * j + 7));
    assert i == 8 * j + i % 8;
  }

  lemma XorAt(a: seq<byte>, b: seq<byte>, i: nat)
    requires i < 8 * |a| && |a| == |b|
    ensures BitAt(Xor(a, b), i) == (BitAt(a, i) != BitAt(b, i))
  {
    XorBitOf(a[i / 8], b[i / 8], 7 - i % 8);
  }

  lemma GetByMask(b: seq<byte>, i: nat)
    requires i < 8 * |b|
    ensures (b[i / 8] & (0x80 >> (i % 8)) != 0) == BitAt(b, i)
  {
    MaskSelects(b[i / 8], i % 8);
  }

  lemma SetByMask(b: seq<byte>, i: nat)
    requires i < 8 * |b|
    ensures var b' := b[i / 8 := b[i / 8] | (0x80 >> (i % 8))];
            forall k: nat :: BitAt(b', k) <==> BitAt(b, k) || k == i
  {
    MaskSets(b[i / 8], i % 8);
    forall k: nat | k < 8 * |b|
      ensures BitAt(b[i / 8 := WithBit(b[i / 8], 7 - i % 8, true)], k) <==> BitAt(b, k) || k == i
    {
      WithBitAt(b, i, true, k);
    }
  }

  /** A buffer is determined by its length and its bits. */
  lemma SameBits(a: seq<byte>, b: seq<byte>)
    requires |a| == |b|
    requires forall i: nat :: i < 8 * |a| ==> BitAt(a, i) == BitAt(b, i)
    ensures a == b
  {
    forall j: nat | j < |a|
      ensures a[j] == b[j]
    {
      forall k: nat | k < 8
        ensures BitOf(a[j], k) == BitOf(b[j], k)
      {
        var i := 8 * j + (7 - k);
        assert i / 8 == j && i % 8 == 7 - k;
        assert BitAt(a, i) == BitAt(b, i);
      }
      SameBitsSameByte(a[j], b[j]);
    }
  }

  lemma {:induction false} DistanceSplit(a: seq<byte>, b: seq<byte>, lo: nat, mid: nat, hi: nat)
    requires lo <= mid <= hi
    ensures Distance(a, b, lo, hi) == Distance(a, b, lo, mid) + Distance(a, b, mid, hi)
    decreases hi - mid
  {
    if mid < hi {
      DistanceSplit(a, b, lo, mid, hi - 1);
    }
  }

  /** Two pairs of buffers that differ in the same places are equally far apart. */
  lemma {:induction false} DistanceCongruent(a: seq<byte>, b: seq<byte>, c: seq<byte>, d: seq<byte>, lo: nat, hi: nat)
    requires lo <= hi
    requires forall i: nat :: lo <= i < hi ==> (BitAt(a, i) != BitAt(b, i)) == (BitAt(c, i) != BitAt(d, i))
    ensures Distance(a, b, lo, hi) == Distance(c, d, lo, hi)
    decreases hi - lo
  {
    if lo < hi {
      DistanceCongruent(a, b, c, d, lo, hi - 1);
    }
  }

  /** Two pairs of buffers that differ in complementary places share the range between them. */
  lemma {:induction false} DistanceComplement(a: seq<byte>, b: seq<byte>, c: seq<byte>, d: seq<byte>, lo: nat, hi: nat)
    requires lo <= hi
    requires forall i: nat :: lo <= i < hi ==> (BitAt(a, i) != BitAt(b, i)) == (BitAt(c, i) == BitAt(d, i))
    ensures Distance(a, b, lo, hi) + Distance(c, d, lo, hi) == hi - lo
    decreases hi - lo
  {
    if lo < hi {
      DistanceComplement(a, b, c, d, lo, hi - 1);
    }
  }

  /** The set bits among the leftmost k of one byte. */
  function CountBits(x: byte, k: nat): nat
    requires k <= 8
  {
    if k == 0 then 0 else CountBits(x, k - 1) + One(BitOf(x, 8 - k))
  }

  lemma CountBitsAll(x: byte)
    ensures CountBits(x, 8) == PopCount(x)
  {
    assert CountBits(x, 1) == CountBits(x, 0) + One(BitOf(x, 7));
    assert CountBits(x, 2) == CountBits(x, 1) + One(BitOf(x, 6));
    assert CountBits(x, 3) == CountBits(x, 2) + One(BitOf(x, 5));
    assert CountBits(x, 4) == CountBits(x, 3) + One(BitOf(x, 4));
    assert CountBits(x, 5) == CountBits(x, 4) + One(BitOf(x, 3));
    assert CountBits(x, 6) == CountBits(x, 5) + One(BitOf(x, 2));
    assert CountBits(x, 7) == CountBits(x, 6) + One(BitOf(x, 1));
    assert CountBits(x, 8) == CountBits(x, 7) + One(BitOf(x, 0));
  }

  lemma {:induction false} OnesInByte(x: seq<byte>, j: nat, k: nat)
    requires j < |x| && k <= 8
    ensures Ones(x, 8 * j, 8 * j + k) == CountBits(x[j], k)
  {
    if k > 0 {
      OnesInByte(x, j, k - 1);
      assert (8 * j + (k - 1)) / 8 == j && (8 * j + (k - 1)) % 8 == k - 1;
    }
  }

  /** One byte's population count is the number of set positions it spans. */
  lemma PopCountIsOnes(x: seq<byte>, j: nat)
    requires j < |x|
    ensures Ones(x, 8 * j, 8 * j + 8) == PopCount(x[j])
  {
    OnesInByte(x, j, 8);
    CountBitsAll(x[j]);
  }
}
