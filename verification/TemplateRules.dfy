/** When two face templates are one person's, in numbers: which bits are compared,
    how many may differ in a block, and how many in all (src/methods/
    fuzzy-extractor-selfie/extractor.go). */
module TemplateRules {
  import opened Bits
  import opened FuzzyExtractor
  import opened Wrappers

  /** The bits of a byte, the most significant first. */
  function Mask(k: nat): byte
    requires k < 8
  {
    if k == 0 then 0x80 else if k == 1 then 0x40 else if k == 2 then 0x20 else if k == 3 then 0x10
    else if k == 4 then 0x08 else if k == 5 then 0x04 else if k == 6 then 0x02 else 0x01
  }

  lemma MaskIs(x: byte, k: nat)
    requires k < 8
    ensures BitOf(x, 7 - k) <==> x & Mask(k) != 0
  {
    if k == 0 {} else if k == 1 {} else if k == 2 {} else if k == 3 {}
    else if k == 4 {} else if k == 5 {} else if k == 6 {} else {}
  }

  /** Bit i of a buffer is bit i mod 8, from the left, of byte i div 8. */
  lemma BitIs(b: seq<byte>, i: nat)
    ensures BitAt(b, i) <==> i / 8 < |b| && b[i / 8] & Mask(i % 8) != 0
  {
    if i / 8 < |b| {
      MaskIs(b[i / 8], i % 8);
    }
  }

  ghost predicate Differ(a: seq<byte>, b: seq<byte>, i: nat)
    requires i < 8 * |a| && i < 8 * |b|
  {
    (a[i / 8] & Mask(i % 8) != 0) != (b[i / 8] & Mask(i % 8) != 0)
  }

  /** The positions from lo on and before hi in which a and b differ. */
  ghost function Differing(a: seq<byte>, b: seq<byte>, lo: nat, hi: nat): set<nat> {
    set i: nat | lo <= i < hi && i < 8 * |a| && i < 8 * |b| && Differ(a, b, i)
  }

  ghost function Where(d: nat -> bool, lo: nat, hi: nat): set<nat> {
    set i: nat | lo <= i < hi && d(i)
  }

  ghost function Tally(d: nat -> bool, lo: nat, hi: nat): nat
    requires lo <= hi
    decreases hi - lo
  {
    if lo == hi then 0 else Tally(d, lo, hi - 1) + if d(hi - 1) then 1 else 0
  }

  lemma {:induction false} TallyCounts(d: nat -> bool, lo: nat, hi: nat)
    requires lo <= hi
    ensures Tally(d, lo, hi) == |Where(d, lo, hi)|
    decreases hi - lo
  {
    if lo < hi {
      TallyCounts(d, lo, hi - 1);
      assert Where(d, lo, hi) == Where(d, lo, hi - 1) + if d(hi - 1) then {hi - 1} else {};
    } else {
      assert Where(d, lo, hi) == {};
    }
  }

  lemma {:induction false} DistanceTallies(a: seq<byte>, b: seq<byte>, d: nat -> bool, lo: nat, hi: nat)
    requires lo <= hi && forall i: nat :: lo <= i < hi ==> d(i) == (BitAt(a, i) != BitAt(b, i))
    ensures Distance(a, b, lo, hi) == Tally(d, lo, hi)
    decreases hi - lo
  {
    if lo < hi {
      DistanceTallies(a, b, d, lo, hi - 1);
    }
  }

  lemma DifferIff(a: seq<byte>, b: seq<byte>, i: nat)
    requires i < 8 * |a| && i < 8 * |b|
    ensures Differ(a, b, i) <==> BitAt(a, i) != BitAt(b, i)
  {
    BitIs(a, i);
    BitIs(b, i);
  }

  lemma DistanceCounts(a: seq<byte>, b: seq<byte>, lo: nat, hi: nat)
    requires lo <= hi && hi <= 8 * |a| && hi <= 8 * |b|
    ensures Distance(a, b, lo, hi) == |Differing(a, b, lo, hi)|
  {
    var d := (i: nat) => i < 8 * |a| && i < 8 * |b| && Differ(a, b, i);
    forall i: nat | lo <= i < hi
      ensures d(i) == (BitAt(a, i) != BitAt(b, i))
    {
      DifferIff(a, b, i);
    }
    DistanceTallies(a, b, d, lo, hi);
    TallyCounts(d, lo, hi);
    assert Where(d, lo, hi) == Differing(a, b, lo, hi);
  }

  /** At most 7 of the 15 bits of block j differ. */
  ghost predicate BlockClose(w: seq<byte>, v: seq<byte>, j: nat) {
    |Differing(w, v, 15 * j, 15 * j + 15)| <= 7
  }

  lemma BlockCounts(w: seq<byte>, v: seq<byte>, j: nat, start: nat)
    requires |w| == |v| == 32 && j < 17 && start == 15 * j
    ensures BlockDistance(w, v, j) == |Differing(w, v, start, start + 15)|
  {
    assert j * BLOCK_BITS == start && (j + 1) * BLOCK_BITS == start + 15;
    DistanceCounts(w, v, start, start + 15);
  }

  /** Two 32-byte templates match exactly when at most 7 bits differ in each of the
      17 blocks of 15 and at most 63 of all 256. */
  lemma MatchIs(w: seq<byte>, v: seq<byte>)
    requires |w| == |v| == 32
    ensures Matches(w, v) <==>
      && (forall j: nat :: j < 17 ==> BlockClose(w, v, j))
      && |Differing(w, v, 0, 256)| <= 63
  {
    assert NUM_BLOCKS == 17 && BLOCK_BITS / 2 == 7 && MAX_RESIDUAL_BITS == 63 && TEMPLATE_BITS == 256;
    forall j: nat | j < 17
      ensures BlockDistance(w, v, j) <= 7 <==> BlockClose(w, v, j)
    {
      BlockCounts(w, v, j, 15 * j);
    }
    DistanceCounts(w, v, 0, 256);
  }

  /** The sizes the codec is defined for, and its commitment to a 17-bit seed. */
  lemma EnrollmentIs(template: seq<byte>, s: seq<byte>, v: seq<byte>)
    requires |template| == |v| == 32 && Canonical(s)
    ensures |s| == 3
    ensures Reproduce(v, Xor(template, Codeword(s))) == Success(Some(Digest(s)))
            <==> (forall j: nat :: j < 17 ==> BlockClose(template, v, j))
                 && |Differing(template, v, 0, 256)| <= 63
  {
    RepRecoversIffMatches(template, v, s);
    MatchIs(template, v);
  }
}
