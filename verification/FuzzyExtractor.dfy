/** The fuzzy commitment of src/methods/fuzzy-extractor-selfie/extractor.go:
    a 17-bit seed, repeated 15 times per bit into a codeword, masks a 256-bit
    face template. Reproduction corrects noise by majority vote per block and
    refuses when the corrected codeword is more than MAX_RESIDUAL_BITS away. */
module FuzzyExtractor {
  import opened Bits
  import opened Wrappers

  const TEMPLATE_BYTES: nat := 32
  const TEMPLATE_BITS: nat := TEMPLATE_BYTES * 8
  const BLOCK_BITS: nat := 15
  const NUM_BLOCKS: nat := TEMPLATE_BITS / BLOCK_BITS
  const USED_BITS: nat := NUM_BLOCKS * BLOCK_BITS
  const SEED_BYTES: nat := (NUM_BLOCKS + 7) / 8
  const MAX_RESIDUAL_BITS: nat := USED_BITS / 4

  /** SHA-256 of the domain tag and a seed, taken as an injective function:
      the digest of a seed is a free constructor applied to it. */
  datatype Commitment = Digest(seed: seq<byte>)

  datatype TemplateError = BadTemplateLength | BadHelperLength | NoEntropy

  // --- What the extractor computes, on values --------------------------------

  /** A seed as Gen and majorityDecode produce it: padding bits clear. */
  ghost predicate Canonical(seed: seq<byte>) {
    && |seed| == SEED_BYTES
    && forall i: nat :: NUM_BLOCKS <= i < SEED_BYTES * 8 ==> !BitAt(seed, i)
  }

  /** The codeword of a seed: bit i repeats seed bit i / 15; bit 255 is in no block. */
  function Codeword(seed: seq<byte>): seq<byte> {
    Pack((i: nat) => i < USED_BITS && BitAt(seed, i / BLOCK_BITS), TEMPLATE_BYTES)
  }

  function MajoritySeed(x: seq<byte>): seq<byte> {
    Pack((j: nat) => j < NUM_BLOCKS && Ones(x, j * BLOCK_BITS, (j + 1) * BLOCK_BITS) * 2 > BLOCK_BITS, SEED_BYTES)
  }

  function Unpadded(entropy: seq<byte>): seq<byte> {
    Pack((j: nat) => j < NUM_BLOCKS && BitAt(entropy, j), SEED_BYTES)
  }

  function Residual(x: seq<byte>): nat {
    Distance(x, Codeword(MajoritySeed(x)), 0, TEMPLATE_BITS)
  }

  function Reproduce(template: seq<byte>, helper: seq<byte>): Result<Option<Commitment>, TemplateError> {
    if |template| != TEMPLATE_BYTES then Failure(BadTemplateLength)
    else if |helper| != TEMPLATE_BYTES then Failure(BadHelperLength)
    else
      Success(Decode(Xor(template, helper)))
  }

  function Decode(x: seq<byte>): Option<Commitment> {
    if Residual(x) > MAX_RESIDUAL_BITS then None else Some(Digest(MajoritySeed(x)))
  }

  /** Two templates are close: at most 7 differences in each of the 17 blocks
      and at most 63 over all 256 bits. */
  predicate Matches(w: seq<byte>, v: seq<byte>) {
    && (forall j: nat :: j < NUM_BLOCKS ==> BlockDistance(w, v, j) <= BLOCK_BITS / 2)
    && Distance(w, v, 0, TEMPLATE_BITS) <= MAX_RESIDUAL_BITS
  }

  function BlockDistance(a: seq<byte>, b: seq<byte>, j: nat): nat {
    Distance(a, b, j * BLOCK_BITS, (j + 1) * BLOCK_BITS)
  }

  // --- The imperative extractor ----------------------------------------------

  method SetBit(b: array<byte>, i: nat, v: bool)
    modifies b
    ensures forall k: nat :: k < 8 * b.Length ==> BitAt(b[..], k) == (if k == i then v else old(BitAt(b[..], k)))
  {
    var byteIdx, bitIdx := i / 8, 7 - (i % 8);
    if byteIdx >= b.Length {
      return;
    }
    ghost var before := b[..];
    b[byteIdx] := WithBit(b[byteIdx], bitIdx, v);
    assert b[..] == before[byteIdx := WithBit(before[byteIdx], bitIdx, v)];
    forall k: nat | k < 8 * b.Length
      ensures BitAt(b[..], k) == (if k == i then v else BitAt(before, k))
    {
      WithBitAt(before, i, v, k);
    }
  }

  method ExpandSeed(seed: seq<byte>) returns (out: seq<byte>)
    ensures out == Codeword(seed)
  {
    var buf := new byte[TEMPLATE_BYTES](_ => 0);
    var bitPos := 0;
    assert forall k: nat :: k < TEMPLATE_BITS ==> !BitAt(buf[..], k) by { ZeroBits(buf[..]); }
    for block := 0 to NUM_BLOCKS
      invariant bitPos == block * BLOCK_BITS
      invariant forall k: nat :: k < TEMPLATE_BITS ==> BitAt(buf[..], k) == (k < bitPos && BitAt(seed, k / BLOCK_BITS))
    {
      var bit := BitAt(seed, block);
      for i := 0 to BLOCK_BITS
        invariant bitPos == block * BLOCK_BITS + i
        invariant forall k: nat :: k < TEMPLATE_BITS ==>
          BitAt(buf[..], k) == (k < bitPos && BitAt(seed, k / BLOCK_BITS))
      {
        SetBit(buf, bitPos, bit);
        bitPos := bitPos + 1;
      }
    }
    out := buf[..];
    CodewordExpands(seed);
    SameBits(out, Codeword(seed));
  }

  method MajorityDecode(x: seq<byte>) returns (seed: seq<byte>)
    ensures seed == MajoritySeed(x)
  {
    var buf := new byte[SEED_BYTES](_ => 0);
    var bitPos := 0;
    assert forall k: nat :: k < SEED_BYTES * 8 ==> !BitAt(buf[..], k) by { ZeroBits(buf[..]); }
    for block := 0 to NUM_BLOCKS
      invariant bitPos == block * BLOCK_BITS
      invariant forall k: nat :: k < SEED_BYTES * 8 ==>
        BitAt(buf[..], k) == (k < block && Ones(x, k * BLOCK_BITS, (k + 1) * BLOCK_BITS) * 2 > BLOCK_BITS)
    {
      var ones := 0;
      for i := 0 to BLOCK_BITS
        invariant bitPos == block * BLOCK_BITS + i
        invariant ones == Ones(x, block * BLOCK_BITS, bitPos)
      {
        if BitAt(x, bitPos) {
          ones := ones + 1;
        }
        bitPos := bitPos + 1;
      }
      if ones * 2 > BLOCK_BITS {
        SetBit(buf, block, true);
      }
    }
    seed := buf[..];
    MajorityVotes(x);
    SameBits(seed, MajoritySeed(x));
  }

  method ClearPaddingBits(seed: array<byte>)
    requires seed.Length == SEED_BYTES
    modifies seed
    ensures seed[..] == Unpadded(old(seed[..]))
  {
    ghost var before := seed[..];
    for i := NUM_BLOCKS to SEED_BYTES * 8
      invariant forall k: nat :: k < SEED_BYTES * 8 ==>
        BitAt(seed[..], k) == ((k < NUM_BLOCKS || k >= i) && BitAt(before, k))
    {
      SetBit(seed, i, false);
    }
    forall k: nat | k < 8 * |seed[..]|
      ensures BitAt(seed[..], k) == BitAt(Unpadded(before), k)
    {
      PackAt((j: nat) => j < NUM_BLOCKS && BitAt(before, j), SEED_BYTES, k);
    }
    SameBits(seed[..], Unpadded(before));
  }

  method XorBytes(a: seq<byte>, b: seq<byte>) returns (out: seq<byte>)
    ensures out == Xor(a, b)
  {
    var n := |a|;
    if |b| < n {
      n := |b|;
    }
    var buf := new byte[n];
    for i := 0 to n
      invariant forall k :: 0 <= k < i ==> buf[k] == a[k] ^ b[k]
    {
      buf[i] := a[i] ^ b[i];
    }
    out := buf[..];
  }

  /** Counts set bits byte by byte, clearing the lowest set bit each turn. */
  method HammingDistance(a: seq<byte>, b: seq<byte>) returns (dist: nat)
    requires |a| == |b|
    ensures dist == Distance(a, b, 0, 8 * |a|)
  {
    var x := XorBytes(a, b);
    dist := 0;
    for i := 0 to |x|
      invariant dist == Ones(x, 0, 8 * i)
    {
      var bits := x[i];
      ghost var start := dist;
      while bits != 0
        invariant dist + PopCount(bits) == start + PopCount(x[i])
        decreases PopCount(bits)
      {
        ClearLowestBit(bits);
        dist := dist + 1;
        bits := bits & (bits - 1);
      }
      assert PopCount(0) == 0;
      PopCountIsOnes(x, i);
      DistanceSplit(x, [], 0, 8 * i, 8 * i + 8);
    }
    forall i: nat | i < 8 * |a|
      ensures (BitAt(x, i) != BitAt([], i)) == (BitAt(a, i) != BitAt(b, i))
    {
      XorAt(a, b, i);
    }
    DistanceCongruent(x, [], a, b, 0, 8 * |a|);
  }

  /** Gen, with the random seed bytes as an input; None models a failed read
      of the random source. */
  method Gen(template: seq<byte>, entropy: Option<seq<byte>>)
    returns (r: Result<(seq<byte>, Commitment), TemplateError>)
    requires entropy.Some? ==> |entropy.value| == SEED_BYTES
    ensures |template| != TEMPLATE_BYTES ==> r == Failure(BadTemplateLength)
    ensures |template| == TEMPLATE_BYTES && entropy.None? ==> r == Failure(NoEntropy)
    ensures |template| == TEMPLATE_BYTES && entropy.Some? ==>
      var seed := Unpadded(entropy.value);
      r == Success((Xor(template, Codeword(seed)), Digest(seed)))
  {
    if |template| != TEMPLATE_BYTES {
      return Failure(BadTemplateLength);
    }
    if entropy.None? {
      return Failure(NoEntropy);
    }
    var seed := new byte[SEED_BYTES](i requires 0 <= i < SEED_BYTES => entropy.value[i]);
    assert seed[..] == entropy.value;
    ClearPaddingBits(seed);
    var codeword := ExpandSeed(seed[..]);
    var helper := XorBytes(template[..USED_BITS / 8 + One(USED_BITS % 8 != 0)], codeword);
    assert template[..32] == template;
    r := Success((helper, Digest(seed[..])));
  }

  method Rep(template: seq<byte>, helper: seq<byte>) returns (r: Result<Option<Commitment>, TemplateError>)
    ensures r == Reproduce(template, helper)
  {
    if |template| != TEMPLATE_BYTES {
      return Failure(BadTemplateLength);
    }
    var usedByteLen := USED_BITS / 8 + One(USED_BITS % 8 != 0);
    if |helper| != usedByteLen {
      return Failure(BadHelperLength);
    }
    assert template[..usedByteLen] == template;
    var x := XorBytes(template[..usedByteLen], helper);
    var seedGuess := MajorityDecode(x);
    var codewordGuess := ExpandSeed(seedGuess);
    var residual := HammingDistance(x, codewordGuess);
    assert residual == Residual(x);
    if residual > MAX_RESIDUAL_BITS {
      return Success(None);
    }
    r := Success(Some(Digest(seedGuess)));
  }

  // --- What the specification functions mean, bit by bit ---------------------

  /** c repeats each of the 17 block bits of s fifteen times and leaves bit 255 clear. */
  ghost predicate Expands(s: seq<byte>, c: seq<byte>) {
    && |c| == TEMPLATE_BYTES
    && forall i: nat :: i < TEMPLATE_BITS ==> BitAt(c, i) == (i < USED_BITS && BitAt(s, i / BLOCK_BITS))
  }

  /** Block bit j of m is the majority value of block j of x; the padding of m is clear. */
  ghost predicate Votes(x: seq<byte>, m: seq<byte>) {
    && Canonical(m)
    && forall j: nat :: j < NUM_BLOCKS ==>
         BitAt(m, j) == (Ones(x, j * BLOCK_BITS, (j + 1) * BLOCK_BITS) * 2 > BLOCK_BITS)
  }

  lemma ZeroBits(b: seq<byte>)
    requires forall i :: 0 <= i < |b| ==> b[i] == 0
    ensures forall k: nat :: k < 8 * |b| ==> !BitAt(b, k)
  {}

  lemma CodewordExpands(s: seq<byte>)
    ensures Expands(s, Codeword(s))
  {
    forall i: nat | i < TEMPLATE_BITS
      ensures BitAt(Codeword(s), i) == (i < USED_BITS && BitAt(s, i / BLOCK_BITS))
    {
      PackAt((k: nat) => k < USED_BITS && BitAt(s, k / BLOCK_BITS), TEMPLATE_BYTES, i);
    }
  }

  lemma MajorityBit(x: seq<byte>, j: nat)
    requires j < SEED_BYTES * 8
    ensures BitAt(MajoritySeed(x), j)
            == (j < NUM_BLOCKS && Ones(x, j * BLOCK_BITS, (j + 1) * BLOCK_BITS) * 2 > BLOCK_BITS)
  {
    PackAt((k: nat) => k < NUM_BLOCKS && Ones(x, k * BLOCK_BITS, (k + 1) * BLOCK_BITS) * 2 > BLOCK_BITS, SEED_BYTES, j);
  }

  lemma MajorityVotes(x: seq<byte>)
    ensures Votes(x, MajoritySeed(x))
  {
    forall j: nat | j < SEED_BYTES * 8
      ensures BitAt(MajoritySeed(x), j)
              == (j < NUM_BLOCKS && Ones(x, j * BLOCK_BITS, (j + 1) * BLOCK_BITS) * 2 > BLOCK_BITS)
    {
      MajorityBit(x, j);
    }
  }

  lemma UnpaddedCanonical(entropy: seq<byte>)
    ensures Canonical(Unpadded(entropy))
  {
    forall j: nat | NUM_BLOCKS <= j < SEED_BYTES * 8
      ensures !BitAt(Unpadded(entropy), j)
    {
      PackAt((k: nat) => k < NUM_BLOCKS && BitAt(entropy, k), SEED_BYTES, j);
    }
  }

  ghost predicate AgreeOnBlocks(s: seq<byte>, t: seq<byte>, n: nat) {
    forall j: nat :: j < n ==> BitAt(s, j) == BitAt(t, j)
  }

  /** Canonical seeds that agree on the 17 block bits are equal. */
  lemma SameBlockBits(s: seq<byte>, t: seq<byte>)
    requires Canonical(s) && Canonical(t) && AgreeOnBlocks(s, t, NUM_BLOCKS)
    ensures s == t
  {
    SameBits(s, t);
  }

  // --- Nearest codeword --------------------------------------------------------

  /** In block j a codeword is as far from x as x has bits unlike its seed bit. */
  lemma BlockToCodeword(x: seq<byte>, s: seq<byte>, c: seq<byte>, j: nat)
    requires j < NUM_BLOCKS && Expands(s, c)
    ensures var ones := Ones(x, j * BLOCK_BITS, (j + 1) * BLOCK_BITS);
            BlockDistance(x, c, j) == if BitAt(s, j) then BLOCK_BITS - ones else ones
  {
    var lo, hi := j * BLOCK_BITS, (j + 1) * BLOCK_BITS;
    assert forall i: nat :: lo <= i < hi ==> BitAt(c, i) == BitAt(s, j) by {
      assert forall i: nat :: lo <= i < hi ==> i / BLOCK_BITS == j;
    }
    if BitAt(s, j) {
      DistanceComplement(x, c, x, [], lo, hi);
    } else {
      DistanceCongruent(x, c, x, [], lo, hi);
    }
  }

  /** In every block cm is at least as near x as c is, and nearer where s and m differ. */
  ghost predicate NearerInBlocks(x: seq<byte>, m: seq<byte>, cm: seq<byte>, s: seq<byte>, c: seq<byte>) {
    forall j: nat :: j < NUM_BLOCKS ==>
      BlockDistance(x, cm, j) + One(BitAt(s, j) != BitAt(m, j)) <= BlockDistance(x, c, j)
  }

  lemma MajorityNearerInBlocks(x: seq<byte>, m: seq<byte>, cm: seq<byte>, s: seq<byte>, c: seq<byte>)
    requires Votes(x, m) && Expands(m, cm) && Expands(s, c)
    ensures NearerInBlocks(x, m, cm, s, c)
  {
    forall j: nat | j < NUM_BLOCKS
      ensures BlockDistance(x, cm, j) + One(BitAt(s, j) != BitAt(m, j)) <= BlockDistance(x, c, j)
    {
      BlockToCodeword(x, m, cm, j);
      BlockToCodeword(x, s, c, j);
    }
  }

  /** Over the first n blocks the majority codeword cm is at least as near as
      any other codeword c, and strictly nearer once some block bit differs. */
  lemma {:induction false} NearestOverBlocks(x: seq<byte>, m: seq<byte>, cm: seq<byte>, s: seq<byte>, c: seq<byte>,
                                             n: nat)
    requires n <= NUM_BLOCKS && NearerInBlocks(x, m, cm, s, c)
    ensures Distance(x, cm, 0, n * BLOCK_BITS) + One(!AgreeOnBlocks(s, m, n)) <= Distance(x, c, 0, n * BLOCK_BITS)
  {
    if n > 0 {
      NearestOverBlocks(x, m, cm, s, c, n - 1);
      DistanceSplit(x, cm, 0, (n - 1) * BLOCK_BITS, n * BLOCK_BITS);
      DistanceSplit(x, c, 0, (n - 1) * BLOCK_BITS, n * BLOCK_BITS);
      assert BlockDistance(x, cm, n - 1) + One(BitAt(s, n - 1) != BitAt(m, n - 1)) <= BlockDistance(x, c, n - 1);
    }
  }

  /** The same over all 256 bits: bit 255 is clear in every codeword. */
  lemma NearestOverall(x: seq<byte>, m: seq<byte>, cm: seq<byte>, s: seq<byte>, c: seq<byte>)
    requires Votes(x, m) && Expands(m, cm) && Canonical(s) && Expands(s, c) && s != m
    ensures Distance(x, cm, 0, TEMPLATE_BITS) < Distance(x, c, 0, TEMPLATE_BITS)
  {
    if AgreeOnBlocks(s, m, NUM_BLOCKS) {
      SameBlockBits(s, m);
    }
    MajorityNearerInBlocks(x, m, cm, s, c);
    NearestOverBlocks(x, m, cm, s, c, NUM_BLOCKS);
    DistanceCongruent(x, cm, x, c, USED_BITS, TEMPLATE_BITS);
    DistanceSplit(x, cm, 0, USED_BITS, TEMPLATE_BITS);
    DistanceSplit(x, c, 0, USED_BITS, TEMPLATE_BITS);
  }

  /** Majority voting returns the unique nearest codeword: any other canonical
      seed expands to one that is strictly further from x. */
  lemma MajorityIsUniqueNearest(x: seq<byte>, s: seq<byte>)
    requires Canonical(s) && s != MajoritySeed(x)
    ensures Residual(x) < Distance(x, Codeword(s), 0, TEMPLATE_BITS)
  {
    MajorityVotes(x);
    CodewordExpands(MajoritySeed(x));
    CodewordExpands(s);
    NearestOverall(x, MajoritySeed(x), Codeword(MajoritySeed(x)), s, Codeword(s));
  }

  /** Rep refuses exactly when no codeword at all lies within the residual budget. */
  lemma RefusesIffNoCodewordNear(template: seq<byte>, helper: seq<byte>)
    requires |template| == TEMPLATE_BYTES && |helper| == TEMPLATE_BYTES
    ensures Reproduce(template, helper) == Success(None) <==>
            forall s :: Canonical(s) ==>
              Distance(Xor(template, helper), Codeword(s), 0, TEMPLATE_BITS) > MAX_RESIDUAL_BITS
  {
    var x := Xor(template, helper);
    MajorityVotes(x);
    forall s | Canonical(s) && s != MajoritySeed(x)
      ensures Residual(x) < Distance(x, Codeword(s), 0, TEMPLATE_BITS)
    {
      MajorityIsUniqueNearest(x, s);
    }
    if Residual(x) <= MAX_RESIDUAL_BITS {
      assert Distance(x, Codeword(MajoritySeed(x)), 0, TEMPLATE_BITS) <= MAX_RESIDUAL_BITS;
    }
  }

  // --- Gen against Rep ---------------------------------------------------------

  /** x = v xor (w xor c) differs from c exactly where v differs from w. */
  lemma MaskedError(w: seq<byte>, v: seq<byte>, c: seq<byte>, lo: nat, hi: nat)
    requires |w| == |v| == |c| == TEMPLATE_BYTES && lo <= hi <= TEMPLATE_BITS
    ensures Distance(Xor(v, Xor(w, c)), c, lo, hi) == Distance(w, v, lo, hi)
  {
    var x := Xor(v, Xor(w, c));
    forall i: nat | lo <= i < hi
      ensures (BitAt(x, i) != BitAt(c, i)) == (BitAt(w, i) != BitAt(v, i))
    {
      XorAt(w, c, i);
      XorAt(v, Xor(w, c), i);
    }
    DistanceCongruent(x, c, w, v, lo, hi);
  }

  /** The votes recover the whole seed iff at most 7 bits flipped in every block. */
  lemma VotesRecoverSeed(w: seq<byte>, v: seq<byte>, s: seq<byte>, c: seq<byte>, x: seq<byte>, m: seq<byte>)
    requires |w| == |v| == TEMPLATE_BYTES && Canonical(s) && Expands(s, c)
    requires x == Xor(v, Xor(w, c)) && Votes(x, m)
    ensures m == s <==> forall j: nat :: j < NUM_BLOCKS ==> BlockDistance(w, v, j) <= BLOCK_BITS / 2
  {
    forall j: nat | j < NUM_BLOCKS
      ensures BitAt(m, j) == BitAt(s, j) <==> BlockDistance(w, v, j) <= BLOCK_BITS / 2
    {
      MaskedError(w, v, c, j * BLOCK_BITS, (j + 1) * BLOCK_BITS);
      BlockToCodeword(x, s, c, j);
    }
    if AgreeOnBlocks(m, s, NUM_BLOCKS) {
      SameBlockBits(m, s);
    }
  }

  /** Reproduction against another template's helper yields that template's
      commitment exactly when the two templates match. */
  lemma RepRecoversIffMatches(w: seq<byte>, v: seq<byte>, s: seq<byte>)
    requires |w| == |v| == TEMPLATE_BYTES && Canonical(s)
    ensures Reproduce(v, Xor(w, Codeword(s))) == Success(Some(Digest(s))) <==> Matches(w, v)
  {
    var c := Codeword(s);
    var x := Xor(v, Xor(w, c));
    var m := MajoritySeed(x);
    CodewordExpands(s);
    MajorityVotes(x);
    VotesRecoverSeed(w, v, s, c, x, m);
    MaskedError(w, v, c, 0, TEMPLATE_BITS);
    assert m == s ==> Residual(x) == Distance(w, v, 0, TEMPLATE_BITS);
  }

  lemma MatchesSymmetric(w: seq<byte>, v: seq<byte>)
    ensures Matches(w, v) == Matches(v, w)
  {
    forall j: nat | j < NUM_BLOCKS
      ensures BlockDistance(w, v, j) == BlockDistance(v, w, j)
    {
      DistanceCongruent(w, v, v, w, j * BLOCK_BITS, (j + 1) * BLOCK_BITS);
    }
    DistanceCongruent(w, v, v, w, 0, TEMPLATE_BITS);
  }
}
