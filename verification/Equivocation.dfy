/** Equivocation proofs (src/credential/equivocation.go) and the canonical
    digest a ban and a pardon are recorded under (src/server/holderrevoke.go). */
module Equivocation {
  import opened Wrappers
  import opened Strings

  type octets = s: seq<nat> | forall i :: 0 <= i < |s| ==> s[i] < 256

  const SCHEME: string := "personhood-slot/v1"
  const EVIDENCE_TAG: string := "personhood-equivocation-evidence/v1"
  const MAX_SLOT_FIELD_BYTES: nat := 256

  datatype SlotStatement = SlotStatement(payloadDigestHex: string, signatureB64: string)

  datatype EquivocationProof = EquivocationProof(
    scheme: string, holderPublicKeyB64: string, context: string, slot: string, first: SlotStatement,
    second: SlotStatement)

  /** The library calls: a base64 decoder and Ed25519 signature verification. */
  datatype Crypto = Crypto(decodeB64: string -> Option<octets>, verify: (octets, string, octets) -> bool)

  /** SHA-256 of a text, taken as injective. */
  datatype Evidence = Sha256(text: string)

  datatype ProofError = BadScheme | BadKey | BadDigest | SamePayload | BadField | BadSignature

  // --- Hex ---------------------------------------------------------------------

  function HexValue(c: char): Option<nat> {
    if '0' <= c <= '9' then Some((c - '0') as nat)
    else if 'a' <= c <= 'f' then Some((c - 'a') as nat + 10)
    else if 'A' <= c <= 'F' then Some((c - 'A') as nat + 10)
    else None
  }

  function HexChar(d: nat): char
    requires d < 16
  {
    if d < 10 then '0' + d as char else 'a' + (d - 10) as char
  }

  function HexEncode(b: octets): string {
    if b == [] then "" else [HexChar(b[0] / 16), HexChar(b[0] % 16)] + HexEncode(b[1..])
  }

  function HexDecode(s: string): Option<octets> {
    if s == "" then Some([])
    else if |s| == 1 then None
    else match (HexValue(s[0]), HexValue(s[1]), HexDecode(s[2..]))
      case (Some(hi), Some(lo), Some(rest)) => HexValueRange(s[0]); HexValueRange(s[1]); Some([hi * 16 + lo] + rest)
      case _ => None
  }

  predicate IsLower(s: string) {
    forall i :: 0 <= i < |s| ==> !('A' <= s[i] <= 'Z')
  }

  lemma HexValueRange(c: char)
    ensures HexValue(c).Some? ==> HexValue(c).value < 16
  {}

  lemma LowerPair(c: char, d: char)
    requires HexValue(c).Some? && HexValue(d).Some? && !('A' <= c <= 'Z') && !('A' <= d <= 'Z')
    ensures var b := HexValue(c).value * 16 + HexValue(d).value;
            b / 16 < 16 && HexChar(b / 16) == c && HexChar(b % 16) == d
  {
    HexValueRange(c);
    HexValueRange(d);
    var b := HexValue(c).value * 16 + HexValue(d).value;
    assert b / 16 == HexValue(c).value && b % 16 == HexValue(d).value;
  }

  lemma {:induction false} LowerHexRoundTrip(s: string)
    requires HexDecode(s).Some? && IsLower(s)
    ensures HexEncode(HexDecode(s).value) == s
  {
    if s != "" {
      assert forall i :: 0 <= i < |s[2..]| ==> s[2..][i] == s[i + 2];
      LowerHexRoundTrip(s[2..]);
      var hi, lo, rest := HexValue(s[0]).value, HexValue(s[1]).value, HexDecode(s[2..]).value;
      var b := [hi * 16 + lo] + rest;
      LowerPair(s[0], s[1]);
      assert b[1..] == rest;
      assert s == [s[0], s[1]] + s[2..];
    }
  }

  lemma {:induction false} HexRoundTrip(b: octets)
    ensures HexDecode(HexEncode(b)) == Some(b) && |HexEncode(b)| == 2 * |b|
    ensures Printable(HexEncode(b))
  {
    if b != [] {
      HexRoundTrip(b[1..]);
      var s := HexEncode(b);
      assert s[2..] == HexEncode(b[1..]) && b == [b[0]] + b[1..];
      assert b[0] / 16 < 16 && b[0] % 16 < 16 && b[0] == b[0] / 16 * 16 + b[0] % 16;
    }
  }

  // --- Verification, on values -------------------------------------------------

  predicate Printable(s: string) {
    forall i :: 0 <= i < |s| ==> ' ' <= s[i] <= '~'
  }

  predicate SlotField(s: string) {
    0 < |s| <= MAX_SLOT_FIELD_BYTES && Printable(s)
  }

  /** strings.Join(lines, "\n") */
  function Join(lines: seq<string>): string {
    if lines == [] then ""
    else if |lines| == 1 then lines[0]
    else lines[0] + "\n" + Join(lines[1..])
  }

  function SlotStatementMessage(context: string, slot: string, digest: octets): Result<string, ProofError> {
    if !SlotField(context) || !SlotField(slot) then Failure(BadField)
    else if |digest| != 32 then Failure(BadDigest)
    else Success(Join([SCHEME, context, slot, HexEncode(digest)]))
  }

  function PayloadDigest(st: SlotStatement): Option<octets> {
    match HexDecode(st.payloadDigestHex)
    case Some(d) => if |d| == 32 && IsLower(st.payloadDigestHex) then Some(d) else None
    case None => None
  }

  function StatementError(crypto: Crypto, pub: octets, p: EquivocationProof, st: SlotStatement,
                          digest: octets): Option<ProofError> {
    match SlotStatementMessage(p.context, p.slot, digest)
    case Failure(e) => Some(e)
    case Success(msg) =>
      match crypto.decodeB64(st.signatureB64)
      case None => Some(BadSignature)
      case Some(sig) => if |sig| != 64 || !crypto.verify(pub, msg, sig) then Some(BadSignature) else None
  }

  function Verify(crypto: Crypto, p: EquivocationProof): Result<octets, ProofError> {
    if p.scheme != SCHEME then Failure(BadScheme)
    else match crypto.decodeB64(p.holderPublicKeyB64)
      case None => Failure(BadKey)
      case Some(pub) =>
        if |pub| != 32 then Failure(BadKey)
        else match (PayloadDigest(p.first), PayloadDigest(p.second))
          case (Some(d0), Some(d1)) =>
            if d0 == d1 then Failure(SamePayload)
            else (match StatementError(crypto, pub, p, p.first, d0)
              case Some(e) => Failure(e)
              case None =>
                match StatementError(crypto, pub, p, p.second, d1)
                case Some(e) => Failure(e)
                case None => Success(pub))
          case _ => Failure(BadDigest)
  }

  // --- Verification, step by step ----------------------------------------------

  method CheckSlotField(v: string) returns (ok: bool)
    ensures ok <==> SlotField(v)
  {
    if |v| == 0 || |v| > MAX_SLOT_FIELD_BYTES {
      return false;
    }
    for i := 0 to |v|
      invariant Printable(v[..i])
    {
      if v[i] < ' ' || v[i] > '~' {
        return false;
      }
    }
    assert v[..|v|] == v;
    return true;
  }

  method VerifyProof(crypto: Crypto, p: EquivocationProof) returns (r: Result<octets, ProofError>)
    ensures r == Verify(crypto, p)
  {
    if p.scheme != SCHEME {
      return Failure(BadScheme);
    }
    var key := crypto.decodeB64(p.holderPublicKeyB64);
    if key.None? || |key.value| != 32 {
      return Failure(BadKey);
    }
    var pub := key.value;
    var statements := [p.first, p.second];
    var digests: seq<octets> := [];
    for i := 0 to 2
      invariant |digests| == i
      invariant forall k :: 0 <= k < i ==> PayloadDigest(statements[k]) == Some(digests[k])
    {
      var d := HexDecode(statements[i].payloadDigestHex);
      if d.None? || |d.value| != 32 || !IsLower(statements[i].payloadDigestHex) {
        assert PayloadDigest(statements[i]).None?;
        return Failure(BadDigest);
      }
      digests := digests + [d.value];
    }
    assert PayloadDigest(statements[0]) == Some(digests[0]) && PayloadDigest(statements[1]) == Some(digests[1]);
    if digests[0] == digests[1] {
      return Failure(SamePayload);
    }
    for i := 0 to 2
      invariant forall k :: 0 <= k < i ==> StatementError(crypto, pub, p, statements[k], digests[k]).None?
    {
      var bad := StatementError(crypto, pub, p, statements[i], digests[i]);
      if bad.Some? {
        return Failure(bad.value);
      }
    }
    return Success(pub);
  }

  // --- What is accepted, and why the rest is not ----------------------------------

  ghost predicate LowerHexDigit(c: char) {
    '0' <= c <= '9' || 'a' <= c <= 'f'
  }

  /** 32 bytes in lower-case hex. */
  ghost predicate HexDigest(s: string) {
    |s| == 64 && forall i :: 0 <= i < |s| ==> LowerHexDigit(s[i])
  }

  /** 1 to 256 printable ASCII characters. */
  ghost predicate PrintableField(s: string) {
    1 <= |s| <= 256 && forall i :: 0 <= i < |s| ==> 0x20 <= s[i] as int <= 0x7E
  }

  /** A 64-byte signature by pub of the statement's four lines. */
  ghost predicate Signed(crypto: Crypto, pub: octets, p: EquivocationProof, st: SlotStatement) {
    var sig := crypto.decodeB64(st.signatureB64);
    && sig.Some? && |sig.value| == 64
    && crypto.verify(pub, "personhood-slot/v1" + "\n" + p.context + "\n" + p.slot + "\n"
       + st.payloadDigestHex, sig.value)
  }

  ghost predicate HasKey(crypto: Crypto, p: EquivocationProof) {
    crypto.decodeB64(p.holderPublicKeyB64).Some? && |crypto.decodeB64(p.holderPublicKeyB64).value| == 32
  }

  ghost predicate HasDigests(p: EquivocationProof) {
    HexDigest(p.first.payloadDigestHex) && HexDigest(p.second.payloadDigestHex)
  }

  ghost predicate BothSigned(crypto: Crypto, p: EquivocationProof)
    requires HasKey(crypto, p)
  {
    var pub := crypto.decodeB64(p.holderPublicKeyB64).value;
    Signed(crypto, pub, p, p.first) && Signed(crypto, pub, p, p.second)
  }

  lemma {:induction false} HexDecodesIff(s: string)
    ensures HexDecode(s).Some? && IsLower(s) <==> |s| % 2 == 0 && forall i :: 0 <= i < |s| ==> LowerHexDigit(s[i])
    ensures HexDecode(s).Some? ==> 2 * |HexDecode(s).value| == |s|
  {
    if |s| >= 2 {
      HexDecodesIff(s[2..]);
      assert forall i :: 2 <= i < |s| ==> s[i] == s[2..][i - 2];
      assert forall i :: 0 <= i < |s[2..]| ==> s[2..][i] == s[i + 2];
    }
  }

  lemma PayloadDigestIff(st: SlotStatement)
    ensures PayloadDigest(st).Some? <==> HexDigest(st.payloadDigestHex)
    ensures PayloadDigest(st).Some? ==>
      |PayloadDigest(st).value| == 32 && HexEncode(PayloadDigest(st).value) == st.payloadDigestHex
  {
    HexDecodesIff(st.payloadDigestHex);
    if PayloadDigest(st).Some? {
      LowerHexRoundTrip(st.payloadDigestHex);
    }
  }

  lemma FourLines(a: string, b: string, c: string, d: string)
    ensures Join([a, b, c, d]) == a + "\n" + b + "\n" + c + "\n" + d
  {
    var three, two := [b, c, d], [c, d];
    assert [a, b, c, d][1..] == three && three[1..] == two && two[1..] == [d];
    assert Join(two) == c + "\n" + d;
    assert Join(three) == b + "\n" + (c + "\n" + d);
    assert Join([a, b, c, d]) == a + "\n" + (b + "\n" + (c + "\n" + d));
  }

  lemma StatementErrorIs(crypto: Crypto, pub: octets, p: EquivocationProof, st: SlotStatement, digest: octets)
    requires |digest| == 32 && HexEncode(digest) == st.payloadDigestHex
    ensures StatementError(crypto, pub, p, st, digest)
            == if !(PrintableField(p.context) && PrintableField(p.slot)) then Some(BadField)
               else if !Signed(crypto, pub, p, st) then Some(BadSignature) else None
  {
    FourLines(SCHEME, p.context, p.slot, st.payloadDigestHex);
  }

  /** The verdict is that of the first check that fails, in this order; a proof
      that passes them all convicts the key it names. */
  lemma VerdictIs(crypto: Crypto, p: EquivocationProof)
    ensures Verify(crypto, p)
            == if p.scheme != "personhood-slot/v1" then Failure(BadScheme)
               else if !HasKey(crypto, p) then Failure(BadKey)
               else if !HasDigests(p) then Failure(BadDigest)
               else if p.first.payloadDigestHex == p.second.payloadDigestHex then Failure(SamePayload)
               else if !(PrintableField(p.context) && PrintableField(p.slot)) then Failure(BadField)
               else if !BothSigned(crypto, p) then Failure(BadSignature)
               else Success(crypto.decodeB64(p.holderPublicKeyB64).value)
  {
    PayloadDigestIff(p.first);
    PayloadDigestIff(p.second);
    if HasKey(crypto, p) && HasDigests(p) {
      var pub := crypto.decodeB64(p.holderPublicKeyB64).value;
      var d0, d1 := PayloadDigest(p.first).value, PayloadDigest(p.second).value;
      StatementErrorIs(crypto, pub, p, p.first, d0);
      StatementErrorIs(crypto, pub, p, p.second, d1);
    }
  }

  /** A key is convicted exactly by two signatures of its own over two different
      payloads for one printable slot. */
  lemma ConvictedIff(crypto: Crypto, p: EquivocationProof, pub: octets)
    ensures Verify(crypto, p) == Success(pub) <==>
      && p.scheme == "personhood-slot/v1"
      && crypto.decodeB64(p.holderPublicKeyB64) == Some(pub) && |pub| == 32
      && HexDigest(p.first.payloadDigestHex) && HexDigest(p.second.payloadDigestHex)
      && p.first.payloadDigestHex != p.second.payloadDigestHex
      && PrintableField(p.context) && PrintableField(p.slot)
      && Signed(crypto, pub, p, p.first) && Signed(crypto, pub, p, p.second)
  {
    VerdictIs(crypto, p);
  }

  // --- The canonical digest ----------------------------------------------------

  function SortPair(a: string, b: string): (string, string) {
    if Less(b, a) then (b, a) else (a, b)
  }

  function EvidenceLines(pub: octets, p: EquivocationProof): seq<string> {
    var (a, b) := SortPair(p.first.payloadDigestHex, p.second.payloadDigestHex);
    [EVIDENCE_TAG, HexEncode(pub), p.context, p.slot, a, b]
  }

  function EquivocationDigest(pub: octets, p: EquivocationProof): Evidence {
    Sha256(Join(EvidenceLines(pub, p)))
  }

  function Swapped(p: EquivocationProof): EquivocationProof {
    p.(first := p.second, second := p.first)
  }

  /** Two proofs of one act: the same key signed the same two payloads for one slot. */
  ghost predicate SameDoubleSign(pub: octets, p: EquivocationProof, pub': octets, q: EquivocationProof) {
    && pub == pub' && p.context == q.context && p.slot == q.slot
    && {p.first.payloadDigestHex, p.second.payloadDigestHex} == {q.first.payloadDigestHex, q.second.payloadDigestHex}
  }

  ghost predicate OneLine(s: string) {
    '\n' !in s
  }

  /** Everything before the first line break. */
  lemma {:induction false} FirstLine(a: string, s: string, b: string, t: string)
    requires OneLine(a) && OneLine(b) && a + "\n" + s == b + "\n" + t
    ensures a == b && s == t
  {
    var x, y := a + "\n" + s, b + "\n" + t;
    assert x[0] == (if a == "" then '\n' else a[0]) && y[0] == (if b == "" then '\n' else b[0]);
    if a != "" && b != "" {
      assert x[1..] == a[1..] + "\n" + s && y[1..] == b[1..] + "\n" + t;
      FirstLine(a[1..], s, b[1..], t);
    } else {
      assert s == x[1..] && t == y[1..];
    }
  }

  /** Texts joined from equally many one-line fields have equal fields. */
  lemma {:induction false} JoinInjective(a: seq<string>, b: seq<string>)
    requires |a| == |b| && Join(a) == Join(b)
    requires forall i :: 0 <= i < |a| ==> OneLine(a[i]) && OneLine(b[i])
    ensures a == b
  {
    if |a| > 1 {
      FirstLine(a[0], Join(a[1..]), b[0], Join(b[1..]));
      JoinInjective(a[1..], b[1..]);
      assert a == [a[0]] + a[1..] && b == [b[0]] + b[1..];
    }
  }

  lemma PrintableIsOneLine(s: string)
    requires Printable(s)
    ensures OneLine(s)
  {}

  lemma TagsAreOneLine()
    ensures OneLine(SCHEME) && OneLine(EVIDENCE_TAG)
  {}

  /** The digest of a statement that Verify accepted is 64 characters of printable hex. */
  lemma DigestIsOneLine(st: SlotStatement)
    requires PayloadDigest(st).Some?
    ensures OneLine(st.payloadDigestHex)
    ensures HexEncode(PayloadDigest(st).value) == st.payloadDigestHex
  {
    LowerHexRoundTrip(st.payloadDigestHex);
    HexRoundTrip(PayloadDigest(st).value);
    PrintableIsOneLine(st.payloadDigestHex);
  }

  /** What a holder signs determines the context, the slot and the payload. */
  lemma MessageUnambiguous(context: string, slot: string, digest: octets, context': string, slot': string,
                           digest': octets)
    requires SlotStatementMessage(context, slot, digest).Success?
    requires SlotStatementMessage(context, slot, digest) == SlotStatementMessage(context', slot', digest')
    ensures context == context' && slot == slot' && digest == digest'
  {
    HexRoundTrip(digest);
    HexRoundTrip(digest');
    TagsAreOneLine();
    PrintableIsOneLine(context);
    PrintableIsOneLine(slot);
    PrintableIsOneLine(context');
    PrintableIsOneLine(slot');
    PrintableIsOneLine(HexEncode(digest));
    PrintableIsOneLine(HexEncode(digest'));
    var a, b := [SCHEME, context, slot, HexEncode(digest)], [SCHEME, context', slot', HexEncode(digest')];
    JoinInjective(a, b);
    assert a[1] == b[1] && a[2] == b[2] && a[3] == b[3];
  }

  /** The order of the two statements does not matter to the verdict or the digest. */
  lemma SwapChangesNothing(crypto: Crypto, p: EquivocationProof)
    requires Verify(crypto, p).Success?
    ensures Verify(crypto, Swapped(p)) == Verify(crypto, p)
    ensures forall pub :: EquivocationDigest(pub, Swapped(p)) == EquivocationDigest(pub, p)
  {
    LessTotal(p.first.payloadDigestHex, p.second.payloadDigestHex);
  }

  lemma SortPairUnordered(a: string, b: string, c: string, d: string)
    ensures SortPair(a, b) == SortPair(c, d) <==> (a == c && b == d) || (a == d && b == c)
  {
    LessTotal(a, b);
    LessTotal(c, d);
  }

  lemma AcceptedFields(crypto: Crypto, p: EquivocationProof)
    requires Verify(crypto, p).Success?
    ensures OneLine(p.context) && OneLine(p.slot)
    ensures OneLine(p.first.payloadDigestHex) && OneLine(p.second.payloadDigestHex)
    ensures p.first.payloadDigestHex != p.second.payloadDigestHex
  {
    DigestIsOneLine(p.first);
    DigestIsOneLine(p.second);
    assert SlotField(p.context) && SlotField(p.slot);
    PrintableIsOneLine(p.context);
    PrintableIsOneLine(p.slot);
  }

  /** Accepted proofs share a digest exactly when they show the same double-sign. */
  lemma DigestNamesDoubleSign(crypto: Crypto, p: EquivocationProof, q: EquivocationProof)
    requires Verify(crypto, p).Success? && Verify(crypto, q).Success?
    ensures var pub, pub' := Verify(crypto, p).value, Verify(crypto, q).value;
            EquivocationDigest(pub, p) == EquivocationDigest(pub', q) <==> SameDoubleSign(pub, p, pub', q)
  {
    var pub, pub' := Verify(crypto, p).value, Verify(crypto, q).value;
    var x, y := EvidenceLines(pub, p), EvidenceLines(pub', q);
    EvidenceIsOneLine(crypto, p);
    EvidenceIsOneLine(crypto, q);
    HexRoundTrip(pub);
    HexRoundTrip(pub');
    SortPairUnordered(p.first.payloadDigestHex, p.second.payloadDigestHex,
                      q.first.payloadDigestHex, q.second.payloadDigestHex);
    if Join(x) == Join(y) {
      JoinInjective(x, y);
      assert x[1] == y[1] && x[2] == y[2] && x[3] == y[3] && x[4] == y[4] && x[5] == y[5];
    }
    UnorderedPair(p.first.payloadDigestHex, p.second.payloadDigestHex,
                  q.first.payloadDigestHex, q.second.payloadDigestHex);
  }

  lemma EvidenceIsOneLine(crypto: Crypto, p: EquivocationProof)
    requires Verify(crypto, p).Success?
    ensures p.first.payloadDigestHex != p.second.payloadDigestHex
    ensures var lines := EvidenceLines(Verify(crypto, p).value, p);
            |lines| == 6 && forall i :: 0 <= i < 6 ==> OneLine(lines[i])
  {
    AcceptedFields(crypto, p);
    EvidenceLinesOneLine(Verify(crypto, p).value, p);
  }

  lemma EvidenceLinesOneLine(pub: octets, p: EquivocationProof)
    requires OneLine(p.context) && OneLine(p.slot)
    requires OneLine(p.first.payloadDigestHex) && OneLine(p.second.payloadDigestHex)
    ensures var lines := EvidenceLines(pub, p);
            |lines| == 6 && forall i :: 0 <= i < 6 ==> OneLine(lines[i])
  {
    TagsAreOneLine();
    HexRoundTrip(pub);
    PrintableIsOneLine(HexEncode(pub));
  }

  lemma UnorderedPair(a: string, b: string, c: string, d: string)
    requires a != b
    ensures {a, b} == {c, d} <==> (a == c && b == d) || (a == d && b == c)
  {
    if {a, b} == {c, d} {
      assert a in {c, d} && b in {c, d} && c in {a, b} && d in {a, b};
    }
  }
}
