/** did:key identifiers for Ed25519 holder keys (src/server/did.go). */
module DidKey {
  import opened Wrappers
  import opened Radix
  import opened Base58

  const PUBLIC_KEY_SIZE: nat := 32
  const ED25519_MULTICODEC: seq<octet> := [0xed, 0x01]
  const PREFIX: string := "did:key:z"

  datatype DidError = BadKeyLength | NotDidKey | BadBase58(offset: nat) | BadDecodedLength | BadMulticodec

  function DIDKeyFromEd25519(pub: seq<octet>): Result<string, DidError> {
    if |pub| != PUBLIC_KEY_SIZE then Failure(BadKeyLength)
    else Success(PREFIX + Encode(ED25519_MULTICODEC + pub))
  }

  function Ed25519FromDIDKey(did: string): Result<seq<nat>, DidError> {
    if !(PREFIX <= did) then Failure(NotDidKey)
    else match Decode(did[|PREFIX|..])
      case Failure(i) => Failure(BadBase58(i))
      case Success(data) =>
        if |data| != |ED25519_MULTICODEC| + PUBLIC_KEY_SIZE then Failure(BadDecodedLength)
        else if data[0] != ED25519_MULTICODEC[0] || data[1] != ED25519_MULTICODEC[1] then Failure(BadMulticodec)
        else Success(data[2..])
  }

  /** A key survives the trip through its identifier. */
  lemma KeyRoundTrip(pub: seq<octet>)
    requires |pub| == PUBLIC_KEY_SIZE
    ensures DIDKeyFromEd25519(pub).Success?
    ensures Ed25519FromDIDKey(DIDKeyFromEd25519(pub).value) == Success(pub)
  {
    var data: seq<octet> := ED25519_MULTICODEC + pub;
    var did := PREFIX + Encode(data);
    assert did[|PREFIX|..] == Encode(data);
    DecodeEncode(data);
    assert data[2..] == pub;
  }

  /** An accepted identifier is the one spelling of the key it yields. */
  lemma IdentifierRoundTrip(did: string)
    requires Ed25519FromDIDKey(did).Success?
    ensures var pub := Ed25519FromDIDKey(did).value;
            |pub| == PUBLIC_KEY_SIZE && Digits(pub, 256) && DIDKeyFromEd25519(pub) == Success(did)
  {
    var tail := did[|PREFIX|..];
    EncodeDecode(tail);
    var data := Decode(tail).value;
    assert data == ED25519_MULTICODEC + data[2..];
    assert did == PREFIX + tail;
  }

  /** So identifiers and 32-byte keys correspond one to one: two keys never
      share an identifier and two accepted identifiers never share a key. */
  lemma OneToOne(a: seq<octet>, b: seq<octet>, s: string, t: string)
    ensures |a| == |b| == PUBLIC_KEY_SIZE && DIDKeyFromEd25519(a) == DIDKeyFromEd25519(b) ==> a == b
    ensures Ed25519FromDIDKey(s).Success? && Ed25519FromDIDKey(s) == Ed25519FromDIDKey(t) ==> s == t
  {
    if |a| == |b| == PUBLIC_KEY_SIZE && DIDKeyFromEd25519(a) == DIDKeyFromEd25519(b) {
      KeyRoundTrip(a);
      KeyRoundTrip(b);
    }
    if Ed25519FromDIDKey(s).Success? && Ed25519FromDIDKey(s) == Ed25519FromDIDKey(t) {
      IdentifierRoundTrip(s);
      IdentifierRoundTrip(t);
    }
  }
}
