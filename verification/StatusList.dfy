/** The W3C status list bitstring (src/credential/status.go): bit i is the
    (i mod 8)-th bit from the left of byte i / 8, as section 2.2 of the W3C
    Bitstring Status List requires. */
module StatusList {
  import opened Bits
  import opened Wrappers

  datatype SetError = NegativeIndex | OutOfRange

  class BitString {
    var bytes: array<byte>

    constructor (bits: int)
      ensures fresh(bytes) && bytes.Length == if bits < 0 then 0 else (bits + 7) / 8
      ensures forall i: nat :: !BitAt(bytes[..], i)
    {
      var n := if bits < 0 then 0 else (bits + 7) / 8;
      bytes := new byte[n](_ => 0);
    }

    function BitLen(): nat
      reads this
    {
      bytes.Length * 8
    }

    /** False for any index outside the list. */
    method Get(i: int) returns (set_: bool)
      ensures set_ <==> 0 <= i && BitAt(bytes[..], i)
    {
      if i < 0 {
        return false;
      }
      var byteIdx := i / 8;
      if byteIdx >= bytes.Length {
        return false;
      }
      GetByMask(bytes[..], i);
      return bytes[byteIdx] & (0x80 >> (i % 8)) != 0;
    }

    method Set(i: int) returns (err: Option<SetError>)
      modifies bytes
      ensures err.None? <==> 0 <= i < BitLen()
      ensures err.Some? ==> bytes[..] == old(bytes[..])
      ensures err.None? ==> forall k: nat :: BitAt(bytes[..], k) <==> old(BitAt(bytes[..], k)) || k == i
    {
      if i < 0 {
        return Some(NegativeIndex);
      }
      var byteIdx := i / 8;
      if byteIdx >= bytes.Length {
        return Some(OutOfRange);
      }
      SetByMask(bytes[..], i);
      ghost var before := bytes[..];
      bytes[byteIdx] := bytes[byteIdx] | (0x80 >> (i % 8));
      assert bytes[..] == before[i / 8 := before[i / 8] | (0x80 >> (i % 8))];
      err := None;
    }
  }

  /** handleStatusList: publish a bit per revoked slot. Every slot inside the
      list is accepted, and a bit is set exactly for the revoked slots. */
  method Publish(revoked: seq<int>, size: nat) returns (r: Result<BitString, SetError>)
    requires size % 8 == 0
    ensures r.Success? <==> forall k :: 0 <= k < |revoked| ==> 0 <= revoked[k] < size
    ensures r.Success? ==> fresh(r.value) && r.value.BitLen() == size
    ensures r.Success? ==> forall i: nat :: BitAt(r.value.bytes[..], i) <==> i in revoked
  {
    var bits := new BitString(size);
    for k := 0 to |revoked|
      invariant bits.bytes.Length * 8 == size && fresh(bits.bytes)
      invariant forall j :: 0 <= j < k ==> 0 <= revoked[j] < size
      invariant forall i: nat :: BitAt(bits.bytes[..], i) <==> i in revoked[..k]
    {
      assert revoked[..k + 1] == revoked[..k] + [revoked[k]];
      var err := bits.Set(revoked[k]);
      if err.Some? {
        return Failure(err.value);
      }
    }
    assert revoked[..|revoked|] == revoked;
    r := Success(bits);
  }
}
