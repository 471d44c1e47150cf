/**
 * The OCSP nonce extension (section 4.4.1 of RFC 6960). The value a basic response
 * hands out for an extension is the DER encoding of its extnValue OCTET STRING, and
 * the content of that OCTET STRING is itself an OCTET STRING holding the nonce. So
 * the received nonce is found by two nested decode passes.
 */
module NonceCodec {
  import opened Wrappers
  import opened Der

  /** id-pkix-ocsp-nonce, the object identifier 1.3.6.1.5.5.7.48.1.2. */
  const NonceOid: string := "1.3.6.1.5.5.7.48.1.2"

  /** Outer pass, then inner pass; a failure of either is a failure. */
  function UnwrapNonce(extensionValue: seq<byte>): (r: Option<seq<byte>>)
    ensures r.Some? ==> DecodeOctetString(extensionValue).Some?
    ensures r.Some? ==> |r.value| + 4 <= |extensionValue|
  {
    match DecodeOctetString(extensionValue)
    case None => None
    case Some(inner) => DecodeOctetString(inner)
  }

  /** How a responder encodes a nonce into the value of the nonce extension. */
  function WrapNonce(nonce: seq<byte>): (r: seq<byte>)
    requires |nonce| < MaxLength - 2 - MaxLengthOctets
    ensures |r| >= |nonce| + 4
  {
    EncodeOctetString(EncodeOctetString(nonce))
  }

  /** The two passes recover the nonce from a doubly wrapped value. */
  lemma UnwrapWrap(nonce: seq<byte>, trailing: seq<byte>)
    requires |nonce| < MaxLength - 2 - MaxLengthOctets
    ensures UnwrapNonce(WrapNonce(nonce) + trailing) == Some(nonce)
  {
    var inner := EncodeOctetString(nonce);
    DecodeEncode(inner, trailing);
    DecodeEncode(nonce, []);
    assert inner + [] == inner;
  }

  /**
   * A singly wrapped value does not pass as a nonce: after the outer pass, the
   * second pass decodes the payload itself, so a payload that is not an OCTET
   * STRING encoding is a failure.
   */
  lemma SingleWrapIsDecodedAgain(payload: seq<byte>)
    requires |payload| < MaxLength
    ensures UnwrapNonce(EncodeOctetString(payload)) == DecodeOctetString(payload)
    ensures |payload| == 0 || payload[0] != OctetStringTag ==> UnwrapNonce(EncodeOctetString(payload)) == None
  {
    DecodeEncode(payload, []);
    assert EncodeOctetString(payload) + [] == EncodeOctetString(payload);
  }
}
