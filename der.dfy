/**
 * A minimal DER codec for one ASN.1 OCTET STRING (X.690 sections 8.1 and 8.7):
 * identifier octet 0x04, a definite length, then the content octets.
 * Decoding reads the first object of the input and ignores what follows it,
 * as a stream parser that is asked for one object does.
 */
module Der {
  import opened Wrappers

  newtype byte = x: int | 0 <= x < 256

  /** Universal class, primitive, tag number 4 (X.690 section 8.7). */
  const OctetStringTag: byte := 0x04

  /** A length field may use at most four subsequent octets ... */
  const MaxLengthOctets: nat := 4

  /** ... and its value must fit a signed 32-bit integer. */
  const MaxLength: nat := 0x8000_0000

  /** The unsigned big-endian value of a sequence of octets. */
  function BigEndian(s: seq<byte>): nat {
    if s == [] then 0 else BigEndian(s[..|s| - 1]) * 256 + s[|s| - 1] as nat
  }

  lemma BigEndianSnoc(s: seq<byte>, b: byte)
    ensures BigEndian(s + [b]) == BigEndian(s) * 256 + b as nat
  {
  }

  /** The shortest big-endian octets that denote `n`. */
  function MinimalOctets(n: nat): (r: seq<byte>)
    ensures 1 <= |r|
    ensures BigEndian(r) == n
    ensures n < 0x100 ==> |r| == 1
    ensures n < 0x1_0000 ==> |r| <= 2
    ensures n < 0x100_0000 ==> |r| <= 3
    ensures n < 0x1_0000_0000 ==> |r| <= 4
    decreases n
  {
    if n < 256 then [n as byte]
    else
      var high := MinimalOctets(n / 256);
      BigEndianSnoc(high, (n % 256) as byte);
      high + [(n % 256) as byte]
  }

  /**
   * Reads the length field at the start of `s`. `Some((n, k))` means the content
   * has `n` octets and the length field itself took `k` octets. The short form is
   * one octet below 0x80; the long form is 0x80 + k followed by k octets. The
   * indefinite form (0x80 alone), more than four length octets, a field cut short
   * and a value of 2^31 or more are all failures.
   */
  function ReadLength(s: seq<byte>): (r: Option<(nat, nat)>)
    ensures r.Some? ==> 1 <= r.value.1 <= |s| && r.value.1 <= 1 + MaxLengthOctets
    ensures r.Some? ==> r.value.0 < MaxLength
    ensures |s| > 0 && s[0] < 0x80 ==> r == Some((s[0] as nat, 1))
  {
    if |s| == 0 then None
    else if s[0] < 0x80 then Some((s[0] as nat, 1))
    else
      var k := (s[0] - 0x80) as nat;
      if k == 0 || k > MaxLengthOctets || |s| < 1 + k then None
      else
        var n := BigEndian(s[1..1 + k]);
        if n >= MaxLength then None else Some((n, 1 + k))
  }

  /**
   * Decodes the OCTET STRING at the start of `s` and returns its content octets.
   * Anything that is not a complete primitive OCTET STRING there is a failure.
   */
  function DecodeOctetString(s: seq<byte>): (r: Option<seq<byte>>)
    ensures r.Some? ==> |s| >= 2 && s[0] == OctetStringTag && |r.value| + 2 <= |s|
  {
    if |s| == 0 || s[0] != OctetStringTag then None
    else match ReadLength(s[1..])
      case None => None
      case Some((n, k)) =>
        if 1 + k + n > |s| then None else Some(s[1 + k .. 1 + k + n])
  }

  /** The DER length field for `n`: short form below 0x80, minimal long form otherwise. */
  function EncodeLength(n: nat): (r: seq<byte>)
    requires n < MaxLength
    ensures 1 <= |r| <= 1 + MaxLengthOctets
    ensures ReadLength(r) == Some((n, |r|))
  {
    if n < 0x80 then [n as byte]
    else
      var octets := MinimalOctets(n);
      var r := [(0x80 + |octets|) as byte] + octets;
      assert r[1..1 + |octets|] == octets;
      r
  }

  /** The DER encoding of an OCTET STRING whose content is `content`. */
  function EncodeOctetString(content: seq<byte>): (r: seq<byte>)
    requires |content| < MaxLength
    ensures |content| + 2 <= |r| <= |content| + 2 + MaxLengthOctets
    ensures r[0] == OctetStringTag
  {
    [OctetStringTag] + EncodeLength(|content|) + content
  }

  /** Decoding inverts encoding, whatever bytes follow the encoded object. */
  lemma DecodeEncode(content: seq<byte>, trailing: seq<byte>)
    requires |content| < MaxLength
    ensures DecodeOctetString(EncodeOctetString(content) + trailing) == Some(content)
  {
    var len := EncodeLength(|content|);
    var s := EncodeOctetString(content) + trailing;
    assert s == [OctetStringTag] + len + content + trailing;
    assert s[1..][..|len|] == len;
    ReadLengthPrefix(len, s[1..]);
    assert s[1 + |len| .. 1 + |len| + |content|] == content;
  }

  /** A complete length field is read from its own octets only, not from what follows. */
  lemma ReadLengthPrefix(field: seq<byte>, s: seq<byte>)
    requires ReadLength(field).Some? && ReadLength(field).value.1 == |field|
    requires |field| <= |s| && s[..|field|] == field
    ensures ReadLength(s) == ReadLength(field)
  {
    if field[0] >= 0x80 {
      assert s[1..|field|] == field[1..|field|];
    }
  }

  /** Only identifier octet 0x04 is accepted. */
  lemma DecodeRequiresOctetStringTag(s: seq<byte>)
    requires |s| > 0 && s[0] != OctetStringTag
    ensures DecodeOctetString(s) == None
  {
  }
}
