/**
 * The OCSP objects the checker consumes (RFC 6960), reduced to what the checker
 * reads from them, and the status record it produces.
 */
module OcspTypes {
  import opened Wrappers
  import opened Der

  /** A point in time, as milliseconds since the epoch (a `java.util.Date`). */
  datatype Instant = Instant(millis: int)

  /** A certificate serial number (a `BigInteger`). */
  type Serial = int

  /** Identifies the certificate a single response is about (CertID, RFC 6960 section 4.1.1). */
  datatype CertId = CertId(
    hashAlgorithm: string,
    issuerNameHash: seq<byte>,
    issuerKeyHash: seq<byte>,
    serialNumber: Serial)

  /**
   * The per-certificate status object as the OCSP library reports it: `null` for
   * good, a `RevokedStatus` (with an optional CRL reason code), or an `UnknownStatus`.
   */
  datatype CertStatus =
    | NoStatus
    | RevokedStatus(revocationTime: Instant, revocationReason: Option<int>)
    | UnknownStatus

  /** One SingleResponse: a certificate, its status and its validity window. */
  datatype SingleResp = SingleResp(
    certId: CertId,
    certStatus: CertStatus,
    thisUpdate: Instant,
    nextUpdate: Option<Instant>)

  datatype PublicKey = PublicKey(encoded: seq<byte>)

  /** An embedded certificate, as far as the checker uses it. */
  datatype Certificate = Certificate(encoded: seq<byte>, publicKey: PublicKey)

  /**
   * A BasicOCSPResponse. `extensions` maps an extension's object identifier to the
   * DER encoding of its extnValue OCTET STRING. `certs` is `None` when the embedded
   * certificates cannot be decoded.
   */
  datatype BasicResp = BasicResp(
    extensions: map<string, seq<byte>>,
    certs: Option<seq<Certificate>>,
    responses: seq<SingleResp>,
    signature: seq<byte>)

  /** The response object inside an OCSPResponse, or a failure to obtain it. */
  datatype ResponseBody = BasicBody(basic: BasicResp) | UnreadableBody

  /** An OCSPResponse: the responseStatus code (RFC 6960 section 4.2.1) and its body. */
  datatype OcspResp = OcspResp(status: int, body: ResponseBody)

  /** The status reported for one serial number. */
  datatype StatusInfo =
    | Good
    | Revoked(revocationTime: Instant, reason: int)
    | Unknown

  /** What the checker returns: the response it checked and the statuses by serial number. */
  datatype ValidationResult = ValidationResult(response: OcspResp, statuses: map<Serial, StatusInfo>)
}
