/** End-to-end scenarios, each a lemma about `Check` on concrete inputs with a nonce of three octets. */
module Scenarios {
  import opened Wrappers
  import opened Der
  import opened NonceCodec
  import opened OcspTypes
  import opened ResponseChecker

  /** The nonce the caller sent: 0xA1B2C3. */
  const SentNonce: seq<byte> := [0xA1, 0xB2, 0xC3]

  /** extnValue as a responder encodes 0xA1B2C3 and 0xFFFFFF: OCTET STRING { OCTET STRING { nonce } }. */
  const EchoedExtension: seq<byte> := [0x04, 0x05, 0x04, 0x03, 0xA1, 0xB2, 0xC3]
  const ForeignExtension: seq<byte> := [0x04, 0x05, 0x04, 0x03, 0xFF, 0xFF, 0xFF]

  function Response(extension: seq<byte>, signer: Certificate, entries: seq<SingleResp>): OcspResp {
    OcspResp(Successful, BasicBody(BasicResp(map[NonceOid := extension], Some([signer]), entries, [])))
  }

  function Entry(serial: Serial, status: CertStatus): SingleResp {
    SingleResp(CertId("1.3.14.3.2.26", [], [], serial), status, Instant(0), None)
  }

  /** A: everything passes; the one good entry is the one map entry. */
  lemma ScenarioMatchingNonce(signer: Certificate, serial: Serial)
    ensures var o := Check(Response(EchoedExtension, signer, [Entry(serial, NoStatus)]), SentNonce,
                           _ => PathValid, (_, _) => SignatureValid);
            o.result.Success? && o.result.value.statuses == map[serial := Good]
  {
    assert EchoedExtension[2..7] == [0x04, 0x03, 0xA1, 0xB2, 0xC3];
    assert EchoedExtension[2..7][2..5] == SentNonce;
  }

  /** B: the echoed nonce differs; the check stops at the nonce step with both values. */
  lemma ScenarioForeignNonce(signer: Certificate, serial: Serial)
    ensures Check(Response(ForeignExtension, signer, [Entry(serial, NoStatus)]), SentNonce,
                  _ => PathValid, (_, _) => SignatureValid)
            == Outcome(Failure(NonceMismatch(SentNonce, [0xFF, 0xFF, 0xFF])), [])
  {
    assert ForeignExtension[2..7] == [0x04, 0x03, 0xFF, 0xFF, 0xFF];
    assert ForeignExtension[2..7][2..5] == [0xFF, 0xFF, 0xFF];
  }

  /** C: the signer's path is rejected; the verifier is never called. */
  lemma ScenarioUntrustedSigner(signer: Certificate, serial: Serial, cause: PathError)
    ensures Check(Response(EchoedExtension, signer, [Entry(serial, NoStatus)]), SentNonce,
                  _ => PathRejected(cause), (_, _) => SignatureValid)
            == Outcome(Failure(SignerUntrusted(cause)), [ValidatePath(signer)])
  {
    assert EchoedExtension[2..7] == [0x04, 0x03, 0xA1, 0xB2, 0xC3];
    assert EchoedExtension[2..7][2..5] == SentNonce;
  }

  /** D: two entries share a serial number; the map keeps the later one. */
  lemma ScenarioDuplicateSerial(signer: Certificate, serial: Serial, time: Instant)
    ensures var o := Check(Response(EchoedExtension, signer,
                                    [Entry(serial, NoStatus), Entry(serial, RevokedStatus(time, Some(5)))]),
                           SentNonce, _ => PathValid, (_, _) => SignatureValid);
            o.result.Success? && o.result.value.statuses == map[serial := Revoked(time, 5)]
  {
    assert EchoedExtension[2..7] == [0x04, 0x03, 0xA1, 0xB2, 0xC3];
    assert EchoedExtension[2..7][2..5] == SentNonce;
  }
}
