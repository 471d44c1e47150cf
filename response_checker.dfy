/**
 * The OCSP response check: a fixed, fail-fast sequence of steps.
 *   1. the top-level responseStatus must be successful(0);
 *   2. the basic response must be obtainable;
 *   3. the nonce extension must be present, unwrap in two passes and equal the
 *      caller's nonce byte for byte;
 *   4. the first embedded certificate is the signer;
 *   5. the signer's certification path is validated (an external validator);
 *   6. the response signature is verified with the signer's public key (an
 *      external verifier);
 *   7. every single response is classified into a map keyed by serial number.
 * The two external collaborators are parameters. Each invocation of one is
 * recorded, in order, as a `Call`.
 */
module ResponseChecker {
  import opened Wrappers
  import opened Der
  import opened NonceCodec
  import opened OcspTypes
  import opened StatusMapper

  /** successful(0), the OCSPResponseStatus of section 4.2.1 of RFC 6960. */
  const Successful: int := 0

  /** Why the certification path of the signer was rejected. */
  datatype PathError = CertPathInvalid(message: string) | CertificateInvalid(message: string)

  /** What the path validator reports for one certificate. */
  datatype PathOutcome = PathValid | PathRejected(cause: PathError)

  /** What signature verification reports: a verdict, or a failure of the provider. */
  datatype VerifyOutcome = SignatureValid | SignatureInvalid | VerifierError

  /** An invocation of an external collaborator. */
  datatype Call = ValidatePath(cert: Certificate) | VerifySignature(basic: BasicResp, key: PublicKey)

  /** One kind per way the check can stop. */
  datatype CheckError =
    | UnsuccessfulStatus(status: int)
    | ResponseObjectUnavailable
    | NonceMissing
    | NonceMalformed
    | NonceMismatch(expected: seq<byte>, received: seq<byte>)
    | CertificatesUnavailable
    | NoSignerCertificate
    | SignerUntrusted(cause: PathError)
    | SignatureRejected
    | VerificationFailed

  /** The three ways the nonce step can fail. */
  predicate IsNonceError(e: CheckError) {
    e.NonceMissing? || e.NonceMalformed? || e.NonceMismatch?
  }

  /** The failures of the steps that come before the signer is chosen. */
  predicate FailsBeforeSigner(e: CheckError) {
    || e.UnsuccessfulStatus? || e.ResponseObjectUnavailable? || IsNonceError(e)
    || e.CertificatesUnavailable? || e.NoSignerCertificate?
  }

  /** The result of a check and the collaborator calls it made. */
  datatype Outcome = Outcome(result: Result<ValidationResult, CheckError>, calls: seq<Call>)

  /** The check, as a function of the response, the caller's nonce and the two collaborators. */
  function Check(response: OcspResp, nonce: seq<byte>,
                 validate: Certificate -> PathOutcome,
                 verify: (BasicResp, PublicKey) -> VerifyOutcome): (o: Outcome)
    ensures |o.calls| <= 2
    ensures o.result.Success? ==> |o.calls| == 2
    ensures o.result.Success? ==> o.result.value.response == response
    ensures o.result.Success? ==> response.body.BasicBody?
                                  && o.result.value.statuses.Keys == Serials(response.body.basic.responses)
    ensures o.result.Failure? && FailsBeforeSigner(o.result.error) ==> o.calls == []
  {
    if response.status != Successful then Outcome(Failure(UnsuccessfulStatus(response.status)), [])
    else if response.body.UnreadableBody? then Outcome(Failure(ResponseObjectUnavailable), [])
    else
      var brep := response.body.basic;
      if NonceOid !in brep.extensions then Outcome(Failure(NonceMissing), [])
      else
        var received := UnwrapNonce(brep.extensions[NonceOid]);
        if received.None? then Outcome(Failure(NonceMalformed), [])
        else if received.value != nonce then Outcome(Failure(NonceMismatch(nonce, received.value)), [])
        else if brep.certs.None? then Outcome(Failure(CertificatesUnavailable), [])
        else if |brep.certs.value| == 0 then Outcome(Failure(NoSignerCertificate), [])
        else
          var signer := brep.certs.value[0];
          var path := validate(signer);
          if path.PathRejected? then Outcome(Failure(SignerUntrusted(path.cause)), [ValidatePath(signer)])
          else
            var calls := [ValidatePath(signer), VerifySignature(brep, signer.publicKey)];
            var verdict := verify(brep, signer.publicKey);
            if verdict.VerifierError? then Outcome(Failure(VerificationFailed), calls)
            else if verdict.SignatureInvalid? then Outcome(Failure(SignatureRejected), calls)
            else Outcome(Success(ValidationResult(response, StatusMap(brep.responses))), calls)
  }

  /** The response is checked: ordered, fail-fast, returning the first failure. */
  method CheckResponse(response: OcspResp, nonce: seq<byte>,
                       validate: Certificate -> PathOutcome,
                       verify: (BasicResp, PublicKey) -> VerifyOutcome)
    returns (result: Result<ValidationResult, CheckError>, calls: seq<Call>)
    ensures Outcome(result, calls) == Check(response, nonce, validate, verify)
  {
    calls := [];
    if response.status != Successful {
      return Failure(UnsuccessfulStatus(response.status)), calls;
    }
    if response.body.UnreadableBody? {
      return Failure(ResponseObjectUnavailable), calls;
    }
    var brep := response.body.basic;

    if NonceOid !in brep.extensions {
      return Failure(NonceMissing), calls;
    }
    var received := UnwrapNonce(brep.extensions[NonceOid]);
    if received.None? {
      return Failure(NonceMalformed), calls;
    }
    if received.value != nonce {
      return Failure(NonceMismatch(nonce, received.value)), calls;
    }

    if brep.certs.None? {
      return Failure(CertificatesUnavailable), calls;
    }
    if |brep.certs.value| == 0 {
      return Failure(NoSignerCertificate), calls;
    }
    var signer := brep.certs.value[0];

    calls := calls + [ValidatePath(signer)];
    var path := validate(signer);
    if path.PathRejected? {
      return Failure(SignerUntrusted(path.cause)), calls;
    }

    calls := calls + [VerifySignature(brep, signer.publicKey)];
    var verdict := verify(brep, signer.publicKey);
    if verdict.VerifierError? {
      return Failure(VerificationFailed), calls;
    }
    if verdict.SignatureInvalid? {
      return Failure(SignatureRejected), calls;
    }

    var statuses := BuildStatuses(brep.responses);
    result := Success(ValidationResult(response, statuses));
  }

  /** The nonce the response carries: present, unwrapped in two passes, and equal to `nonce`. */
  ghost predicate NonceMatches(brep: BasicResp, nonce: seq<byte>) {
    NonceOid in brep.extensions && UnwrapNonce(brep.extensions[NonceOid]) == Some(nonce)
  }

  /** Every check passes: the conjunction of the seven conditions, independent of their order. */
  ghost predicate AllChecksPass(response: OcspResp, nonce: seq<byte>,
                                validate: Certificate -> PathOutcome,
                                verify: (BasicResp, PublicKey) -> VerifyOutcome)
  {
    && response.status == Successful
    && response.body.BasicBody?
    && NonceMatches(response.body.basic, nonce)
    && response.body.basic.certs.Some?
    && |response.body.basic.certs.value| > 0
    && validate(response.body.basic.certs.value[0]).PathValid?
    && verify(response.body.basic, response.body.basic.certs.value[0].publicKey).SignatureValid?
  }

  /**
   * A result exists exactly when every check passes; it wraps the response that was
   * checked and its status map, and the path was validated before the signature was
   * verified, both for the first embedded certificate.
   */
  lemma SuccessIffAllChecksPass(response: OcspResp, nonce: seq<byte>,
                                validate: Certificate -> PathOutcome,
                                verify: (BasicResp, PublicKey) -> VerifyOutcome)
    ensures Check(response, nonce, validate, verify).result.Success?
            <==> AllChecksPass(response, nonce, validate, verify)
    ensures Check(response, nonce, validate, verify).result.Success? ==>
              var brep := response.body.basic;
              var signer := brep.certs.value[0];
              && Check(response, nonce, validate, verify).result.value
                 == ValidationResult(response, StatusMap(brep.responses))
              && Check(response, nonce, validate, verify).calls
                 == [ValidatePath(signer), VerifySignature(brep, signer.publicKey)]
  {
  }

  /**
   * A response whose status is not successful fails with that status, makes no
   * collaborator call, and its body, the nonce and the collaborators make no difference.
   */
  lemma StatusGateComesFirst(response: OcspResp, body: ResponseBody, nonce: seq<byte>, otherNonce: seq<byte>,
                             validate: Certificate -> PathOutcome, otherValidate: Certificate -> PathOutcome,
                             verify: (BasicResp, PublicKey) -> VerifyOutcome,
                             otherVerify: (BasicResp, PublicKey) -> VerifyOutcome)
    requires response.status != Successful
    ensures Check(response, nonce, validate, verify) == Outcome(Failure(UnsuccessfulStatus(response.status)), [])
    ensures Check(response.(body := body), otherNonce, otherValidate, otherVerify)
            == Check(response, nonce, validate, verify)
  {
  }

  /** A missing nonce extension is a nonce failure, whatever the signature and the path. */
  lemma MissingNonceFails(response: OcspResp, nonce: seq<byte>,
                          validate: Certificate -> PathOutcome,
                          verify: (BasicResp, PublicKey) -> VerifyOutcome)
    requires response.status == Successful && response.body.BasicBody?
    requires NonceOid !in response.body.basic.extensions
    ensures Check(response, nonce, validate, verify) == Outcome(Failure(NonceMissing), [])
  {
  }

  /** A successful status whose response object cannot be obtained fails with that kind, before any call. */
  lemma UnreadableBodyFails(response: OcspResp, nonce: seq<byte>,
                            validate: Certificate -> PathOutcome,
                            verify: (BasicResp, PublicKey) -> VerifyOutcome)
    requires response.status == Successful && response.body.UnreadableBody?
    ensures Check(response, nonce, validate, verify) == Outcome(Failure(ResponseObjectUnavailable), [])
  {
  }

  /**
   * After the nonce matched, undecodable embedded certificates and an empty
   * certificate list fail with their own kinds, before any call.
   */
  lemma MissingSignerFails(response: OcspResp, nonce: seq<byte>,
                           validate: Certificate -> PathOutcome,
                           verify: (BasicResp, PublicKey) -> VerifyOutcome)
    requires response.status == Successful && response.body.BasicBody?
    requires NonceMatches(response.body.basic, nonce)
    requires response.body.basic.certs.None? || |response.body.basic.certs.value| == 0
    ensures Check(response, nonce, validate, verify)
            == Outcome(Failure(if response.body.basic.certs.None? then CertificatesUnavailable
                               else NoSignerCertificate), [])
  {
  }

  /**
   * With a successful status and a readable body, the check gets past the nonce step
   * (to a collaborator call, or to a certificate error) exactly when the doubly
   * unwrapped nonce equals the caller's; otherwise the failure names the nonce
   * problem and no collaborator is called.
   */
  lemma NonceDecidesProgress(response: OcspResp, nonce: seq<byte>,
                             validate: Certificate -> PathOutcome,
                             verify: (BasicResp, PublicKey) -> VerifyOutcome)
    requires response.status == Successful && response.body.BasicBody?
    ensures var o := Check(response, nonce, validate, verify);
            var brep := response.body.basic;
            && (NonceMatches(brep, nonce) <==> !(o.result.Failure? && IsNonceError(o.result.error)))
            && ((NonceOid in brep.extensions && UnwrapNonce(brep.extensions[NonceOid]).None?)
                ==> o == Outcome(Failure(NonceMalformed), []))
            && ((NonceOid in brep.extensions && UnwrapNonce(brep.extensions[NonceOid]).Some?
                 && UnwrapNonce(brep.extensions[NonceOid]).value != nonce)
                ==> o == Outcome(Failure(NonceMismatch(nonce, UnwrapNonce(brep.extensions[NonceOid]).value)), []))
  {
  }

  /**
   * A rejected certification path is propagated with its cause; only the path
   * validator was called, and the signature verifier makes no difference.
   */
  lemma PathRejectionSkipsVerification(response: OcspResp, nonce: seq<byte>,
                                       validate: Certificate -> PathOutcome,
                                       verify: (BasicResp, PublicKey) -> VerifyOutcome,
                                       otherVerify: (BasicResp, PublicKey) -> VerifyOutcome)
    requires response.status == Successful && response.body.BasicBody?
    requires NonceMatches(response.body.basic, nonce)
    requires response.body.basic.certs.Some? && |response.body.basic.certs.value| > 0
    requires validate(response.body.basic.certs.value[0]).PathRejected?
    ensures var signer := response.body.basic.certs.value[0];
            Check(response, nonce, validate, verify)
            == Outcome(Failure(SignerUntrusted(validate(signer).cause)), [ValidatePath(signer)])
    ensures Check(response, nonce, validate, otherVerify) == Check(response, nonce, validate, verify)
  {
  }

  /**
   * The collaborator calls are always a prefix of "validate the first certificate's
   * path, then verify with its key", and they happen only once the status, the body
   * and the nonce have passed. Verification is called only after the path was accepted.
   */
  lemma CallsFollowPipelineOrder(response: OcspResp, nonce: seq<byte>,
                                 validate: Certificate -> PathOutcome,
                                 verify: (BasicResp, PublicKey) -> VerifyOutcome)
    ensures var o := Check(response, nonce, validate, verify);
            o.calls != [] ==>
              && response.status == Successful
              && response.body.BasicBody?
              && NonceMatches(response.body.basic, nonce)
              && response.body.basic.certs.Some? && |response.body.basic.certs.value| > 0
              && var signer := response.body.basic.certs.value[0];
                 && (o.calls == [ValidatePath(signer)]
                     || o.calls == [ValidatePath(signer), VerifySignature(response.body.basic, signer.publicKey)])
                 && (|o.calls| == 2 ==> validate(signer).PathValid?)
    ensures var o := Check(response, nonce, validate, verify);
            forall i :: 0 <= i < |o.calls| && o.calls[i].VerifySignature? ==>
              0 < i && o.calls[i - 1].ValidatePath? && validate(o.calls[i - 1].cert).PathValid?
              && o.calls[i].key == o.calls[i - 1].cert.publicKey
  {
  }

  /** A negative verdict or a verifier failure stops the check after both calls. */
  lemma SignatureFailureFails(response: OcspResp, nonce: seq<byte>,
                              validate: Certificate -> PathOutcome,
                              verify: (BasicResp, PublicKey) -> VerifyOutcome)
    requires response.status == Successful && response.body.BasicBody?
    requires NonceMatches(response.body.basic, nonce)
    requires response.body.basic.certs.Some? && |response.body.basic.certs.value| > 0
    requires validate(response.body.basic.certs.value[0]).PathValid?
    requires !verify(response.body.basic, response.body.basic.certs.value[0].publicKey).SignatureValid?
    ensures var o := Check(response, nonce, validate, verify);
            var signer := response.body.basic.certs.value[0];
            && o.result == Failure(if verify(response.body.basic, signer.publicKey).SignatureInvalid?
                                   then SignatureRejected else VerificationFailed)
            && o.calls == [ValidatePath(signer), VerifySignature(response.body.basic, signer.publicKey)]
  {
  }
}
