# OCSP response checker, modelled in Dafny

This project models `KalkanOCSPResponseChecker.checkResponse` of the trusty library. That
method accepts an OCSP response (RFC 6960) only after a fixed sequence of checks:

1. the top-level responseStatus must be successful(0);
2. the basic response must be obtainable;
3. the nonce extension must be present, and its value must unwrap through two nested DER
   OCTET STRINGs to exactly the caller's nonce;
4. the first embedded certificate is taken as the signer;
5. the signer's certification path must validate;
6. the response signature must verify with the signer's public key.

It then classifies every single response as good, revoked or unknown. The results go into a
map keyed by certificate serial number.

Modules:

- `Der`: a minimal DER OCTET STRING codec (X.690 section 8.7). Decoding reads the first
  object of its input and ignores any bytes after it. It accepts the short length form and
  the long form with one to four length octets whose value is below 2^31. The encoder is only
  there as the decoder's partner in the round-trip lemma.
- `NonceCodec`: the id-pkix-ocsp-nonce object identifier (section 4.4.1 of RFC 6960) and the
  two-pass unwrap of the extension value.
- `OcspTypes`: the OCSP objects reduced to what the checker reads from them, and the status
  and result records it builds.
- `StatusMapper`: the classification of one single response, the serial-number map as a
  specification function, and the loop that fills the map.
- `ResponseChecker`: the whole check as a specification function `Check`, the early-return
  method `CheckResponse` proved equal to it, and the pipeline lemmas.
- `Scenarios`: four end-to-end scenarios, each a lemma about `Check` on concrete inputs.

Both external collaborators are parameters of the check:

- the certification-path validator is `Certificate -> PathOutcome`;
- the signature verifier is `(BasicResp, PublicKey) -> VerifyOutcome`.

Invoking them is the check's only side effect. Each invocation is returned, in order, as a
`Call`. This lets the lemmas state which collaborators a check reached and in what order. An
exception in the source becomes a `Failure` carrying a `CheckError` kind.

In two places the model keeps apart failures that the code raises differently:

- The code fails in two distinct ways when there is no signer. If the embedded certificates
  cannot be decoded, the exception is wrapped (lines 91-95). If the array is empty, indexing
  it throws (line 92). The model keeps these as `CertificatesUnavailable` and
  `NoSignerCertificate`.
- A failure of the nonce decoding surfaces in the code as an I/O exception (a truncated or
  bad length), an argument exception (an object that is not an OCTET STRING), or a null
  pointer exception (empty input, where no object is read and `getOctets` is called on
  nothing). The model names all of these `NonceMalformed`, rather than folding them into
  `ResponseObjectUnavailable`.

## Model

| member | source | states |
|---|---|---|
| `ResponseChecker.Check` | src/main/java/ru/ussgroup/security/trusty/ocsp/kalkan/KalkanOCSPResponseChecker.java:55-134 | The specification of the whole check, which the lemmas below are about. A check makes at most two collaborator calls, and a success makes exactly two. A success wraps the original response, and its map is keyed by exactly the serial numbers of the single responses. A failure before the signer is chosen makes no call. |
| `ResponseChecker.CheckResponse` | src/main/java/ru/ussgroup/security/trusty/ocsp/kalkan/KalkanOCSPResponseChecker.java:55-134 | The early-return method returns exactly the result and the collaborator calls given by the specification `Check`. It builds the status map with `BuildStatuses`. |
| `ResponseChecker.SuccessIffAllChecksPass` | src/main/java/ru/ussgroup/security/trusty/ocsp/kalkan/KalkanOCSPResponseChecker.java:55-130 | A result exists if and only if all of these hold: status is 0, the body is readable, the nonce matches, a first certificate exists, its path is valid and the signature is valid. The result then wraps the original response and the status map of its single responses. The calls made are exactly: validate the first certificate's path, then verify with that certificate's key. |
| `ResponseChecker.StatusGateComesFirst` | src/main/java/ru/ussgroup/security/trusty/ocsp/kalkan/KalkanOCSPResponseChecker.java:57-59 | A status other than 0 fails with that status and makes no call. The body, the nonce and both collaborators make no difference to the outcome. |
| `ResponseChecker.MissingNonceFails` | src/main/java/ru/ussgroup/security/trusty/ocsp/kalkan/KalkanOCSPResponseChecker.java:69-87 | An absent nonce extension fails with `NonceMissing` and makes no call, whatever the collaborators would say. |
| `ResponseChecker.UnreadableBodyFails` | src/main/java/ru/ussgroup/security/trusty/ocsp/kalkan/KalkanOCSPResponseChecker.java:63-67 | A successful status whose response object cannot be obtained fails with `ResponseObjectUnavailable` and makes no call. |
| `ResponseChecker.NonceDecidesProgress` | src/main/java/ru/ussgroup/security/trusty/ocsp/kalkan/KalkanOCSPResponseChecker.java:69-87 | Once status and body pass, the check fails with a nonce error if and only if the doubly unwrapped nonce is absent, undecodable or not byte-for-byte equal to the caller's. A decode failure gives `NonceMalformed`. A difference gives `NonceMismatch` carrying both values. Neither calls a collaborator. |
| `ResponseChecker.MissingSignerFails` | src/main/java/ru/ussgroup/security/trusty/ocsp/kalkan/KalkanOCSPResponseChecker.java:89-95 | Once the nonce matched, undecodable embedded certificates fail with `CertificatesUnavailable` and an empty certificate list with `NoSignerCertificate`, both before any call. |
| `ResponseChecker.PathRejectionSkipsVerification` | src/main/java/ru/ussgroup/security/trusty/ocsp/kalkan/KalkanOCSPResponseChecker.java:92-100 | A rejected path of the first certificate is propagated with its cause. Only the path validator was called, and the verifier makes no difference to the outcome. |
| `ResponseChecker.CallsFollowPipelineOrder` | src/main/java/ru/ussgroup/security/trusty/ocsp/kalkan/KalkanOCSPResponseChecker.java:89-105 | Collaborators are called only after the status, body and nonce checks pass. The calls are a prefix of (validate the first certificate, verify with its key). Verification follows an accepted path validation of the certificate whose key it uses. |
| `ResponseChecker.SignatureFailureFails` | src/main/java/ru/ussgroup/security/trusty/ocsp/kalkan/KalkanOCSPResponseChecker.java:99-105 | A false verdict fails with `SignatureRejected`. A verifier exception fails with `VerificationFailed`. Both happen after exactly the two calls. |
| `NonceCodec.UnwrapNonce` | src/main/java/ru/ussgroup/security/trusty/ocsp/kalkan/KalkanOCSPResponseChecker.java:72-79 | A received nonce exists only if the outer OCTET STRING pass succeeded. It is at least four octets shorter than the extension value, because there are two headers. |
| `NonceCodec.UnwrapWrap` | src/main/java/ru/ussgroup/security/trusty/ocsp/kalkan/KalkanOCSPResponseChecker.java:72-79 | Two passes recover any nonce from its double OCTET STRING wrapping, whatever bytes follow it. |
| `NonceCodec.SingleWrapIsDecodedAgain` | src/main/java/ru/ussgroup/security/trusty/ocsp/kalkan/KalkanOCSPResponseChecker.java:77-79 | The second pass always runs. A singly wrapped payload is decoded again, and fails unless the payload is itself an OCTET STRING encoding. |
| `Der.ReadLength` | src/main/java/ru/ussgroup/security/trusty/ocsp/kalkan/KalkanOCSPResponseChecker.java:73 | A decoded length uses at most five octets and is below 2^31. A short-form octet is its own length. |
| `Der.DecodeOctetString` | src/main/java/ru/ussgroup/security/trusty/ocsp/kalkan/KalkanOCSPResponseChecker.java:73-75 | A decoded OCTET STRING starts with identifier 0x04, and its content is at least two octets shorter than the input. |
| `Der.DecodeEncode` | src/main/java/ru/ussgroup/security/trusty/ocsp/kalkan/KalkanOCSPResponseChecker.java:73-75 | Decoding inverts the DER encoding of any content below 2^31 octets, whatever bytes follow it. |
| `Der.DecodeRequiresOctetStringTag` | src/main/java/ru/ussgroup/security/trusty/ocsp/kalkan/KalkanOCSPResponseChecker.java:75 | Any identifier other than 0x04 is rejected. |
| `StatusMapper.Classify` | src/main/java/ru/ussgroup/security/trusty/ocsp/kalkan/KalkanOCSPResponseChecker.java:113-127 | Classification is total. It is good if and only if there is no status object, and revoked if and only if the status is `RevokedStatus`; otherwise it is unknown. A revoked status keeps its time and its reason, with reason 0 (unspecified) when none is given. |
| `StatusMapper.ClassifyIgnoresValidityWindow` | src/main/java/ru/ussgroup/security/trusty/ocsp/kalkan/KalkanOCSPResponseChecker.java:110-113 | thisUpdate and nextUpdate do not affect the classification. |
| `StatusMapper.StatusMap` | src/main/java/ru/ussgroup/security/trusty/ocsp/kalkan/KalkanOCSPResponseChecker.java:107-128 | The key set of the map is exactly the set of serial numbers of the single responses. It has at most one entry per single response. |
| `StatusMapper.StatusMapLastWriteWins` | src/main/java/ru/ussgroup/security/trusty/ocsp/kalkan/KalkanOCSPResponseChecker.java:107-128 | Each serial number maps to the classification of the last single response that carries it. |
| `StatusMapper.StatusMapValuesComeFromEntries` | src/main/java/ru/ussgroup/security/trusty/ocsp/kalkan/KalkanOCSPResponseChecker.java:107-128 | Every map value is the classification of some single response with that serial number. |
| `StatusMapper.StatusMapSizeDistinct` | src/main/java/ru/ussgroup/security/trusty/ocsp/kalkan/KalkanOCSPResponseChecker.java:107-128 | With pairwise distinct serial numbers, the map has exactly one entry per single response. |
| `StatusMapper.BuildStatuses` | src/main/java/ru/ussgroup/security/trusty/ocsp/kalkan/KalkanOCSPResponseChecker.java:107-128 | The loop that puts each classification under its serial number yields `StatusMap` of the single responses, and so the serial-number key set. |
| `Scenarios.ScenarioMatchingNonce` | src/main/java/ru/ussgroup/security/trusty/ocsp/kalkan/KalkanOCSPResponseChecker.java:55-130 | The doubly wrapped nonce 0xA1B2C3 matches, both collaborators accept, and the single good entry becomes the map's only entry. |
| `Scenarios.ScenarioForeignNonce` | src/main/java/ru/ussgroup/security/trusty/ocsp/kalkan/KalkanOCSPResponseChecker.java:72-82 | An echoed 0xFFFFFF against a sent 0xA1B2C3 fails with `NonceMismatch` carrying both values, before any call. |
| `Scenarios.ScenarioUntrustedSigner` | src/main/java/ru/ussgroup/security/trusty/ocsp/kalkan/KalkanOCSPResponseChecker.java:92-100 | With a matching nonce and a rejected path, the check fails with the validator's cause, and the verifier is never called. |
| `Scenarios.ScenarioDuplicateSerial` | src/main/java/ru/ussgroup/security/trusty/ocsp/kalkan/KalkanOCSPResponseChecker.java:107-128 | A good entry followed by a revoked entry (reason 5) with the same serial leaves one map entry, the revoked one with reason 5 and its time. |

## Left out

- The static initializer, which registers the Kalkan security provider in the process-wide provider list (lines 37-49). It is global library setup, not part of the check.
- The constructor, which builds the certification-path validator (lines 51-53). The validator is a parameter of the check, and its algorithm is not part of this model.
- The body of the response. `getResponseObject` failing, returning nothing, or returning something that is not a basic response is one case, `UnreadableBody`, which ends in `ResponseObjectUnavailable`.
- The ASN.1 library's leniencies. The decoder accepts only a primitive OCTET STRING with a definite length. The library may also accept tagged, constructed or sequence-shaped objects and unwrap them; the model treats those as `NonceMalformed`. Big-number lengths that would overflow are rejected, as the library does.
- Signature cryptography and certificate decoding. The model depends only on the verifier's verdict or failure, and on whether `getCerts` yields a list.
- Exceptions. Java exception classes, the mismatch message text (line 81) and the wrapping of IOException into RuntimeException (lines 131-133) become distinct `CheckError` kinds. At line 81 the Base64 encoder returns a byte array, and appending an array to a string prints its identity, so the source's message shows neither nonce. `NonceMismatch(expected, received)` therefore carries values that the source's exception never exposes. The message text itself is not modelled.
- A `null` nonce argument. A Dafny sequence cannot be null; the model's nonce is always a byte sequence.
- Thread-safety (line 32). The check holds no mutable shared state, and the model is a pure function plus a method with local state only.
- Idempotence. It holds by construction: `Check` is a function, and no input value is modified.
