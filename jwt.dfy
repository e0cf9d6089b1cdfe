/** The JSON Web Token library as the backend sees it: `jwt.sign` turns a
    claim set into a token string, or throws (as it does when
    `process.env.JWT_SECRET` is unset); `jwt.verify` turns a token string into
    the decoded claim set or an error. Both are foreign; here they are values
    of function type, chosen once per server (they stand for the signing
    secret). */
module Jwt {
  import opened Js

  /** The payload the backend signs at login, `{ id: user.id }`. */
  datatype Claims = Claims(id: int)

  /** Why `jwt.verify` refused a token. */
  datatype VerifyError = BadSignature | Expired | Malformed

  /** What the verify callback receives: `(null, decoded)` or `(err, _)`. */
  datatype Verdict = Verified(decoded: Claims) | Failed(error: VerifyError)

  /** `None` when `jwt.sign` throws. */
  type Signer = Claims -> Option<string>
  type Verifier = string -> Verdict

  /** A signer and a verifier that share one configured secret: signing never
      throws, and every issued token is a non-empty, space-free string
      (base64url segments and dots) that the verifier maps back to its own
      claim set. */
  ghost predicate Paired(sign: Signer, verify: Verifier)
  {
    forall c :: sign(c).Some? && sign(c).value != "" && ' ' !in sign(c).value && verify(sign(c).value) == Verified(c)
  }
}
