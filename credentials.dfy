/**
 * The bcrypt capability (`BCrypt.HashPassword`, `BCrypt.Verify`) used for
 * user passwords and for issued device keys.
 */
module Credentials {

  /**
   * A bcrypt digest. The model records which secret it was computed from;
   * salting, the cost factor and one-wayness are not modelled.
   */
  datatype Digest = BCryptDigest(secret: string)

  /** `BCrypt.Verify(candidate, digest)`. */
  predicate Verify(candidate: string, digest: Digest) {
    digest.secret == candidate
  }

  /** `BCrypt.HashPassword(secret)`: a digest that verifies the secret and no other string. */
  function HashPassword(secret: string): (d: Digest)
    ensures Verify(secret, d)
    ensures forall other :: Verify(other, d) ==> other == secret
  {
    BCryptDigest(secret)
  }
}
