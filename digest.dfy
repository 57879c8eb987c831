/**
 * The digest oracle of main.py.  The one-way hash (`get_crypto_hash`,
 * hex-encoded SHA-256) is not modelled: every operation takes it as a
 * parameter of type `HashFn`.  A Dafny function value is total and
 * deterministic, which is all the search relies on.
 */
module Digest {
  /** A deterministic map from a candidate password to its hex digest. */
  type HashFn = string -> string

  /** `check_password`: does the candidate hash to the expected digest? */
  predicate CheckPassword(hash: HashFn, expectedDigest: string, possiblePassword: string)
  {
    expectedDigest == hash(possiblePassword)
  }

  /**
   * A hash with no collisions over all strings.  No fixed-width digest has
   * this property; the search lemmas assume only the weaker
   * `Coordinator.KeyspaceCollisionFree`.
   */
  ghost predicate CollisionFree(hash: HashFn)
  {
    forall a, b :: hash(a) == hash(b) ==> a == b
  }

  /** A password always matches its own digest: the hash is deterministic. */
  lemma OwnDigestMatches(hash: HashFn, password: string)
    ensures CheckPassword(hash, hash(password), password)
  {
  }

  /** Without collisions, the digest of `p` is matched by `p` and by nothing else. */
  lemma OnlyPreimageMatches(hash: HashFn, p: string, q: string)
    requires CollisionFree(hash)
    ensures CheckPassword(hash, hash(p), q) <==> q == p
  {
  }
}
