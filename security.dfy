/** Password hashing as werkzeug's generate_password_hash and
    check_password_hash are used by the app. Hashing is salted with a fresh
    random salt on every call, so the salt is an input here. The hash
    algorithm is not modelled: Digest below is a stand-in that is not
    one-way. What the model proves about it, VerifyHash, is the property
    werkzeug promises. */
module Security {

  /** A stored credential: the salt chosen for it and the digest of salt and password. */
  datatype PasswordHash = PasswordHash(salt: string, digest: string)

  function Digest(salt: string, password: string): string
  {
    salt + password
  }

  /** generate_password_hash(password), with the random salt made explicit. */
  function GeneratePasswordHash(password: string, salt: string): PasswordHash
  {
    PasswordHash(salt, Digest(salt, password))
  }

  /** check_password_hash(stored, candidate). */
  predicate CheckPasswordHash(stored: PasswordHash, candidate: string)
  {
    stored.digest == Digest(stored.salt, candidate)
  }

  /** A hash made from p verifies q exactly when q is p, whatever the salt. */
  lemma VerifyHash(p: string, salt: string, q: string)
    ensures CheckPasswordHash(GeneratePasswordHash(p, salt), q) <==> q == p
  {
    if CheckPasswordHash(GeneratePasswordHash(p, salt), q) {
      assert (salt + q)[|salt|..] == q;
      assert (salt + p)[|salt|..] == p;
    }
  }
}
