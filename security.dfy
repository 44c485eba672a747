/**
 The password-hashing interface the routes use (werkzeug's
 `generate_password_hash` and `check_password_hash`), kept abstract: the
 key derivation is a function value supplied by the caller, and the random
 salt is a parameter. Nothing here makes the derivation one-way; the one
 property of it the routes rely on, that it never returns the password
 itself, is the hypothesis `NeverPlaintext`.
 */
module Security {

  /** A salted key derivation: (salt, password) to digest. */
  type Kdf = (string, string) -> string

  /** What the `password` column stores: the salt and the derived digest. */
  datatype PasswordHash = PasswordHash(salt: string, digest: string)

  /** The derivation never hands back the password it was given. */
  ghost predicate NeverPlaintext(kdf: Kdf)
  {
    forall salt, password :: kdf(salt, password) != password
  }

  /** `check_password_hash`: derive again with the stored salt and compare. */
  predicate Verify(kdf: Kdf, stored: PasswordHash, password: string)
    ensures Verify(kdf, stored, password) <==>
              stored == PasswordHash(stored.salt, kdf(stored.salt, password))
  {
    kdf(stored.salt, password) == stored.digest
  }

  /** `generate_password_hash`: the stored value is keyed by the salt drawn
      for it, always verifies against the password it was made from, and,
      for a derivation that never returns its input, is not the password. */
  function Hash(kdf: Kdf, salt: string, password: string): (h: PasswordHash)
    ensures h.salt == salt
    ensures Verify(kdf, h, password)
    ensures forall other: string {:trigger kdf(salt, other)} ::
              Verify(kdf, h, other) <==> kdf(salt, other) == kdf(salt, password)
    ensures NeverPlaintext(kdf) ==> h.digest != password
  {
    PasswordHash(salt, kdf(salt, password))
  }
}
