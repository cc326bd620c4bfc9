/**
 * An abstraction of the Argon2 password hasher.
 *
 * A hash is represented by the salt it was drawn with and the plaintext it
 * was derived from; verification succeeds exactly for that plaintext. The
 * one-way derivation itself is not modelled, and the random salt is a
 * parameter supplied by the caller.
 */
module Passwords {

  datatype PasswordHash = PasswordHash(salt: nat, digestOf: string)

  /** True iff `password` is the plaintext the hash was derived from. */
  predicate Verify(password: string, hash: PasswordHash)
  {
    hash.digestOf == password
  }

  /** Hashes `password` with the freshly drawn `salt`. */
  function Hash(password: string, salt: nat): (h: PasswordHash)
    ensures Verify(password, h)
    ensures forall other :: Verify(other, h) ==> other == password
  {
    PasswordHash(salt, password)
  }

  /** Two hashes of the same password drawn with different salts differ. */
  lemma FreshSaltsGiveDistinctHashes(password: string, s1: nat, s2: nat)
    requires s1 != s2
    ensures Hash(password, s1) != Hash(password, s2)
    ensures Verify(password, Hash(password, s1)) && Verify(password, Hash(password, s2))
  {
  }
}
