/**
 * Password hashing, which the framework provides. The model keeps only what the
 * account code relies on: `set_password(p)` stores a hash that `check_password(p)`
 * accepts, and (as for any collision-free hasher) no other password.
 * The salt stands for the hasher's randomness and is a parameter.
 */
module Hashers {

  import opened Wrappers

  /** A stored password hash: the salt and the (ideal, collision-free) digest of the plaintext. */
  datatype PasswordHash = PasswordHash(salt: nat, digest: string)

  /** `make_password(plain)` with the given salt. */
  function MakePassword(plain: string, salt: nat): (h: PasswordHash)
    ensures h.salt == salt
    ensures forall p :: CheckPassword(p, h) <==> p == plain
  {
    PasswordHash(salt, plain)
  }

  /** `check_password(plain, hash)` */
  predicate CheckPassword(plain: string, h: PasswordHash)
  {
    h.digest == plain
  }

  /** `check_password` on a possibly missing input: a missing (`None`) password never verifies. */
  predicate Verifies(plain: Option<string>, h: PasswordHash)
  {
    plain.Some? && CheckPassword(plain.value, h)
  }
}
