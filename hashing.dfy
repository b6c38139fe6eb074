/** The password hasher (bcrypt), kept abstract. Its salt generation, cost factor and
    constant-time comparison are foreign code: the model sees only the two calls. */
module Hashing {
  import opened Wrappers

  /** The random salt that `bcrypt.hash` draws afresh on every call; the caller supplies it. */
  type Salt = nat

  /** `hash(password, salt)` is `bcrypt.hash(password, saltRounds)` with the salt drawn;
      `compare(candidate, digest)` is `bcrypt.compare`. Either may reject its promise. */
  datatype Hasher = Hasher(
    hash: (string, Salt) -> Result<string>,
    compare: (Option<string>, string) -> Result<bool>)

  /** The assumption under which a digest verifies against the password it came from.
      Nothing in the controller promises it; it is what bcrypt is relied on to do. */
  ghost predicate Consistent(h: Hasher)
  {
    forall password: string, salt: Salt {:trigger h.hash(password, salt)} ::
      h.hash(password, salt).Ok? ==> h.compare(Some(password), h.hash(password, salt).value) == Ok(true)
  }
}
