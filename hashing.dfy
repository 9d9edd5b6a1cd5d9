/**
  The password hasher the authentication code relies on (bcrypt's `hash` and
  `verify`), kept abstract: a hasher is any pair of total functions, and the
  one promise bcrypt makes is stated as a predicate that callers may require.
 */
module Hashing {
  import opened Common

  /** What `bcrypt::verify` returns: `Ok(true)`, `Ok(false)` or an error
      (for instance a stored hash that is not a bcrypt hash). */
  datatype Verdict = Match | Mismatch | Malformed

  /** `hash(password, salt)` stands for `bcrypt::hash(password, DEFAULT_COST)`
      with the random salt bcrypt draws made an explicit argument. */
  datatype Hasher = Hasher(hash: (Bytes, Bytes) -> Bytes, verify: (Bytes, Bytes) -> Verdict)

  /** bcrypt's promise: a password verifies against any hash made from it. */
  ghost predicate Sound(h: Hasher) {
    forall password, salt :: h.verify(password, h.hash(password, salt)) == Match
  }
}
