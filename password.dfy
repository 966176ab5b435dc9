/** The password-hashing capability (argon2 in src/utils/password.rs and
    src/db.rs). Hashing draws a random salt, so the salt is an input; both
    operations may fail. */
module Password {
  import opened Primitives

  /** `hash(password, salt)` gives a PHC digest string or fails; `verify(password, digest)`
      is `verify_password(..).is_ok()`: false on a mismatch and on an unparsable digest. */
  datatype PasswordHasher = PasswordHasher(
    hash: (string, string) -> Option<string>,
    verify: (string, string) -> bool)
  {
    /** A digest made from a password verifies against that password. */
    ghost predicate Sound() {
      forall password, salt | hash(password, salt).Some? :: verify(password, hash(password, salt).value)
    }
  }
}
