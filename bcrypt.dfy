/**
 * The two calls into golang.org/x/crypto/bcrypt, left abstract: cost, salting and the hash
 * format are not modelled.
 */
module Bcrypt {
  import opened Wrappers
  import opened Errors

  /**
   * `generate` stands for `GenerateFromPassword(password, DefaultCost)`, which can fail;
   * `compare(hash, password)` for `CompareHashAndPassword` returning no error.
   */
  datatype Hasher = Hasher(
    generate: string -> Result<string, Error>,
    compare: (string, string) -> bool)

  /** bcrypt's promise: a password matches every hash generated from it. */
  ghost predicate Sound(h: Hasher) {
    forall p :: h.generate(p).Success? ==> h.compare(h.generate(p).value, p)
  }
}
