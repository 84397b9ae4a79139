/** Password hashing as the handlers use it (bcrypt in the source).

    Only the two facts the handlers rely on are kept: a digest is
    never the plaintext itself (it has a type of its own, so no string
    column can hold one), and `Compare` accepts exactly the password the
    digest was made from. Salting, the cost factor and bcrypt's habit of
    reading only the first 72 bytes of a password are not modelled. */
module Crypto {

  /** The output of `bcrypt.hash`. */
  datatype Digest = Digest(preimage: string)

  /** `bcrypt.hash(password, 10)`: the digest verifies against the
      password it was made from and against no other password. */
  function Hash(password: string): (d: Digest)
    ensures forall other: string :: Compare(other, d) <==> other == password
  {
    Digest(password)
  }

  /** `bcrypt.compare(password, digest)`. */
  predicate Compare(password: string, d: Digest)
  {
    d.preimage == password
  }
}
