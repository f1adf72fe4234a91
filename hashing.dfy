/**
 * bcrypt, reduced to what the handlers rely on: `hash` turns a secret into a
 * digest and `compare` accepts exactly the secret the digest was made from.
 * The model digest is an ideal one: it has no salt, no cost factor and no collisions.
 */
module Hashing {

  datatype Digest = Digest(plain: string)

  function Hash(secret: string): (d: Digest)
    ensures forall candidate :: Verifies(candidate, d) <==> candidate == secret
  {
    Digest(secret)
  }

  /** bcrypt.compare(candidate, d) */
  predicate Verifies(candidate: string, d: Digest)
  {
    d.plain == candidate
  }
}
