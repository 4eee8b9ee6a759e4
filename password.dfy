/**
 * The password hasher the scripts call: PHP's `password_hash` /
 * `password_verify` (PASSWORD_DEFAULT, bcrypt) and bcryptjs's `hash` / `compare`.
 *
 * The algorithm itself is not modelled. `Digest` is a stand-in digest with a
 * body (a polynomial rolling hash, neither one-way nor collision-resistant); no
 * contract relies on one-wayness, and the only fact any endpoint relies on is
 * `VerifyHash`: a secret verifies against a hash made from it, whatever
 * salt and cost were drawn. A wrong secret may or may not verify (collisions of
 * the stand-in are allowed), so every statement about a wrong password in this
 * model takes `!Verify(...)` as its hypothesis.
 */
module Password {

  /** bcrypt's work factor: PHP's PASSWORD_DEFAULT and the `10` passed to bcryptjs. */
  const DefaultCost: nat := 10

  /** Digests are kept below 2^64, like a fixed-width hash output. */
  const DigestModulus: nat := 0x1_0000_0000_0000_0000

  /** What is stored in the `password` column: never the secret itself. */
  datatype PasswordHash = PasswordHash(cost: nat, salt: string, digest: nat)

  /** Stand-in for bcrypt's key derivation over cost, salt and secret. */
  function Digest(cost: nat, salt: string, secret: string): nat
  {
    Fold(cost % DigestModulus, salt + ['$'] + secret)
  }

  function Fold(acc: nat, s: string): nat
    decreases |s|
  {
    if s == [] then acc
    else Fold((acc * 131 + s[0] as nat) % DigestModulus, s[1..])
  }

  /** `password_hash($password, PASSWORD_DEFAULT)` / `bcrypt.hash(password, 10)`,
      with the random salt drawn by the primitive passed in. */
  function Hash(secret: string, salt: string, cost: nat): (h: PasswordHash)
    ensures h.cost == cost && h.salt == salt
  {
    PasswordHash(cost, salt, Digest(cost, salt, secret))
  }

  /** `password_verify($password, $hash)` / `bcrypt.compare(password, hash)`:
      re-derive with the salt and cost stored in the hash and compare. */
  predicate Verify(secret: string, h: PasswordHash): (ok: bool)
    ensures ok <==> Hash(secret, h.salt, h.cost) == h
  {
    Digest(h.cost, h.salt, secret) == h.digest
  }

  /** The hasher's contract: a secret verifies against its own hash. */
  lemma VerifyHash(secret: string, salt: string, cost: nat)
    ensures Verify(secret, Hash(secret, salt, cost))
  {
  }
}
