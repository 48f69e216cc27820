/**
 * Stand-ins for the two libraries the authentication code calls:
 * bcryptjs (password hashing) and jsonwebtoken (signed tokens).
 *
 * Both are idealised: a bcrypt hash matches exactly one password, and a
 * token's signature can only be produced by someone who knows the secret.
 * One-wayness, salting strength and the compact wire format are not modelled.
 */
module Crypto {
  import opened Wrappers

  // ---------------------------------------------------------------- bcryptjs

  /** The header `bcrypt.genSalt(10)` puts in front of every hash: algorithm 2a, cost 10. */
  const HashHeader := "$2a$10$"

  /** The 22 salt characters `bcrypt.genSalt` draws at random. */
  type Salt = s: string | |s| == 22 witness "......................"

  /** `bcrypt.compare(password, hash)`: does `hash` encode `password`? */
  predicate Compare(password: string, hash: string)
  {
    |hash| >= |HashHeader| + 22 &&
    hash[..|HashHeader|] == HashHeader &&
    hash[|HashHeader| + 22..] == password
  }

  /** `bcrypt.hash(password, salt)`: the hash matches its own password and no other one, and is never the plaintext. */
  function Hash(password: string, salt: Salt): (h: string)
    ensures Compare(password, h)
    ensures forall other :: Compare(other, h) ==> other == password
    ensures h != password
  {
    var h := HashHeader + salt + password;
    assert h[..|HashHeader|] == HashHeader;
    assert h[|HashHeader| + 22..] == password;
    h
  }

  /** A stored hash matches at most one password, so `bcrypt.compare` cannot confuse two accounts' passwords. */
  lemma CompareAtMostOne(p: string, q: string, hash: string)
    requires Compare(p, hash) && Compare(q, hash)
    ensures p == q
  {
  }

  // ------------------------------------------------------------ jsonwebtoken

  /** The two errors `jwt.verify` throws for a token that is well formed. */
  datatype VerifyError = JsonWebTokenError | TokenExpiredError

  /**
   * An idealised HS256 signature: two tags are equal only when they were made
   * with the same secret over the same claims.
   */
  datatype Tag<P> = Hs256(secret: string, payload: P, iat: int, exp: Option<int>)

  /** A decoded token: the payload, the `iat`/`exp` claims (seconds) and the signature. */
  datatype Jwt<P> = Jwt(payload: P, iat: int, exp: Option<int>, tag: Tag<P>)

  /**
   * `jwt.verify(token, secret)` at clock time `now`: the signature is checked
   * first, then the expiry (a token is expired once `now >= exp`).
   */
  function Verify<P(==)>(t: Jwt<P>, secret: string, now: int): (r: Result<P, VerifyError>)
    ensures r.Success? ==> r.value == t.payload && t.tag == Hs256(secret, t.payload, t.iat, t.exp)
    ensures r.Success? ==> t.exp.None? || now < t.exp.value
    ensures t.tag.secret != secret ==> r == Failure(JsonWebTokenError)
  {
    if t.tag != Hs256(secret, t.payload, t.iat, t.exp) then Failure(JsonWebTokenError)
    else if t.exp.Some? && now >= t.exp.value then Failure(TokenExpiredError)
    else Success(t.payload)
  }

  /**
   * A token whose payload, `iat` or `exp` was edited after signing no longer
   * matches its signature, and `jwt.verify` rejects it under every secret.
   */
  lemma EditedClaimsRejected<P>(signed: Jwt<P>, edited: Jwt<P>, secret: string, now: int)
    requires signed.tag == Hs256(signed.tag.secret, signed.payload, signed.iat, signed.exp)
    requires edited.tag == signed.tag
    requires (edited.payload, edited.iat, edited.exp) != (signed.payload, signed.iat, signed.exp)
    ensures Verify(edited, secret, now) == Failure(JsonWebTokenError)
  {
  }

  /**
   * `jwt.sign(payload, secret, { expiresIn })` at clock time `now`. The token
   * verifies under its own secret until it expires, and never under another.
   */
  function Sign<P(==)>(payload: P, secret: string, now: int, expiresIn: Option<nat>): (t: Jwt<P>)
    ensures t.payload == payload && t.iat == now
    ensures t.exp == if expiresIn.Some? then Some(now + expiresIn.value) else None
    ensures forall at :: (t.exp.None? || at < t.exp.value) ==> Verify(t, secret, at) == Success(payload)
    ensures forall at :: t.exp.Some? && at >= t.exp.value ==> Verify(t, secret, at) == Failure(TokenExpiredError)
    ensures forall other, at :: other != secret ==> Verify(t, other, at) == Failure(JsonWebTokenError)
  {
    var exp := if expiresIn.Some? then Some(now + expiresIn.value) else None;
    Jwt(payload, now, exp, Hs256(secret, payload, now, exp))
  }
}
