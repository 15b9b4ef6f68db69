/** bcrypt and jsonwebtoken, kept abstract. Each library is a record of functions that the
    handlers receive as a parameter; the one fact the handlers rely on is stated as a
    soundness predicate that the lemmas about them require. */
module Crypto {
  import opened Js

  /** `bcrypt.hash(password, salt)` and `bcrypt.compare(password, digest)`. The salt is the
      output of `genSalt`, which is random, so it is a parameter of every caller. */
  datatype Bcrypt = Bcrypt(hash: (string, string) -> string, compare: (string, string) -> bool)

  /** A digest made from a password verifies against that password, for every salt. */
  ghost predicate BcryptSound(h: Bcrypt)
  {
    forall p, salt :: h.compare(p, h.hash(p, salt))
  }

  /** The payload a session token carries: `{ id, username, email }` of the user record.
      A NULL column is `None`. */
  datatype Claims = Claims(id: int, username: Option<string>, email: Option<string>)

  /** `jwt.sign(claims, secret, options)` and `jwt.verify(token, secret)` under the one
      process-wide secret. `expiresIn` is the `expiresIn` option in seconds (`None` when the
      option is absent); `verify` gives `None` where the library throws (bad signature,
      malformed or expired token). */
  datatype Jwt = Jwt(sign: (Claims, Option<nat>) -> string, verify: string -> Option<Claims>)

  /** What a signed token looks like on the wire: a non-empty text with no space, so that it
      survives being sent as `Bearer <token>` and split on spaces. */
  predicate IsTokenText(t: string)
  {
    t != "" && ' ' !in t
  }

  /** Verifying a freshly signed token gives back exactly the claims it was signed with. */
  ghost predicate JwtSound(j: Jwt)
  {
    forall c, e :: j.verify(j.sign(c, e)) == Some(c) && IsTokenText(j.sign(c, e))
  }

  /** The seconds in the `'1h'` value of `expiresIn`. */
  const OneHour: nat := 3600
}
