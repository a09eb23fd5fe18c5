/** Signed tokens. The signing library is not modelled: `Jwt` is an oracle made of a
    `sign` and a `verify` function, parameterised by the secret and (for `verify`) by
    the clock, and `Sound` states the laws the handlers rely on. `Config` gathers what
    every handler is configured with: the oracle, the signing secret (the environment's
    secret or its fallback literal, resolved by the caller) and the password hasher. */
module Tokens {
  import opened Wrappers

  /** What a token binds: a session (`{ id, username }`) or a share link (`{ fileId, userId }`). */
  datatype Payload =
    | SessionClaims(id: nat, username: string)
    | ShareClaims(fileId: string, userId: nat)

  /** A payload with its issue time and expiry, in seconds. */
  datatype Claims = Claims(payload: Payload, iat: int, exp: int)

  datatype Jwt = Jwt(sign: (Claims, string) -> string, verify: (string, string, int) -> Option<Claims>)

  /** The laws of an HMAC-signed token format:
      - only a token that `sign` produced under this secret verifies, and only before it expires;
      - every signed token verifies, to the claims it was signed with, until it expires;
      - different claims give different tokens;
      - a token is a non-empty word without spaces or slashes: base64url segments joined by
        dots, so it travels in an `Authorization` header and as a URL path segment. */
  ghost predicate Sound(jwt: Jwt) {
    && (forall t: string, secret: string, now: int :: jwt.verify(t, secret, now).Some? ==>
          t == jwt.sign(jwt.verify(t, secret, now).value, secret) && now < jwt.verify(t, secret, now).value.exp)
    && (forall c: Claims, secret: string, now: int :: now < c.exp ==> jwt.verify(jwt.sign(c, secret), secret, now) == Some(c))
    && (forall c1: Claims, c2: Claims, secret: string :: jwt.sign(c1, secret) == jwt.sign(c2, secret) ==> c1 == c2)
    && (forall c: Claims, secret: string ::
          jwt.sign(c, secret) != "" && ' ' !in jwt.sign(c, secret) && '/' !in jwt.sign(c, secret))
  }

  /** `bcrypt` hashes a password at a cost factor (its salt is the oracle's business). */
  datatype Config = Config(jwt: Jwt, secret: string, bcrypt: (string, nat) -> string)

  /** `expiresIn: '24h'` */
  const SESSION_LIFETIME: nat := 24 * 60 * 60
  /** `expiresIn: '7d'` */
  const SHARE_LIFETIME: nat := 7 * 24 * 60 * 60

  /** `jwt.sign(payload, secret, { expiresIn })` at time `now`. */
  function Issue(cfg: Config, payload: Payload, lifetime: nat, now: int): string {
    cfg.jwt.sign(Claims(payload, now, now + lifetime), cfg.secret)
  }

  /** A token issued now verifies to its own claims at every instant before its expiry,
      and to nothing from its expiry on. */
  lemma IssuedTokenLifetime(cfg: Config, payload: Payload, lifetime: nat, now: int, at: int)
    requires Sound(cfg.jwt)
    requires at >= now
    ensures at < now + lifetime ==>
              cfg.jwt.verify(Issue(cfg, payload, lifetime, now), cfg.secret, at) == Some(Claims(payload, now, now + lifetime))
    ensures at >= now + lifetime ==> cfg.jwt.verify(Issue(cfg, payload, lifetime, now), cfg.secret, at) == None
  {
  }
}
