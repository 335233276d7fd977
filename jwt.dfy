/** JSON Web Tokens as the server uses them. Signing is an opaque constructor
    over the claims; verification is a partial map from a presented token to
    the claims it decodes to, fixed for the instant of the request (a token
    that is badly signed or expired is simply not in the map). */
module Jwt {

  /** The key both the login handlers and the middleware use. */
  const SecretKey := "cityconnect_secret_key"

  /** The `expiresIn` option of every token the server issues. */
  const Lifetime := "24h"

  /** The payload `{ id, role }` of every token the server issues. */
  datatype Claims = Claims(id: int, role: string)

  /** The result of `jwt.sign(payload, secret, { expiresIn })`. */
  datatype Token = Token(payload: Claims, secret: string, expiresIn: string)

  /** The outcome of `jwt.verify(token, SecretKey)` for every token string it accepts. */
  type Verifier = map<string, Claims>
}
