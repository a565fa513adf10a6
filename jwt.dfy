/** The token issuer the login handlers call (`jwt.sign(payload, secret)`).
    Signing, the fixed secret and the issued-at claim the library adds are not
    modelled: a token is the email payload it carries. */
module Jwt {

  /** The claims the handlers sign: exactly `{ email }`. */
  datatype Payload = Payload(email: string)

  datatype Token = Token(payload: Payload)

  /** `jwt.sign(payload, secret)`: the token carries the payload unchanged. */
  function Sign(payload: Payload): (t: Token)
    ensures t.payload == payload
  {
    Token(payload)
  }

  /** The email claim a holder of the token presents. */
  function EmailClaim(t: Token): (e: string)
    ensures Sign(Payload(e)) == t
  {
    t.payload.email
  }

  /** Decoding a signed token gives back the email it was signed for. */
  lemma SignedClaimRoundTrip(email: string)
    ensures EmailClaim(Sign(Payload(email))) == email
  {
  }
}
