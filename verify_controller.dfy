// backend/src/controllers/verifyController.js: the public `GET /verify?token=`
// check. A falsy token is refused before any verification; otherwise the
// token is verified with the configured key, HS256 and RS256 only, and every
// failure gives the same answer.

module VerifyController {
  import opened JsValues
  import opened Jwt

  const NoTokenProvided: string := "No token provided"
  const InvalidOrExpired: string := "Invalid or expired token"

  /** `{ algorithms: ['HS256', 'RS256'] }`. */
  const AllowedAlgorithms: set<string> := {HS256, RS256}

  datatype VerifyBody = Valid(payload: Claims) | Invalid(error: string)

  datatype VerifyResponse = VerifyResponse(code: int, body: VerifyBody)

  /** `!req.query.token`: absent, or the empty string. */
  predicate MissingToken(token: Option<TokenText>) {
    token.None? || token.value == Garbled("")
  }

  /** `verifyToken`, with the query's token, the environment and the clock in seconds. */
  function VerifyToken(token: Option<TokenText>, env: Env, nowSec: int): (r: VerifyResponse)
    ensures r.code == 200 <==> r.body.Valid?
    ensures r.body.Invalid? ==> r.code == 400
    ensures MissingToken(token) ==> r == VerifyResponse(400, Invalid(NoTokenProvided))
    ensures !MissingToken(token) && r.body.Invalid? ==> r.body.error == InvalidOrExpired
    ensures r.body.Valid? <==>
      && token.Some? && token.value.Compact?
      && Verify(token.value, SecretOf(env), AllowedAlgorithms, nowSec).Success?
    ensures r.body.Valid? ==> r.body.payload == token.value.token.payload
  {
    if MissingToken(token) then VerifyResponse(400, Invalid(NoTokenProvided))
    else
      match Verify(token.value, SecretOf(env), AllowedAlgorithms, nowSec)
      case Success(payload) => VerifyResponse(200, Valid(payload))
      case Failure(_) => VerifyResponse(400, Invalid(InvalidOrExpired))
  }

  /** A token whose header names any algorithm but HS256 or RS256 is refused, however it is signed. */
  lemma OnlyAllowedAlgorithms(t: Token, env: Env, nowSec: int)
    requires t.header.alg != HS256 && t.header.alg != RS256
    ensures VerifyToken(Some(Compact(t)), env, nowSec) == VerifyResponse(400, Invalid(InvalidOrExpired))
  {
  }

  /**
   * A bad signature, a garbled string, an expired token and a disallowed
   * algorithm are told apart by `jwt.verify` but answered identically.
   */
  lemma SingleFailureReason(token: Option<TokenText>, env: Env, nowSec: int)
    requires !MissingToken(token)
    requires Verify(token.value, SecretOf(env), AllowedAlgorithms, nowSec).Failure?
    ensures VerifyToken(token, env, nowSec) == VerifyResponse(400, Invalid(InvalidOrExpired))
  {
  }

  /** A token signed under another key is refused. */
  lemma ForeignKeyRefused(t: Token, env: Env, nowSec: int)
    requires t.signature.Mac? && t.signature.key != SecretOf(env)
    ensures VerifyToken(Some(Compact(t)), env, nowSec).body.Invalid?
  {
    OtherKeyRejected(t, t.signature.key, SecretOf(env), AllowedAlgorithms, nowSec);
  }
}
