// The JSON Web Token layer both backend controllers share (RFC 7519 tokens in
// the JWS compact form, signed with HS256 of section 3.2 of RFC 7518).
//
// The claim set is the one the approval path builds. Cryptography is symbolic:
// a signature is the term Mac(alg, key, header, payload), which only a holder
// of `key` can produce and which verification recomputes and compares. The
// check order of `sign` and `verify` follows the `jsonwebtoken` library the
// controllers call.

module Jwt {
  import opened JsValues

  const HS256: string := "HS256"
  const RS256: string := "RS256"

  /** The names `jwt.sign` accepts in `options.algorithm`. */
  const SignAlgorithms: set<string> :=
    {"RS256", "RS384", "RS512", "PS256", "PS384", "PS512",
     "ES256", "ES384", "ES512", "HS256", "HS384", "HS512", "none"}

  /** `expiresIn: '365d'`, in seconds. */
  const YearSeconds: int := 365 * 24 * 60 * 60

  const CredentialTypes: seq<string> := ["VerifiableCredential", "StudentActivityCredential"]

  datatype ActivityClaim = ActivityClaim(
    title: Js<string>,
    date: Js<Time>,
    hours: Js<int>,
    description: Js<string>,
    evidenceUrl: Js<string>)

  datatype CredentialSubject = CredentialSubject(
    studentId: string,
    name: Js<string>,
    activity: ActivityClaim,
    verifiedBy: string,
    verifiedAt: Time)

  datatype Credential = Credential(types: seq<string>, credentialSubject: CredentialSubject)

  /** The JWT payload: registered claims `iss`, `sub`, `jti`, `iat`, `exp` and the private claim `vc`. */
  datatype Claims = Claims(
    iss: string,
    sub: string,
    jti: string,
    iat: int,
    vc: Credential,
    exp: Option<int>)

  datatype Header = Header(alg: string, typ: string)

  datatype Signature =
    | Mac(alg: string, key: string, header: Header, payload: Claims)
    | Forged(bytes: seq<int>)

  datatype Token = Token(header: Header, payload: Claims, signature: Signature)

  /** A string presented as a token: either a well-formed compact JWS or anything else. */
  datatype TokenText = Compact(token: Token) | Garbled(text: string)

  datatype SignError = MissingSecret | BadAlgorithm | PayloadHasExp

  datatype VerifyError = NoJwt | Malformed | MissingKey | InvalidAlgorithm | InvalidSignature | Expired

  /** The deployment's environment variables that the controllers read. */
  datatype Env = Env(iss: Option<string>, jwtSecret: Option<string>)

  /** `process.env.JWT_SECRET || 'dev-secret'`, the key both controllers use. */
  function SecretOf(env: Env): (key: string)
    ensures key != ""
    ensures env.jwtSecret.Some? && env.jwtSecret.value != "" ==> key == env.jwtSecret.value
    ensures env.jwtSecret.None? || env.jwtSecret.value == "" ==> key == "dev-secret"
  {
    if env.jwtSecret.Some? && env.jwtSecret.value != "" then env.jwtSecret.value else "dev-secret"
  }

  /**
   * `jwt.sign(payload, key, { algorithm: alg, expiresIn })`: `iat` keeps the
   * payload's own value unless it is 0, `exp` is `iat + expiresIn`.
   */
  function Sign(payload: Claims, key: string, alg: string, expiresIn: int, nowSec: int): (r: Result<Token, SignError>)
    ensures r.Failure? <==> key == "" || alg !in SignAlgorithms || payload.exp.Some?
    ensures r.Success? ==>
      && r.value.header == Header(alg, "JWT")
      && r.value.payload == payload.(iat := r.value.payload.iat, exp := Some(r.value.payload.iat + expiresIn))
      && (payload.iat != 0 ==> r.value.payload.iat == payload.iat)
      && (payload.iat == 0 ==> r.value.payload.iat == nowSec)
      && r.value.signature == Mac(alg, key, r.value.header, r.value.payload)
  {
    if key == "" then Failure(MissingSecret)
    else if alg !in SignAlgorithms then Failure(BadAlgorithm)
    else if payload.exp.Some? then Failure(PayloadHasExp)
    else
      var timestamp := if payload.iat != 0 then payload.iat else nowSec;
      var claims := payload.(iat := timestamp, exp := Some(timestamp + expiresIn));
      var header := Header(alg, "JWT");
      Success(Token(header, claims, Mac(alg, key, header, claims)))
  }

  /** The checks `jwt.verify(text, key, { algorithms })` makes, in the library's order. */
  function Verify(text: TokenText, key: string, algorithms: set<string>, nowSec: int): (r: Result<Claims, VerifyError>)
    ensures r.Success? <==>
      && text.Compact?
      && key != ""
      && text.token.header.alg in algorithms
      && text.token.signature == Mac(text.token.header.alg, key, text.token.header, text.token.payload)
      && (text.token.payload.exp.Some? ==> nowSec < text.token.payload.exp.value)
    ensures r.Success? ==> r.value == text.token.payload
  {
    match text
    case Garbled(s) => if s == "" then Failure(NoJwt) else Failure(Malformed)
    case Compact(t) =>
      if key == "" then Failure(MissingKey)
      else if t.header.alg !in algorithms then Failure(InvalidAlgorithm)
      else if t.signature != Mac(t.header.alg, key, t.header, t.payload) then Failure(InvalidSignature)
      else if t.payload.exp.Some? && nowSec >= t.payload.exp.value then Failure(Expired)
      else Success(t.payload)
  }

  /** A token signed with `key` verifies with `key` until it expires, and yields exactly the signed claims. */
  lemma SignThenVerify(payload: Claims, key: string, alg: string, expiresIn: int, signSec: int, verifySec: int, algorithms: set<string>)
    requires Sign(payload, key, alg, expiresIn, signSec).Success?
    requires alg in algorithms
    ensures var t := Sign(payload, key, alg, expiresIn, signSec).value;
      verifySec < t.payload.exp.value <==> Verify(Compact(t), key, algorithms, verifySec) == Success(t.payload)
  {
  }

  /** A token is never accepted under a key other than the one that signed it. */
  lemma OtherKeyRejected(t: Token, signer: string, key: string, algorithms: set<string>, nowSec: int)
    requires t.signature.Mac? && t.signature.key == signer
    requires key != signer
    ensures Verify(Compact(t), key, algorithms, nowSec).Failure?
  {
  }
}
