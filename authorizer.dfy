/** `verifyToken` and the API Gateway authorizer `handler`. The JWT library's
    `decode` and `verify` are passed in as functions: `decode` gives `None`
    where it returns `null`, `verify` gives `None` where it throws. */
module Authorizer {
  import opened Wrappers
  import opened AuthErrors
  import opened BearerToken
  import opened SigningKeys
  import Pem

  datatype JwtHeader = JwtHeader(alg: Option<string>, kid: Option<string>)
  datatype JwtPayload = JwtPayload(sub: Option<string>)
  /** What `decode(token, { complete: true })` returns. */
  datatype Jwt = Jwt(header: JwtHeader, payload: JwtPayload)

  /** `decode(token, { complete: true })`, without checking the signature. */
  type Decoder = string -> Option<Jwt>
  /** `verify(token, publicKey, { algorithms })`; the key is passed as the
      certificate whose PEM text is `publicKey`. */
  type Verifier = (string, Pem.Certificate, seq<string>) -> Option<JwtPayload>

  /** The only algorithm `verify` is allowed to accept: RSASSA-PKCS1-v1_5
      with SHA-256, as section 3.1 of RFC 7518 (JWA) names it. */
  const AllowedAlgorithms: seq<string> := ["RS256"]

  /** `verifyToken`: extract the token, decode it, look up the signing key
      named by its header's `kid`, and verify the token against that key's
      public key with the algorithms restricted to RS256. */
  function VerifyToken(authHeader: Option<string>, jwks: Option<seq<JsonWebKey>>,
                       decode: Decoder, verify: Verifier): (r: Result<JwtPayload, AuthError>)
    ensures r.Success? ==>
      && GetToken(authHeader).Success?
      && decode(GetToken(authHeader).value).Some?
      && GetSigningKey(jwks, decode(GetToken(authHeader).value).value.header.kid).Success?
      && verify(GetToken(authHeader).value, Pem.EmbeddedCertificate, AllowedAlgorithms) == Some(r.value)
    ensures GetToken(authHeader).Success? ==>
      var token := GetToken(authHeader).value;
      decode(token).Some?
      && GetSigningKey(jwks, decode(token).value.header.kid).Success?
      && verify(token, Pem.EmbeddedCertificate, AllowedAlgorithms).Some?
      ==> r == Success(verify(token, Pem.EmbeddedCertificate, AllowedAlgorithms).value)
    ensures GetToken(authHeader).Failure? ==> r == Failure(GetToken(authHeader).error)
  {
    match GetToken(authHeader)
    case Failure(e) => Failure(e)
    case Success(token) =>
      match decode(token)
      case None => Failure(TokenNotDecoded)
      case Some(jwt) =>
        match GetSigningKey(jwks, jwt.header.kid)
        case Failure(e) => Failure(e)
        case Success(key) =>
          match verify(token, key.publicKey, AllowedAlgorithms)
          case None => Failure(VerificationFailed)
          case Some(payload) => Success(payload)
  }

  /** What invokes the authorizer; only the header value is read. */
  datatype AuthorizerEvent = AuthorizerEvent(authorizationToken: Option<string>)

  datatype Effect = Allow | Deny
  datatype Statement = Statement(action: string, effect: Effect, resource: string)
  datatype PolicyDocument = PolicyDocument(version: string, statement: seq<Statement>)
  datatype AuthorizerResult = AuthorizerResult(principalId: Option<string>, policyDocument: PolicyDocument)

  /** The principal reported on Deny. */
  const DeniedPrincipal: string := "user"

  /** The decision shape both branches of `handler` return. */
  function Decision(principalId: Option<string>, effect: Effect): (r: AuthorizerResult)
    ensures IsWellFormed(r) && EffectOf(r) == effect && r.principalId == principalId
  {
    AuthorizerResult(principalId,
      PolicyDocument("2012-10-17", [Statement("execute-api:Invoke", effect, "*")]))
  }

  /** A decision with one statement that invokes the API on every resource. */
  predicate IsWellFormed(d: AuthorizerResult) {
    && d.policyDocument.version == "2012-10-17"
    && |d.policyDocument.statement| == 1
    && d.policyDocument.statement[0].action == "execute-api:Invoke"
    && d.policyDocument.statement[0].resource == "*"
  }

  function EffectOf(d: AuthorizerResult): Effect
    requires IsWellFormed(d)
  {
    d.policyDocument.statement[0].effect
  }

  /** `handler`: every outcome of `verifyToken` becomes one well-formed
      decision; a verified token is allowed under its subject, anything that
      throws is denied under the principal "user". */
  function Handler(event: AuthorizerEvent, jwks: Option<seq<JsonWebKey>>,
                   decode: Decoder, verify: Verifier): (r: AuthorizerResult)
    ensures IsWellFormed(r)
    ensures EffectOf(r) == Allow <==> VerifyToken(event.authorizationToken, jwks, decode, verify).Success?
    ensures EffectOf(r) == Allow ==>
      r.principalId == VerifyToken(event.authorizationToken, jwks, decode, verify).value.sub
    ensures EffectOf(r) == Deny ==> r.principalId == Some(DeniedPrincipal)
  {
    match VerifyToken(event.authorizationToken, jwks, decode, verify)
    case Success(payload) => Decision(payload.sub, Allow)
    case Failure(_) => Decision(Some(DeniedPrincipal), Deny)
  }

  /** An allowed request carried a bearer header whose token decodes, names a
      key of the key set, and verifies against the embedded certificate with
      RS256 as the only algorithm; the principal is that token's subject. */
  lemma AllowedRequestsAreVerified(event: AuthorizerEvent, jwks: Option<seq<JsonWebKey>>,
                                   decode: Decoder, verify: Verifier)
    requires EffectOf(Handler(event, jwks, decode, verify)) == Allow
    ensures GetToken(event.authorizationToken).Success?
    ensures var token := GetToken(event.authorizationToken).value;
      && decode(token).Some?
      && jwks.Some?
      && (exists i :: 0 <= i < |jwks.value| && IsSigningCandidate(jwks.value[i])
            && jwks.value[i].kid == decode(token).value.header.kid)
      && verify(token, Pem.EmbeddedCertificate, AllowedAlgorithms).Some?
      && Handler(event, jwks, decode, verify).principalId
           == verify(token, Pem.EmbeddedCertificate, AllowedAlgorithms).value.sub
  {
    var token := GetToken(event.authorizationToken).value;
    var kid := decode(token).value.header.kid;
    assert jwks.Some? by {
      assert GetSigningKey(jwks, kid).Success?;
    }
    GetSigningKeySuccess(jwks.value, kid);
  }

  /** Conversely, a request is allowed under the token's subject when its
      bearer token decodes, some key of the fetched set passes the filter and
      carries the token's `kid`, no such key has a certificate that line 116
      cannot chunk, and `verify` accepts the token with RS256. */
  lemma VerifiedRequestsAreAllowed(event: AuthorizerEvent, keys: seq<JsonWebKey>,
                                   decode: Decoder, verify: Verifier)
    requires GetToken(event.authorizationToken).Success?
    requires var token := GetToken(event.authorizationToken).value;
      && decode(token).Some?
      && (exists i :: 0 <= i < |keys| && IsSigningCandidate(keys[i])
            && keys[i].kid == decode(token).value.header.kid)
      && !HasUnchunkableCandidate(keys)
      && verify(token, Pem.EmbeddedCertificate, AllowedAlgorithms).Some?
    ensures var token := GetToken(event.authorizationToken).value;
      Handler(event, Some(keys), decode, verify)
        == Decision(verify(token, Pem.EmbeddedCertificate, AllowedAlgorithms).value.sub, Allow)
  {
    var token := GetToken(event.authorizationToken).value;
    var kid := decode(token).value.header.kid;
    GetSigningKeyIsFirstMatch(keys, kid);
    FirstCandidateWithKidIsFirst(keys, kid);
  }

  /** `verify` honours the algorithm list: it accepts only tokens whose
      declared algorithm is one of the allowed ones. */
  ghost predicate HonoursAlgorithms(decode: Decoder, verify: Verifier) {
    forall token, key, algorithms :: verify(token, key, algorithms).Some? ==>
      decode(token).Some? && decode(token).value.header.alg.Some?
      && decode(token).value.header.alg.value in algorithms
  }

  /** With a `verify` that honours its algorithm list, only tokens declaring
      RS256 are allowed, whatever the key set holds. */
  lemma AllowedTokensDeclareRS256(event: AuthorizerEvent, jwks: Option<seq<JsonWebKey>>,
                                  decode: Decoder, verify: Verifier)
    requires HonoursAlgorithms(decode, verify)
    requires EffectOf(Handler(event, jwks, decode, verify)) == Allow
    ensures decode(GetToken(event.authorizationToken).value).value.header.alg == Some("RS256")
  {
    var token := GetToken(event.authorizationToken).value;
    assert verify(token, Pem.EmbeddedCertificate, AllowedAlgorithms).Some?;
  }

  /** An absent or empty header is denied. */
  lemma MissingHeaderIsDenied(event: AuthorizerEvent, jwks: Option<seq<JsonWebKey>>,
                              decode: Decoder, verify: Verifier)
    requires event.authorizationToken.None? || event.authorizationToken == Some("")
    ensures Handler(event, jwks, decode, verify) == Decision(Some(DeniedPrincipal), Deny)
  {
  }

  /** A header without the bearer scheme is denied. */
  lemma NonBearerHeaderIsDenied(event: AuthorizerEvent, jwks: Option<seq<JsonWebKey>>,
                                decode: Decoder, verify: Verifier)
    requires event.authorizationToken.Some?
    requires !JsText.StartsWith(JsText.Lower(event.authorizationToken.value), Scheme)
    ensures Handler(event, jwks, decode, verify) == Decision(Some(DeniedPrincipal), Deny)
  {
  }

  /** A token that does not decode is denied. */
  lemma UndecodableTokenIsDenied(event: AuthorizerEvent, jwks: Option<seq<JsonWebKey>>,
                                 decode: Decoder, verify: Verifier)
    requires GetToken(event.authorizationToken).Success?
    requires decode(GetToken(event.authorizationToken).value).None?
    ensures Handler(event, jwks, decode, verify) == Decision(Some(DeniedPrincipal), Deny)
  {
  }

  /** A token whose `kid` names no key that passes the filter is denied, even
      if `verify` would accept it. */
  lemma UnknownKidIsDenied(event: AuthorizerEvent, keys: seq<JsonWebKey>,
                           decode: Decoder, verify: Verifier)
    requires GetToken(event.authorizationToken).Success?
    requires decode(GetToken(event.authorizationToken).value).Some?
    requires var kid := decode(GetToken(event.authorizationToken).value).value.header.kid;
      forall i :: 0 <= i < |keys| ==> !(IsSigningCandidate(keys[i]) && keys[i].kid == kid)
    ensures Handler(event, Some(keys), decode, verify) == Decision(Some(DeniedPrincipal), Deny)
  {
    UnknownKidFails(keys, decode(GetToken(event.authorizationToken).value).value.header.kid);
  }

  /** When the key set cannot be fetched every request is denied. */
  lemma UnavailableKeySetIsDenied(event: AuthorizerEvent, decode: Decoder, verify: Verifier)
    ensures Handler(event, None, decode, verify) == Decision(Some(DeniedPrincipal), Deny)
  {
  }
}
