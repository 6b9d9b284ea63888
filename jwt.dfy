/** Authorization tokens (src/support/jwt.rs): RS256-signed JSON Web Tokens whose keys
    are kept as base64 of PEM text. PEM parsing, RSA signing and the JWS compact
    serialisation of section 7.1 of RFC 7515 belong to the `jsonwebtoken` crate and are
    parameters here (`JwtBackend`); the clock is a parameter too.

    The rule the module keeps: a problem with a key is the server's (500), a problem
    with a token under a good key is the caller's (401). */
module Jwt {
  import opened Wrappers
  import opened Errors
  import opened Uuid
  import HashBase64

  /** `jsonwebtoken::Algorithm`. */
  datatype Algorithm = HS256 | HS384 | HS512 | ES256 | ES384 | RS256 | RS384 | RS512 | PS256 | PS384 | PS512 | EdDSA

  /** The `Debug` text of an algorithm. */
  function AlgorithmName(a: Algorithm): string {
    match a
    case HS256 => "HS256" case HS384 => "HS384" case HS512 => "HS512"
    case ES256 => "ES256" case ES384 => "ES384"
    case RS256 => "RS256" case RS384 => "RS384" case RS512 => "RS512"
    case PS256 => "PS256" case PS384 => "PS384" case PS512 => "PS512"
    case EdDSA => "EdDSA"
  }

  /** `AuthorizationClaims::ALGORITHM`. */
  const Alg: Algorithm := RS256

  /** `AuthorizationClaims`: subject, e-mail and expiry in seconds since the epoch. */
  datatype AuthorizationClaims = AuthorizationClaims(sub: Uuid, customerEmail: string, exp: nat)

  /** A `jsonwebtoken::errors::Error`, by its `Display` and its `Debug` text. */
  datatype JwtError = JwtError(display: string, debug: string)

  /** A key read from PEM text; the model keeps the text it came from. */
  datatype EncodingKey = EncodingKey(pem: string)
  datatype DecodingKey = DecodingKey(pem: string)

  /** The outcome of `EncodingKey::from_rsa_pem` / `DecodingKey::from_rsa_pem`. */
  datatype PemOutcome = PemRead | PemRejected(err: JwtError)

  /** The outcome of `jsonwebtoken::encode`. */
  datatype SignOutcome = Signed(token: string) | SignFailed(err: JwtError)

  /** The outcome of `jsonwebtoken::decode` with `Validation::new(algorithm)`. */
  datatype VerifyOutcome = Accepted(claims: AuthorizationClaims) | Rejected(err: JwtError)

  /** The `jsonwebtoken` crate: reading PEM keys, signing claims under a header with the
      given algorithm, and checking a token against a public key and an algorithm at a
      given time. `KeyPair(private, public)` says two PEM texts belong together. */
  datatype JwtBackend = JwtBackend(
    readPrivatePem: string -> PemOutcome,
    readPublicPem: string -> PemOutcome,
    encode: (Algorithm, AuthorizationClaims, EncodingKey) -> SignOutcome,
    decode: (string, DecodingKey, Algorithm, int) -> VerifyOutcome,
    keyPair: (string, string) -> bool)

  /** The default leeway of `Validation`, in seconds, past `exp`. */
  const Leeway: int := 60

  /** `HeaderValue::from_str` accepts visible ASCII and tab only. */
  predicate IsHeaderValue(s: string) {
    forall i :: 0 <= i < |s| ==> s[i] == '\t' || (' ' <= s[i] <= '~')
  }

  /** What RS256 and the compact serialisation promise: a token signed with a private
      key is accepted with the matching public key, with the same claims, as long as
      `exp` (plus the leeway) has not passed; and a compact token is base64url and dots,
      so it is a valid header value. */
  ghost predicate Sound(b: JwtBackend) {
    && (forall claims, priv, pub, now ::
          b.keyPair(priv, pub) && b.readPublicPem(pub).PemRead? && b.encode(RS256, claims, EncodingKey(priv)).Signed?
          && now <= claims.exp + Leeway
          ==> b.decode(b.encode(RS256, claims, EncodingKey(priv)).token, DecodingKey(pub), RS256, now) == Accepted(claims))
    && (forall alg, claims, key ::
          b.encode(alg, claims, key).Signed? ==> IsHeaderValue(b.encode(alg, claims, key).token))
  }

  /** `AuthorizationClaims::new`: the claims of a customer for `durationInSeconds` from
      `now`. The duration is an `i32`; a negative expiry makes the `usize` conversion
      panic, which the precondition excludes. */
  function NewClaims(customerId: Uuid, customerEmail: string, durationInSeconds: int, now: int): (c: AuthorizationClaims)
    requires -0x8000_0000 <= durationInSeconds < 0x8000_0000
    requires now + durationInSeconds >= 0
    ensures c.sub == customerId && c.customerEmail == customerEmail
    ensures c.exp - now == durationInSeconds
  {
    AuthorizationClaims(customerId, customerEmail, now + durationInSeconds)
  }

  /** Claims made for a positive duration are still valid until that duration has passed. */
  lemma NewClaimsValidUntilExpiry(customerId: Uuid, customerEmail: string, durationInSeconds: int, now: int, later: int)
    requires 0 < durationInSeconds < 0x8000_0000 && now >= 0
    requires now <= later <= now + durationInSeconds + Leeway
    ensures later <= NewClaims(customerId, customerEmail, durationInSeconds, now).exp + Leeway
    ensures NewClaims(customerId, customerEmail, durationInSeconds, now).exp > now
  {
  }

  /** The error for an algorithm the keys are not read for. */
  function InvalidAlgorithm(algorithm: Algorithm): AppError {
    Fail(InternalServerError, "Invalid jwt algorithm=" + AlgorithmName(algorithm))
  }

  /** The error for a PEM text the library refuses. */
  function UnreadableKey(which: string, algorithm: Algorithm, err: JwtError): AppError {
    ToBusinessError(LibraryError(JsonWebToken, err.display),
      "Error while try to read " + which + " Key " + AlgorithmName(algorithm) + ": " + err.display, None)
  }

  /** `encoding_key`: base64 first, then the PEM text for RS256; any other algorithm is refused. */
  function EncodingKeyFor(b: JwtBackend, privateKey: string, algorithm: Algorithm): (r: Result<EncodingKey>)
    ensures HashBase64.Decode(privateKey).Err? ==> r == Err(HashBase64.Decode(privateKey).error)
    ensures HashBase64.Decode(privateKey).Ok? && algorithm != RS256 ==> r == Err(InvalidAlgorithm(algorithm))
    ensures r.Ok? <==> HashBase64.Decode(privateKey).Ok? && algorithm == RS256
                       && b.readPrivatePem(HashBase64.Decode(privateKey).value).PemRead?
    ensures r.Ok? ==> r.value == EncodingKey(HashBase64.Decode(privateKey).value)
    ensures r.Err? ==> IntoResponse(r.error).status == InternalServerError
  {
    var pem :- HashBase64.Decode(privateKey);
    match algorithm
    case RS256 =>
      (match b.readPrivatePem(pem)
       case PemRead => Ok(EncodingKey(pem))
       case PemRejected(err) => Err(UnreadableKey("Private", algorithm, err)))
    case _ => Err(InvalidAlgorithm(algorithm))
  }

  /** `decoding_key`: the same steps with the public key. */
  function DecodingKeyFor(b: JwtBackend, publicKey: string, algorithm: Algorithm): (r: Result<DecodingKey>)
    ensures HashBase64.Decode(publicKey).Err? ==> r == Err(HashBase64.Decode(publicKey).error)
    ensures HashBase64.Decode(publicKey).Ok? && algorithm != RS256 ==> r == Err(InvalidAlgorithm(algorithm))
    ensures r.Ok? <==> HashBase64.Decode(publicKey).Ok? && algorithm == RS256
                       && b.readPublicPem(HashBase64.Decode(publicKey).value).PemRead?
    ensures r.Ok? ==> r.value == DecodingKey(HashBase64.Decode(publicKey).value)
    ensures r.Err? ==> IntoResponse(r.error).status == InternalServerError
  {
    var pem :- HashBase64.Decode(publicKey);
    match algorithm
    case RS256 =>
      (match b.readPublicPem(pem)
       case PemRead => Ok(DecodingKey(pem))
       case PemRejected(err) => Err(UnreadableKey("Public", algorithm, err)))
    case _ => Err(InvalidAlgorithm(algorithm))
  }

  /** `Jwt::generate_jwt`: the key, then the signature under an RS256 header. Every
      failure is a 500. */
  function GenerateJwt(b: JwtBackend, claims: AuthorizationClaims, privateKey: string): (r: Result<string>)
    ensures EncodingKeyFor(b, privateKey, Alg).Err? ==> r == Err(EncodingKeyFor(b, privateKey, Alg).error)
    ensures r.Ok? <==> EncodingKeyFor(b, privateKey, Alg).Ok?
                       && b.encode(Alg, claims, EncodingKeyFor(b, privateKey, Alg).value).Signed?
    ensures r.Ok? ==> r.value == b.encode(Alg, claims, EncodingKeyFor(b, privateKey, Alg).value).token
    ensures r.Err? ==> IntoResponse(r.error).status == InternalServerError
  {
    var key :- EncodingKeyFor(b, privateKey, Alg);
    match b.encode(Alg, claims, key)
    case Signed(token) => Ok(token)
    case SignFailed(err) =>
      Err(ToBusinessError(LibraryError(JsonWebToken, err.display), "Error while try to generate Authorization JWT", None))
  }

  /** `extract_claims`: the public key is read before the token is looked at; a token the
      library refuses is 401 "Invalid JWT: <debug>" without tags. */
  function ExtractClaims(b: JwtBackend, jwt: string, publicKey: string, algorithm: Algorithm, now: int): (r: Result<AuthorizationClaims>)
    ensures DecodingKeyFor(b, publicKey, algorithm).Err? ==> r == Err(DecodingKeyFor(b, publicKey, algorithm).error)
    ensures DecodingKeyFor(b, publicKey, algorithm).Ok? ==>
      match b.decode(jwt, DecodingKeyFor(b, publicKey, algorithm).value, algorithm, now)
      case Accepted(claims) => r == Ok(claims)
      case Rejected(err) => r == Err(Fail(Unauthorized, "Invalid JWT: " + err.debug))
  {
    var key :- DecodingKeyFor(b, publicKey, algorithm);
    match b.decode(jwt, key, algorithm, now)
    case Accepted(claims) => Ok(claims)
    case Rejected(err) => Err(Fail(Unauthorized, "Invalid JWT: " + err.debug))
  }

  /** `Jwt::extract_jwt`: `extract_claims` with RS256. */
  function ExtractJwt(b: JwtBackend, jwt: string, publicKey: string, now: int): (r: Result<AuthorizationClaims>)
    ensures r.Ok? <==> DecodingKeyFor(b, publicKey, Alg).Ok? && b.decode(jwt, DecodingKeyFor(b, publicKey, Alg).value, Alg, now).Accepted?
    ensures r.Ok? ==> r.value == b.decode(jwt, DecodingKeyFor(b, publicKey, Alg).value, Alg, now).claims
    ensures DecodingKeyFor(b, publicKey, Alg).Err? ==> r == Err(DecodingKeyFor(b, publicKey, Alg).error)
  {
    ExtractClaims(b, jwt, publicKey, Alg, now)
  }

  /** The split between key and token problems: extraction fails with 401 exactly when
      the key was good and the token was refused, and with 500 exactly when the key was
      bad, whatever the token. */
  lemma KeyOrTokenError(b: JwtBackend, jwt: string, publicKey: string, now: int)
    ensures var r := ExtractJwt(b, jwt, publicKey, now);
      && (r.Err? && IntoResponse(r.error).status == Unauthorized <==>
            DecodingKeyFor(b, publicKey, Alg).Ok? && b.decode(jwt, DecodingKeyFor(b, publicKey, Alg).value, Alg, now).Rejected?)
      && (r.Err? && IntoResponse(r.error).status == InternalServerError <==> DecodingKeyFor(b, publicKey, Alg).Err?)
      && (r.Err? && IntoResponse(r.error).status == Unauthorized ==> r.error.data.tags.None?)
  {
  }

  /** Round trip: a token generated with a private key is extracted, before it expires,
      with the matching public key, and gives back the claims it was made from. */
  lemma GenerateThenExtract(b: JwtBackend, claims: AuthorizationClaims, privateKey: string, publicKey: string, now: int)
    requires Sound(b)
    requires GenerateJwt(b, claims, privateKey).Ok?
    requires DecodingKeyFor(b, publicKey, Alg).Ok?
    requires b.keyPair(HashBase64.Decode(privateKey).value, HashBase64.Decode(publicKey).value)
    requires now <= claims.exp + Leeway
    ensures ExtractJwt(b, GenerateJwt(b, claims, privateKey).value, publicKey, now) == Ok(claims)
  {
  }

  /** An empty key passes base64 (it decodes to the empty text) and fails at PEM reading
      when the library refuses empty PEM text; the error names the key and is a 500. */
  lemma EmptyKeys(b: JwtBackend, claims: AuthorizationClaims, jwt: string, now: int, err: JwtError)
    requires b.readPrivatePem("") == PemRejected(err) && b.readPublicPem("") == PemRejected(err)
    ensures GenerateJwt(b, claims, "") == Err(UnreadableKey("Private", RS256, err))
    ensures ExtractJwt(b, jwt, "", now) == Err(UnreadableKey("Public", RS256, err))
  {
    HashBase64.DecodeEmpty();
  }

  /** A key that is not base64 fails with the base64 error itself, before the algorithm
      is looked at. */
  lemma BadBase64Key(b: JwtBackend, key: string, algorithm: Algorithm, claims: AuthorizationClaims, jwt: string, now: int)
    requires HashBase64.Decode(key).Err?
    ensures EncodingKeyFor(b, key, algorithm) == Err(HashBase64.Decode(key).error)
    ensures GenerateJwt(b, claims, key) == Err(HashBase64.Decode(key).error)
    ensures ExtractJwt(b, jwt, key, now) == Err(HashBase64.Decode(key).error)
  {
  }
}
