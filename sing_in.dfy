/** Sign-in (src/feature/auth/sing_in.rs): validate, begin, read the customer by e-mail,
    commit the read, check the password against the stored digest, and on a match answer
    id and e-mail with a 30-second RS256 token in the `Authorization` header. */
module SingInUseCase {
  import opened Wrappers
  import opened Errors
  import opened Uuid
  import opened Timestamp
  import HashBcrypt
  import opened AuthDomain
  import opened AuthValidators
  import opened Database
  import opened Jwt
  import SingUpUseCase

  /** The lifetime of a sign-in token, in seconds. */
  const TokenLifetime := 30

  /** The name of the header that carries the token. */
  const AuthorizationHeader := "Authorization"

  /** The answer to a sign-in: the response headers and the JSON body. */
  datatype SignInResponse = SignInResponse(headers: map<string, string>, body: CustomerDtoResponse)

  /** What sign-in answers. It only reads, so the committed tables stay as they are. */
  function SingInSpec(t: Tables, request: CustomerDtoRequest, hasher: HashBcrypt.Hasher, backend: JwtBackend,
                      privateKey: string, now: nat, faults: DbFaults)
    : (r: Result<SignInResponse>)
    ensures r.Ok? ==> request.email in t.customers && r.value.body == ToResponse(t.customers[request.email])
    ensures r.Ok? ==> r.value.headers.Keys == {AuthorizationHeader}
    ensures r.Ok? ==> HashBcrypt.Verify(hasher, t.customers[request.email].password, request.password) == Ok(true)
  {
    var valid :- EmailAndPasswordNotEmpty(request);
    if faults.begin.Some? then Err(BeginError(faults.begin.value))
    else
      var customer :- GetBy(t.customers, request.email, faults.read);
      if faults.commit.Some? then Err(CommitError(faults.commit.value))
      else
        var matches :- HashBcrypt.Verify(hasher, customer.password, request.password);
        if matches then
          var claims := NewClaims(customer.id, customer.email, TokenLifetime, now);
          var jwt :- GenerateJwt(backend, claims, privateKey);
          Ok(SignInResponse(map[AuthorizationHeader := jwt], ToResponse(customer)))
        else Err(Fail(Unauthorized, "No access"))
  }

  /** `SingInUseCase::sing_in`. The token goes into a header with `HeaderValue::from_str`
      and `expect`; a sound backend makes tokens that are valid header values, so that
      `expect` never fires. */
  method SingIn(app: AppState, request: CustomerDtoRequest, hasher: HashBcrypt.Hasher, backend: JwtBackend,
                privateKey: string, now: nat, faults: DbFaults)
    returns (r: Result<SignInResponse>)
    requires Sound(backend)
    modifies app.pool
    ensures r == SingInSpec(old(app.pool.tables), request, hasher, backend, privateKey, now, faults)
    ensures app.pool.tables == old(app.pool.tables)
  {
    var valid :- EmailAndPasswordNotEmpty(request);
    var transaction :- app.BeginTransaction(faults.begin);
    var customer :- transaction.GetCustomerBy(request.email, faults.read);
    var committed :- app.CommitTransaction(transaction, faults.commit);
    var matches :- HashBcrypt.Verify(hasher, customer.password, request.password);
    if matches {
      var claims := NewClaims(customer.id, customer.email, TokenLifetime, now);
      var jwt :- GenerateJwt(backend, claims, privateKey);
      assert IsHeaderValue(jwt);
      var header: map<string, string> := map[];
      header := header[AuthorizationHeader := jwt];
      r := Ok(SignInResponse(header, CustomerDtoResponse(customer.id, customer.email)));
    } else {
      r := Err(Fail(Unauthorized, "No access"));
    }
  }

  /** An empty e-mail or password is refused with 400 before anything else happens. */
  lemma SingInRejectsEmptyFields(t: Tables, request: CustomerDtoRequest, hasher: HashBcrypt.Hasher, backend: JwtBackend,
                                 privateKey: string, now: nat, faults: DbFaults)
    requires request.email == [] || request.password == []
    ensures SingInSpec(t, request, hasher, backend, privateKey, now, faults)
            == Err(Fail(BadRequest, "email and/or password is expected"))
  {
  }

  /** An unknown e-mail is the lookup's 404. */
  lemma SingInUnknownEmail(t: Tables, request: CustomerDtoRequest, hasher: HashBcrypt.Hasher, backend: JwtBackend,
                           privateKey: string, now: nat)
    requires request.email != [] && request.password != []
    requires request.email !in t.customers
    ensures SingInSpec(t, request, hasher, backend, privateKey, now, NoFaults) == Err(Fail(NotFound, "Customer not found"))
  {
  }

  /** The stored digest decides sign-in by the bcrypt key of the password: a password whose
      key differs from that of the one the digest was made from is 401 "No access", and one
      with the same key (the same password, or one agreeing with it on the first 72 bytes)
      is answered like the right one. */
  lemma SingInPasswordByKey(t: Tables, request: CustomerDtoRequest, hasher: HashBcrypt.Hasher, backend: JwtBackend,
                            privateKey: string, now: nat, password: string, salt: nat)
    requires HashBcrypt.Distinguishes(hasher)
    requires request.email != [] && request.password != []
    requires request.email in t.customers
    requires hasher.hash(password, salt).Hashed?
    requires t.customers[request.email].password == hasher.hash(password, salt).digest
    ensures HashBcrypt.Key(request.password) != HashBcrypt.Key(password) ==>
      SingInSpec(t, request, hasher, backend, privateKey, now, NoFaults) == Err(Fail(Unauthorized, "No access"))
    ensures HashBcrypt.Key(request.password) == HashBcrypt.Key(password) ==>
      var customer := t.customers[request.email];
      var jwt := GenerateJwt(backend, NewClaims(customer.id, customer.email, TokenLifetime, now), privateKey);
      SingInSpec(t, request, hasher, backend, privateKey, now, NoFaults) ==
        if jwt.Ok? then Ok(SignInResponse(map[AuthorizationHeader := jwt.value], ToResponse(customer)))
        else Err(jwt.error)
  {
    HashBcrypt.VerifyEncoded(hasher, password, salt, request.password);
  }

  /** The read is committed before the password is looked at: a failed commit is answered
      whatever the password and the hasher would have said. */
  lemma SingInCommitsBeforeVerify(t: Tables, request: CustomerDtoRequest, hasher: HashBcrypt.Hasher, backend: JwtBackend,
                                  privateKey: string, now: nat, cause: string)
    requires request.email != [] && request.password != [] && request.email in t.customers
    ensures SingInSpec(t, request, hasher, backend, privateKey, now, NoFaults.(commit := Some(cause)))
            == Err(CommitError(cause))
  {
  }

  /** Every sign-in failure is a 400, a 404, a 500, or the 401 "No access" of a password
      that does not match; the 401 is given for that reason only. */
  lemma SingInErrorStatus(t: Tables, request: CustomerDtoRequest, hasher: HashBcrypt.Hasher, backend: JwtBackend,
                          privateKey: string, now: nat, faults: DbFaults)
    ensures var r := SingInSpec(t, request, hasher, backend, privateKey, now, faults);
      r.Err? ==> IntoResponse(r.error).status in {BadRequest, Unauthorized, NotFound, InternalServerError}
    ensures var r := SingInSpec(t, request, hasher, backend, privateKey, now, faults);
      r.Err? && IntoResponse(r.error).status == Unauthorized <==>
        && request.email != [] && request.password != []
        && faults.begin.None? && faults.read.None? && faults.commit.None? && request.email in t.customers
        && HashBcrypt.Verify(hasher, t.customers[request.email].password, request.password) == Ok(false)
    ensures var r := SingInSpec(t, request, hasher, backend, privateKey, now, faults);
      r.Err? && IntoResponse(r.error).status == Unauthorized ==> r.error == Fail(Unauthorized, "No access")
  {
    var r := SingInSpec(t, request, hasher, backend, privateKey, now, faults);
    if request.email != [] && request.password != [] && faults.begin.None? && faults.read.None?
       && faults.commit.None? && request.email in t.customers {
      var customer := t.customers[request.email];
      var verdict := HashBcrypt.Verify(hasher, customer.password, request.password);
      HashBcrypt.FailuresAreServerErrors(hasher, request.password, 0, customer.password);
      if verdict == Ok(true) {
        var claims := NewClaims(customer.id, customer.email, TokenLifetime, now);
        assert r.Err? ==> r.error == GenerateJwt(backend, claims, privateKey).error;
      }
    }
  }

  /** After a successful sign-up, signing in with the same e-mail and password answers the
      new customer's id and e-mail with the token of its claims, or fails with the error
      of making that token. */
  lemma SignUpThenSignIn(t: Tables, request: CustomerDtoRequest, hasher: HashBcrypt.Hasher, salt: nat, id: Uuid,
                         created: DateTime, dbNow: DateTime, backend: JwtBackend, privateKey: string, now: nat)
    requires HashBcrypt.Complete(hasher)
    requires SingUpUseCase.SingUpSpec(t, request, hasher, salt, id, created, dbNow, NoFaults).0.Ok?
    ensures var t' := SingUpUseCase.SingUpSpec(t, request, hasher, salt, id, created, dbNow, NoFaults).1;
      var jwt := GenerateJwt(backend, NewClaims(id, request.email, TokenLifetime, now), privateKey);
      SingInSpec(t', request, hasher, backend, privateKey, now, NoFaults) ==
        if jwt.Ok? then Ok(SignInResponse(map[AuthorizationHeader := jwt.value], CustomerDtoResponse(id, request.email)))
        else Err(jwt.error)
  {
    var t' := SingUpUseCase.SingUpSpec(t, request, hasher, salt, id, created, dbNow, NoFaults).1;
    var stored := t'.customers[request.email];
    assert stored.id == id && stored.email == request.email;
    assert stored.password == hasher.hash(request.password, salt).digest;
    HashBcrypt.VerifyOwnPassword(hasher, request.password, salt);
  }

  /** The token a sign-in answers, read back within its lifetime with the public key that
      pairs with the private key, names the customer of the body. */
  lemma SignInTokenNamesCustomer(t: Tables, request: CustomerDtoRequest, hasher: HashBcrypt.Hasher, backend: JwtBackend,
                                 privateKey: string, publicKey: string, now: nat, later: int, faults: DbFaults)
    requires Sound(backend)
    requires SingInSpec(t, request, hasher, backend, privateKey, now, faults).Ok?
    requires DecodingKeyFor(backend, publicKey, Alg).Ok?
    requires backend.keyPair(HashBase64Decoded(privateKey), HashBase64Decoded(publicKey))
    requires now <= later <= now + TokenLifetime
    ensures var r := SingInSpec(t, request, hasher, backend, privateKey, now, faults).value;
      var claims := ExtractJwt(backend, r.headers[AuthorizationHeader], publicKey, later);
      claims.Ok? && claims.value.sub == r.body.id && claims.value.customerEmail == r.body.email
  {
    var customer := t.customers[request.email];
    var claims := NewClaims(customer.id, customer.email, TokenLifetime, now);
    GenerateThenExtract(backend, claims, privateKey, publicKey, later);
  }

  /** The decoded text of a key that decodes (a helper for stating key pairs). */
  function HashBase64Decoded(key: string): string {
    var d := Jwt.HashBase64.Decode(key);
    if d.Ok? then d.value else ""
  }
}
