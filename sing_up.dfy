/** Sign-up (backend/src/feature/auth/sing_up.rs): validate, begin, build the customer
    (hashing the password), insert, commit, and answer id and e-mail. Any error returns
    at once, before the commit, so nothing is stored. */
module SingUpUseCase {
  import opened Wrappers
  import opened Errors
  import opened Uuid
  import opened Timestamp
  import HashBcrypt
  import opened AuthDomain
  import opened AuthValidators
  import opened Database

  /** What sign-up answers, and the committed tables after it. */
  function SingUpSpec(t: Tables, request: CustomerDtoRequest, hasher: HashBcrypt.Hasher, salt: nat, id: Uuid,
                      now: DateTime, dbNow: DateTime, faults: DbFaults)
    : (out: (Result<CustomerDtoResponse>, Tables))
    ensures out.0.Err? ==> out.1 == t
    ensures out.1.biometrics == t.biometrics
    ensures out.0.Ok? ==> request.email !in t.customers && request.email in out.1.customers
    ensures out.0.Ok? ==> out.0.value == ToResponse(out.1.customers[request.email])
  {
    match EmailAndPasswordNotEmpty(request)
    case Err(e) => (Err(e), t)
    case Ok(_) =>
      if faults.begin.Some? then (Err(BeginError(faults.begin.value)), t)
      else
        match New(hasher, request.email, request.password, salt, id, now)
        case Err(e) => (Err(e), t)
        case Ok(customer) =>
          var inserted := Insert(t.customers, customer, faults.write, dbNow);
          if inserted.0.Err? then (Err(inserted.0.error), t)
          else if faults.commit.Some? then (Err(CommitError(faults.commit.value)), t)
          else (Ok(ToResponse(inserted.0.value)), t.(customers := inserted.1))
  }

  /** `SingUpUseCase::sing_up`. */
  method SingUp(app: AppState, request: CustomerDtoRequest, hasher: HashBcrypt.Hasher, salt: nat, id: Uuid,
                now: DateTime, dbNow: DateTime, faults: DbFaults)
    returns (r: Result<CustomerDtoResponse>)
    modifies app.pool
    ensures (r, app.pool.tables) == SingUpSpec(old(app.pool.tables), request, hasher, salt, id, now, dbNow, faults)
  {
    var valid :- EmailAndPasswordNotEmpty(request);
    var transaction :- app.BeginTransaction(faults.begin);
    var customer :- New(hasher, request.email, request.password, salt, id, now);
    customer :- transaction.InsertCustomer(customer, faults.write, dbNow);
    var committed :- app.CommitTransaction(transaction, faults.commit);
    r := Ok(CustomerDtoResponse(customer.id, customer.email));
  }

  /** An empty e-mail or password is refused with 400 before anything else happens. */
  lemma SingUpRejectsEmptyFields(t: Tables, request: CustomerDtoRequest, hasher: HashBcrypt.Hasher, salt: nat, id: Uuid,
                                 now: DateTime, dbNow: DateTime, faults: DbFaults)
    requires request.email == [] || request.password == []
    ensures SingUpSpec(t, request, hasher, salt, id, now, dbNow, faults)
            == (Err(Fail(BadRequest, "email and/or password is expected")), t)
  {
  }

  /** With no failure, a new e-mail and a new id, the customer is stored with the digest
      of the password and the database's creation time, and the answer is its id and
      e-mail. */
  lemma SingUpStoresCustomer(t: Tables, request: CustomerDtoRequest, hasher: HashBcrypt.Hasher, salt: nat, id: Uuid,
                             now: DateTime, dbNow: DateTime)
    requires request.email != [] && request.password != []
    requires hasher.hash(request.password, salt).Hashed?
    requires request.email !in t.customers && !HasId(t.customers, id)
    ensures var out := SingUpSpec(t, request, hasher, salt, id, now, dbNow, NoFaults);
      && out.0 == Ok(CustomerDtoResponse(id, request.email))
      && out.1 == t.(customers := t.customers[request.email :=
           Customer(id, request.email, hasher.hash(request.password, salt).digest, dbNow)])
  {
  }

  /** Signing up with an e-mail already taken is a 500 and stores nothing, whatever else
      happens. */
  lemma SingUpTakenEmail(t: Tables, request: CustomerDtoRequest, hasher: HashBcrypt.Hasher, salt: nat, id: Uuid,
                         now: DateTime, dbNow: DateTime, faults: DbFaults)
    requires request.email != [] && request.password != []
    requires request.email in t.customers
    ensures var out := SingUpSpec(t, request, hasher, salt, id, now, dbNow, faults);
      out.0.Err? && out.1 == t && IntoResponse(out.0.error).status == InternalServerError
  {
  }

  /** Sign-up keeps the database consistent. */
  lemma SingUpKeepsConsistent(t: Tables, request: CustomerDtoRequest, hasher: HashBcrypt.Hasher, salt: nat, id: Uuid,
                              now: DateTime, dbNow: DateTime, faults: DbFaults)
    requires Consistent(t)
    ensures Consistent(SingUpSpec(t, request, hasher, salt, id, now, dbNow, faults).1)
  {
    var out := SingUpSpec(t, request, hasher, salt, id, now, dbNow, faults);
    if out.0.Ok? {
      var customer := New(hasher, request.email, request.password, salt, id, now).value;
      InsertKeepsTableValid(t.customers, customer, faults.write, dbNow);
      IdsAfterInsert(t.customers, customer, faults.write, dbNow);
    }
  }
}
