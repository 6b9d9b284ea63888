/** Creating a biometric record (src/feature/biometrics/create.rs): validate, begin, build
    a record under review, insert it, commit, and answer its response form. */
module CreateUseCase {
  import opened Wrappers
  import opened Errors
  import opened Uuid
  import opened Timestamp
  import AuthDomain
  import opened BiometricsDomain
  import opened BiometricsValidators
  import opened Database

  /** What creation answers, and the committed tables after it. `createdAt` and `updatedAt`
      are the two readings of the clock in `Biometrics::new`; `dbNow` is the database's. */
  function CreateSpec(t: Tables, request: BiometricDtoRequest, createdAt: DateTime, updatedAt: DateTime,
                      dbNow: DateTime, faults: DbFaults)
    : (out: (Result<BiometricDtoResponse>, Tables))
    ensures out.0.Err? ==> out.1 == t
    ensures out.1.customers == t.customers
    ensures out.0.Ok? ==> request.customerId !in t.biometrics && request.customerId in out.1.biometrics
    ensures out.0.Ok? ==> out.0.value == ToResponse(out.1.biometrics[request.customerId])
  {
    match CustomerIdAndImageNotEmpty(request)
    case Err(e) => (Err(e), t)
    case Ok(_) =>
      if faults.begin.Some? then (Err(BeginError(faults.begin.value)), t)
      else
        var biometric := New(request.customerId, request.imagePath, createdAt, updatedAt);
        var inserted := Insert(t.biometrics, AuthDomain.Ids(t.customers), biometric, faults.write, dbNow);
        if inserted.0.Err? then (Err(inserted.0.error), t)
        else if faults.commit.Some? then (Err(CommitError(faults.commit.value)), t)
        else (Ok(ToResponse(inserted.0.value)), t.(biometrics := inserted.1))
  }

  /** `CreateUseCase::create`. */
  method Create(app: AppState, request: BiometricDtoRequest, createdAt: DateTime, updatedAt: DateTime,
                dbNow: DateTime, faults: DbFaults)
    returns (r: Result<BiometricDtoResponse>)
    modifies app.pool
    ensures (r, app.pool.tables) == CreateSpec(old(app.pool.tables), request, createdAt, updatedAt, dbNow, faults)
  {
    var valid :- CustomerIdAndImageNotEmpty(request);
    var transaction :- app.BeginTransaction(faults.begin);
    var biometric := New(request.customerId, request.imagePath, createdAt, updatedAt);
    biometric :- transaction.InsertBiometrics(biometric, faults.write, dbNow);
    var committed :- app.CommitTransaction(transaction, faults.commit);
    r := Ok(ToResponse(biometric));
  }

  /** An empty image path is refused with 400 before anything else happens. */
  lemma CreateRejectsEmptyImage(t: Tables, request: BiometricDtoRequest, createdAt: DateTime, updatedAt: DateTime,
                                dbNow: DateTime, faults: DbFaults)
    requires request.imagePath == []
    ensures CreateSpec(t, request, createdAt, updatedAt, dbNow, faults)
            == (Err(Fail(BadRequest, "customer_id and/or image_path is expected")), t)
  {
  }

  /** A record for a customer that does not exist is a 500 and stores nothing. */
  lemma CreateUnknownCustomer(t: Tables, request: BiometricDtoRequest, createdAt: DateTime, updatedAt: DateTime,
                              dbNow: DateTime, faults: DbFaults)
    requires !AuthDomain.HasId(t.customers, request.customerId)
    ensures var out := CreateSpec(t, request, createdAt, updatedAt, dbNow, faults);
      out.0.Err? && out.1 == t
      && IntoResponse(out.0.error).status == (if request.imagePath == [] then BadRequest else InternalServerError)
  {
  }

  /** A second record for the same customer is a 500 and stores nothing. */
  lemma CreateTwice(t: Tables, request: BiometricDtoRequest, createdAt: DateTime, updatedAt: DateTime,
                    dbNow: DateTime, faults: DbFaults)
    requires request.imagePath != []
    requires request.customerId in t.biometrics
    ensures var out := CreateSpec(t, request, createdAt, updatedAt, dbNow, faults);
      out.0.Err? && out.1 == t && IntoResponse(out.0.error).status == InternalServerError
  {
  }

  /** With no failure, for an existing customer without a record, the record is stored
      under review with the database's creation time and the handler's update time, and
      the answer is its response form. */
  lemma CreateStoresRecord(t: Tables, request: BiometricDtoRequest, createdAt: DateTime, updatedAt: DateTime,
                           dbNow: DateTime)
    requires request.imagePath != []
    requires AuthDomain.HasId(t.customers, request.customerId) && request.customerId !in t.biometrics
    ensures var out := CreateSpec(t, request, createdAt, updatedAt, dbNow, NoFaults);
      var stored := Biometrics(request.customerId, request.imagePath, InAnalysis, dbNow, updatedAt);
      out == (Ok(ToResponse(stored)), t.(biometrics := t.biometrics[request.customerId := stored]))
  {
  }

  /** Creation keeps the database consistent. */
  lemma CreateKeepsConsistent(t: Tables, request: BiometricDtoRequest, createdAt: DateTime, updatedAt: DateTime,
                              dbNow: DateTime, faults: DbFaults)
    requires Consistent(t)
    ensures Consistent(CreateSpec(t, request, createdAt, updatedAt, dbNow, faults).1)
  {
    var biometric := New(request.customerId, request.imagePath, createdAt, updatedAt);
    InsertKeepsTableValid(t.biometrics, AuthDomain.Ids(t.customers), biometric, faults.write, dbNow);
  }
}
