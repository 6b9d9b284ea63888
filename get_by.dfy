/** Reading a biometric record (src/feature/biometrics/get_by.rs): validate the id, begin,
    read the record of the customer, commit the read, and answer its response form. */
module GetByUseCase {
  import opened Wrappers
  import opened Errors
  import opened Uuid
  import opened Timestamp
  import opened BiometricsDomain
  import opened BiometricsValidators
  import opened Database
  import CreateUseCase

  /** What reading answers. It only reads, so the committed tables stay as they are. */
  function GetBySpec(t: Tables, customerId: Uuid, faults: DbFaults): (r: Result<BiometricDtoResponse>)
    ensures r.Ok? <==> !IsNil(customerId) && faults.begin.None? && faults.read.None?
                       && faults.commit.None? && customerId in t.biometrics
    ensures r.Ok? ==> r.value == ToResponse(t.biometrics[customerId])
  {
    var valid :- CustomerIdNotEmpty(customerId);
    if faults.begin.Some? then Err(BeginError(faults.begin.value))
    else
      var biometric :- GetBy(t.biometrics, customerId, faults.read);
      if faults.commit.Some? then Err(CommitError(faults.commit.value))
      else Ok(ToResponse(biometric))
  }

  /** `GetByUseCase::get_by`. */
  method GetByCustomer(app: AppState, customerId: Uuid, faults: DbFaults) returns (r: Result<BiometricDtoResponse>)
    modifies app.pool
    ensures r == GetBySpec(old(app.pool.tables), customerId, faults)
    ensures app.pool.tables == old(app.pool.tables)
  {
    var valid :- CustomerIdNotEmpty(customerId);
    var transaction :- app.BeginTransaction(faults.begin);
    var biometric :- transaction.GetBiometricsBy(customerId, faults.read);
    var committed :- app.CommitTransaction(transaction, faults.commit);
    r := Ok(ToResponse(biometric));
  }

  /** The nil id is refused with 400. */
  lemma GetByRejectsNil(t: Tables, faults: DbFaults)
    ensures GetBySpec(t, Nil, faults) == Err(Fail(BadRequest, "customer_id is expected"))
  {
    NilIsNil();
  }

  /** A customer without a record is 404 "Biometric not found". */
  lemma GetByMissing(t: Tables, customerId: Uuid)
    requires !IsNil(customerId) && customerId !in t.biometrics
    ensures GetBySpec(t, customerId, NoFaults) == Err(Fail(NotFound, "Biometric not found"))
  {
  }

  /** A record read right after it was created is answered as creation answered it. */
  lemma CreateThenGetBy(t: Tables, request: BiometricDtoRequest, createdAt: DateTime, updatedAt: DateTime,
                        dbNow: DateTime)
    requires !IsNil(request.customerId)
    requires CreateUseCase.CreateSpec(t, request, createdAt, updatedAt, dbNow, NoFaults).0.Ok?
    ensures var out := CreateUseCase.CreateSpec(t, request, createdAt, updatedAt, dbNow, NoFaults);
      GetBySpec(out.1, request.customerId, NoFaults) == out.0
  {
  }
}
