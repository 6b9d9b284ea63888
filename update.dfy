/** Updating a biometric record (src/feature/biometrics/update.rs): validate, begin, read
    the record of the customer, replace its image path and status, write it back, commit,
    and answer its response form. The write goes through the statement of
    `Biometrics::update`; `UpdateSpecWith` takes that statement's `SET` list, so that the
    handler can be stated both with the statement as written and with the corrected one. */
module UpdateUseCase {
  import opened Wrappers
  import opened Errors
  import opened Uuid
  import opened Timestamp
  import opened BiometricsDomain
  import opened BiometricsValidators
  import opened Database
  import AuthDomain

  /** `BiometricUpdateDtoRequest`. */
  datatype BiometricUpdateDtoRequest = BiometricUpdateDtoRequest(customerId: Uuid, imagePath: string, status: BiometricsStatus)

  /** What updating answers, and the committed tables after it, for a given `SET` list.
      The row is written back under the customer id it holds, which in a consistent
      database is the key it was read under. */
  function UpdateSpecWith(setList: seq<string>, t: Tables, request: BiometricUpdateDtoRequest, now: DateTime,
                          faults: DbFaults)
    : (out: (Result<BiometricDtoResponse>, Tables))
    ensures out.0.Err? ==> out.1 == t
    ensures out.1.customers == t.customers
    ensures out.0.Ok? ==> request.customerId in t.biometrics && out.1.biometrics.Keys == t.biometrics.Keys
    ensures out.0.Ok? ==> var key := t.biometrics[request.customerId].customerId;
      key in out.1.biometrics && out.0.value == ToResponse(out.1.biometrics[key])
  {
    match CustomerIdAndImageNotEmpty(BiometricDtoRequest(request.customerId, request.imagePath))
    case Err(e) => (Err(e), t)
    case Ok(_) =>
      if faults.begin.Some? then (Err(BeginError(faults.begin.value)), t)
      else
        match GetBy(t.biometrics, request.customerId, faults.read)
        case Err(e) => (Err(e), t)
        case Ok(biometric) =>
          var changed := biometric.(imagePath := request.imagePath, status := request.status);
          var updated := UpdateWith(setList, t.biometrics, changed, faults.write, now);
          if updated.0.Err? then (Err(updated.0.error), t)
          else if faults.commit.Some? then (Err(CommitError(faults.commit.value)), t)
          else (Ok(ToResponse(updated.0.value)), t.(biometrics := updated.1))
  }

  /** The handler with the statement as written: it never changes the committed tables. */
  function UpdateSpecAsWritten(t: Tables, request: BiometricUpdateDtoRequest, now: DateTime, faults: DbFaults)
    : (out: (Result<BiometricDtoResponse>, Tables))
    ensures out.1 == t
  {
    SetListsChecked();
    UpdateSpecWith(UpdateSetListAsWritten, t, request, now, faults)
  }

  /** The handler with the corrected statement, the one `Update` implements: it answers Ok
      exactly when the image path is given, the record exists (and so does the row named by
      the customer id it holds, the same one in a consistent database) and no database step
      fails. */
  function UpdateSpec(t: Tables, request: BiometricUpdateDtoRequest, now: DateTime, faults: DbFaults)
    : (out: (Result<BiometricDtoResponse>, Tables))
    ensures out.0.Ok? <==> request.imagePath != [] && request.customerId in t.biometrics
                           && t.biometrics[request.customerId].customerId in t.biometrics
                           && faults.begin.None? && faults.read.None? && faults.write.None? && faults.commit.None?
  {
    SetListsChecked();
    UpdateSpecWith(UpdateSetListIntended, t, request, now, faults)
  }

  /** `UpdateUseCase::update`, with the corrected statement. */
  method Update(app: AppState, request: BiometricUpdateDtoRequest, now: DateTime, faults: DbFaults)
    returns (r: Result<BiometricDtoResponse>)
    modifies app.pool
    ensures (r, app.pool.tables) == UpdateSpec(old(app.pool.tables), request, now, faults)
  {
    var valid :- CustomerIdAndImageNotEmpty(BiometricDtoRequest(request.customerId, request.imagePath));
    var transaction :- app.BeginTransaction(faults.begin);
    var biometric :- transaction.GetBiometricsBy(request.customerId, faults.read);
    biometric := biometric.(imagePath := request.imagePath, status := request.status);
    biometric :- transaction.UpdateBiometrics(biometric, faults.write, now);
    var committed :- app.CommitTransaction(transaction, faults.commit);
    r := Ok(ToResponse(biometric));
  }

  /** An empty image path is refused with 400 before anything else happens. */
  lemma UpdateRejectsEmptyImage(setList: seq<string>, t: Tables, request: BiometricUpdateDtoRequest, now: DateTime,
                                faults: DbFaults)
    requires request.imagePath == []
    ensures UpdateSpecWith(setList, t, request, now, faults)
            == (Err(Fail(BadRequest, "customer_id and/or image_path is expected")), t)
  {
  }

  /** A customer without a record is 404 "Biometric not found", found by the read before
      any write. */
  lemma UpdateMissing(setList: seq<string>, t: Tables, request: BiometricUpdateDtoRequest, now: DateTime)
    requires request.imagePath != [] && request.customerId !in t.biometrics
    ensures UpdateSpecWith(setList, t, request, now, NoFaults) == (Err(Fail(NotFound, "Biometric not found")), t)
  {
  }

  /** With no failure and an existing record, the corrected handler replaces the image path
      and the status, stamps `updated_at`, keeps the customer and `created_at`, and
      touches no other record. */
  lemma UpdateReplacesImageAndStatus(t: Tables, request: BiometricUpdateDtoRequest, now: DateTime)
    requires request.imagePath != [] && request.customerId in t.biometrics
    requires t.biometrics[request.customerId].customerId == request.customerId
    ensures var out := UpdateSpec(t, request, now, NoFaults);
      var old_ := t.biometrics[request.customerId];
      var stored := Biometrics(request.customerId, request.imagePath, request.status, old_.createdAt, now);
      out == (Ok(ToResponse(stored)), t.(biometrics := t.biometrics[request.customerId := stored]))
  {
    SetListsChecked();
  }

  /** The corrected handler keeps the database consistent. */
  lemma UpdateKeepsConsistent(t: Tables, request: BiometricUpdateDtoRequest, now: DateTime, faults: DbFaults)
    requires Consistent(t)
    ensures Consistent(UpdateSpec(t, request, now, faults).1)
  {
    var out := UpdateSpec(t, request, now, faults);
    if out.0.Ok? {
      var changed := t.biometrics[request.customerId].(imagePath := request.imagePath, status := request.status);
      UpdateReplacesFields(t.biometrics, AuthDomain.Ids(t.customers), changed, faults.write, now);
    }
  }

  /** The handler as written never changes anything: when validation, `begin` and the read
      pass, the write is refused and the answer is a 500. */
  lemma UpdateAsWrittenNeverWrites(t: Tables, request: BiometricUpdateDtoRequest, now: DateTime, faults: DbFaults)
    ensures UpdateSpecAsWritten(t, request, now, faults).0.Err?
    ensures UpdateSpecAsWritten(t, request, now, faults).1 == t
    ensures request.imagePath != [] && faults.begin.None? && faults.read.None? && request.customerId in t.biometrics
            ==> IntoResponse(UpdateSpecAsWritten(t, request, now, faults).0.error).status == InternalServerError
  {
    SetListsChecked();
  }
}
