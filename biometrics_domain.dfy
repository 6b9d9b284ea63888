/** Biometric records (backend/src/feature/biometrics/domain.rs): one per customer, with
    the path of an image, a review status and two timestamps; the response form; and the
    three queries on the `biometrics` table, keyed by customer id, whose `customer_id`
    refers to the `customer` table. */
module BiometricsDomain {
  import opened Wrappers
  import opened Errors
  import opened Uuid
  import opened Timestamp

  /** `BiometricsStatus`. */
  datatype BiometricsStatus = InAnalysis | Reproved | TakeAgain | Conclued

  /** The text form of a status, shared by its `Display`, its JSON and its database value. */
  function StatusText(s: BiometricsStatus): (text: string)
    ensures |text| > 0 && forall i :: 0 <= i < |text| ==> 'a' <= text[i] <= 'z' || text[i] == '_'
  {
    match s
    case InAnalysis => "in_analysis"
    case Reproved => "reproved"
    case TakeAgain => "take_again"
    case Conclued => "conclued"
  }

  /** Reading a status back from its text form. */
  function ParseStatus(text: string): (r: Option<BiometricsStatus>)
    ensures r.Some? ==> StatusText(r.value) == text
  {
    if text == "in_analysis" then Some(InAnalysis)
    else if text == "reproved" then Some(Reproved)
    else if text == "take_again" then Some(TakeAgain)
    else if text == "conclued" then Some(Conclued)
    else None
  }

  /** Every status is read back from its text, so distinct statuses have distinct texts. */
  lemma StatusTextRoundTrip(s: BiometricsStatus, other: BiometricsStatus)
    ensures ParseStatus(StatusText(s)) == Some(s)
    ensures s != other ==> StatusText(s) != StatusText(other)
  {
    assert ParseStatus(StatusText(other)) == Some(other);
  }

  /** `Biometrics`: a row of the `biometrics` table. */
  datatype Biometrics = Biometrics(
    customerId: Uuid, imagePath: string, status: BiometricsStatus, createdAt: DateTime, updatedAt: DateTime)

  /** `BiometricDtoRequest`. */
  datatype BiometricDtoRequest = BiometricDtoRequest(customerId: Uuid, imagePath: string)

  /** `BiometricDtoResponse`: the timestamps are text. */
  datatype BiometricDtoResponse = BiometricDtoResponse(
    customerId: Uuid, imagePath: string, status: BiometricsStatus, createdAt: string, updatedAt: string)

  /** `Biometrics::new`: a record under review, stamped with two readings of the clock. */
  function New(customerId: Uuid, imagePath: string, createdAt: DateTime, updatedAt: DateTime): (b: Biometrics)
    ensures b.status == InAnalysis
    ensures b.customerId == customerId && b.imagePath == imagePath
    ensures b.createdAt == createdAt && b.updatedAt == updatedAt
  {
    Biometrics(customerId, imagePath, InAnalysis, createdAt, updatedAt)
  }

  /** `BiometricDtoResponse::from`: the fields as they are, the timestamps in RFC 3339 at
      whole seconds. */
  function ToResponse(b: Biometrics): (d: BiometricDtoResponse)
    ensures d.customerId == b.customerId && d.imagePath == b.imagePath && d.status == b.status
    ensures d.createdAt == ToRfc3339Secs(b.createdAt) && d.updatedAt == ToRfc3339Secs(b.updatedAt)
  {
    BiometricDtoResponse(b.customerId, b.imagePath, b.status, ToRfc3339Secs(b.createdAt), ToRfc3339Secs(b.updatedAt))
  }

  /** The timestamps of a response read back as the record's times to the second. */
  lemma ResponseTimesReadBack(b: Biometrics)
    requires 0 <= b.createdAt.year <= 9999 && 0 <= b.updatedAt.year <= 9999
    ensures ParseRfc3339Secs(ToResponse(b).createdAt) == Some(Shown(b.createdAt))
    ensures ParseRfc3339Secs(ToResponse(b).updatedAt) == Some(Shown(b.updatedAt))
  {
    ParseToRfc3339Secs(b.createdAt);
    ParseToRfc3339Secs(b.updatedAt);
  }

  /** The `biometrics` table, keyed by customer id. */
  type BiometricsTable = map<Uuid, Biometrics>

  /** Every row sits under its own customer id, and that customer exists. */
  ghost predicate TableValid(t: BiometricsTable, customerIds: set<Uuid>) {
    forall id :: id in t ==> t[id].customerId == id && id in customerIds
  }

  const UniqueViolation := "error returned from database: duplicate key value violates unique constraint"
  const ForeignKeyViolation := "error returned from database: insert or update on table \"biometrics\" violates foreign key constraint"
  /** `sqlx::Error::RowNotFound`, which `fetch_one` gives when no row comes back. */
  const RowNotFound := "no rows returned by a query that expected to return at least one row"

  function SqlError(cause: string, operation: string): AppError {
    ToBusinessError(LibraryError(Sqlx, cause), operation, None)
  }

  /** `Biometrics::insert`: customer id, image path, status and `updated_at` are written;
      the database fills in `created_at`. A database failure, a customer that already has
      a record, or a customer that does not exist is 500 "SQL Error: insert :: …" and
      leaves the table as it was. */
  function Insert(t: BiometricsTable, customerIds: set<Uuid>, b: Biometrics, fault: Option<string>, dbNow: DateTime)
    : (r: (Result<Biometrics>, BiometricsTable))
    ensures r.0.Err? ==> r.1 == t && r.0.error.Business? && r.0.error.data.status == InternalServerError
    ensures r.0.Ok? <==> fault.None? && b.customerId !in t && b.customerId in customerIds
    ensures r.0.Ok? ==> r.0.value == b.(createdAt := dbNow) && r.1 == t[b.customerId := r.0.value]
    ensures r.0.Err? ==> exists cause :: r.0.error == SqlError(cause, "insert")
    ensures fault.Some? ==> r.0 == Err(SqlError(fault.value, "insert"))
    ensures fault.None? && b.customerId in t ==> r.0 == Err(SqlError(UniqueViolation, "insert"))
    ensures fault.None? && b.customerId !in t && b.customerId !in customerIds ==>
              r.0 == Err(SqlError(ForeignKeyViolation, "insert"))
  {
    if fault.Some? then (Err(SqlError(fault.value, "insert")), t)
    else if b.customerId in t then (Err(SqlError(UniqueViolation, "insert")), t)
    else if b.customerId !in customerIds then (Err(SqlError(ForeignKeyViolation, "insert")), t)
    else
      var stored := b.(createdAt := dbNow);
      (Ok(stored), t[b.customerId := stored])
  }

  /** Inserting keeps every record tied to an existing customer. */
  lemma InsertKeepsTableValid(t: BiometricsTable, customerIds: set<Uuid>, b: Biometrics, fault: Option<string>, dbNow: DateTime)
    requires TableValid(t, customerIds)
    ensures TableValid(Insert(t, customerIds, b, fault, dbNow).1, customerIds)
  {
  }

  /** The `SET` list of the update statement, as tokens: `name = value`, separated by commas. */
  const UpdateSetListAsWritten: seq<string> :=
    ["image_path", "=", "$2", ",", "status", "=", "$3", "updated_at", "=", "$4"]
  const UpdateSetListIntended: seq<string> :=
    ["image_path", "=", "$2", ",", "status", "=", "$3", ",", "updated_at", "=", "$4"]

  /** The token a `SET` list goes wrong at, or `None` when it is a comma-separated list of
      assignments. */
  function SetListError(tokens: seq<string>): (r: Option<string>)
  {
    if |tokens| < 3 then Some("")
    else if tokens[1] != "=" then Some(tokens[1])
    else if |tokens| == 3 then None
    else if tokens[3] != "," then Some(tokens[3])
    else SetListError(tokens[4..])
  }

  /** The statement as written is refused at `updated_at`, where a comma is missing; the
      intended statement is well formed. */
  lemma SetListsChecked()
    ensures SetListError(UpdateSetListAsWritten) == Some("updated_at")
    ensures SetListError(UpdateSetListIntended) == None
  {
    assert UpdateSetListIntended[4..] == ["status", "=", "$3", ",", "updated_at", "=", "$4"];
    assert UpdateSetListIntended[4..][4..] == ["updated_at", "=", "$4"];
    assert UpdateSetListAsWritten[4..] == ["status", "=", "$3", "updated_at", "=", "$4"];
  }

  /** `Biometrics::update` with a given `SET` list: the row of the customer gets the new
      image path and status and a fresh `updated_at`; its customer id and `created_at`
      stay. A database failure, a statement the database refuses, or a missing row is
      500 "SQL Error: update :: …" and leaves the table as it was. */
  function UpdateWith(setList: seq<string>, t: BiometricsTable, b: Biometrics, fault: Option<string>, now: DateTime)
    : (r: (Result<Biometrics>, BiometricsTable))
    ensures r.0.Err? ==> r.1 == t && r.0.error.Business? && r.0.error.data.status == InternalServerError
    ensures r.0.Ok? <==> fault.None? && SetListError(setList).None? && b.customerId in t
    ensures r.0.Ok? ==> r.1 == t[b.customerId := r.0.value]
    ensures r.0.Ok? ==> r.0.value == t[b.customerId].(imagePath := b.imagePath, status := b.status, updatedAt := now)
    ensures r.0.Err? ==> exists cause :: r.0.error == SqlError(cause, "update")
    ensures fault.Some? ==> r.0 == Err(SqlError(fault.value, "update"))
    ensures fault.None? && SetListError(setList).Some? ==>
              r.0 == Err(SqlError("error returned from database: syntax error at or near \"" + SetListError(setList).value + "\"", "update"))
    ensures fault.None? && SetListError(setList).None? && b.customerId !in t ==> r.0 == Err(SqlError(RowNotFound, "update"))
  {
    if fault.Some? then (Err(SqlError(fault.value, "update")), t)
    else if SetListError(setList).Some? then
      var cause := "error returned from database: syntax error at or near \"" + SetListError(setList).value + "\"";
      (Err(SqlError(cause, "update")), t)
    else if b.customerId !in t then (Err(SqlError(RowNotFound, "update")), t)
    else
      var updated := t[b.customerId].(imagePath := b.imagePath, status := b.status, updatedAt := now);
      (Ok(updated), t[b.customerId := updated])
  }

  /** The update as the source writes it: the table is never changed, and a failure is a 500. */
  function UpdateAsWritten(t: BiometricsTable, b: Biometrics, fault: Option<string>, now: DateTime)
    : (r: (Result<Biometrics>, BiometricsTable))
    ensures r.1 == t
    ensures r.0.Err? ==> r.0.error.Business? && r.0.error.data.status == InternalServerError
  {
    SetListsChecked();
    UpdateWith(UpdateSetListAsWritten, t, b, fault, now)
  }

  /** The update as written never succeeds: every call is a 500 and changes nothing; without
      a database failure the error is the syntax error at `updated_at`. */
  lemma UpdateAsWrittenAlwaysFails(t: BiometricsTable, b: Biometrics, fault: Option<string>, now: DateTime)
    ensures UpdateAsWritten(t, b, fault, now).0.Err?
    ensures UpdateAsWritten(t, b, fault, now).1 == t
    ensures IntoResponse(UpdateAsWritten(t, b, fault, now).0.error).status == InternalServerError
    ensures fault.None? ==>
      UpdateAsWritten(t, b, fault, now).0.error == SqlError("error returned from database: syntax error at or near \"updated_at\"", "update")
  {
    SetListsChecked();
  }

  /** `Biometrics::update` with the comma in place, the form the rest of the model uses. */
  function Update(t: BiometricsTable, b: Biometrics, fault: Option<string>, now: DateTime)
    : (r: (Result<Biometrics>, BiometricsTable))
    ensures r.0.Ok? <==> fault.None? && b.customerId in t
    ensures r.0.Err? ==> r.1 == t
    ensures r.0.Ok? ==> r.1 == t[b.customerId := r.0.value]
    ensures r.0.Ok? ==> r.0.value == t[b.customerId].(imagePath := b.imagePath, status := b.status, updatedAt := now)
  {
    SetListsChecked();
    UpdateWith(UpdateSetListIntended, t, b, fault, now)
  }

  /** The corrected update replaces exactly the image path, the status and `updated_at`
      of an existing row, and keeps the table valid. */
  lemma UpdateReplacesFields(t: BiometricsTable, customerIds: set<Uuid>, b: Biometrics, fault: Option<string>, now: DateTime)
    requires TableValid(t, customerIds)
    ensures Update(t, b, fault, now).0.Ok? <==> fault.None? && b.customerId in t
    ensures var r := Update(t, b, fault, now);
      r.0.Ok? ==>
        && r.0.value.customerId == b.customerId && r.0.value.imagePath == b.imagePath
        && r.0.value.status == b.status && r.0.value.updatedAt == now
        && r.0.value.createdAt == t[b.customerId].createdAt
        && r.1 == t[b.customerId := r.0.value]
    ensures TableValid(Update(t, b, fault, now).1, customerIds)
  {
    SetListsChecked();
  }

  /** `Biometrics::get_by`: the record of the customer; 404 "Biometric not found" when
      there is none; 500 "SQL Error: get by :: …" when the database fails. */
  function GetBy(t: BiometricsTable, customerId: Uuid, fault: Option<string>): (r: Result<Biometrics>)
    ensures fault.Some? ==> r == Err(SqlError(fault.value, "get by"))
    ensures fault.None? && customerId !in t ==> r == Err(Fail(NotFound, "Biometric not found"))
    ensures r.Ok? <==> fault.None? && customerId in t
    ensures r.Ok? ==> r.value == t[customerId]
  {
    if fault.Some? then Err(SqlError(fault.value, "get by"))
    else if customerId in t then Ok(t[customerId])
    else Err(Fail(NotFound, "Biometric not found"))
  }
}
