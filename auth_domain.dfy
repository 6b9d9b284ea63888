/** Customers (src/feature/auth/domain.rs): the entity, its request and response forms,
    its construction with a hashed password, and the two queries on the `customer`
    table. The table is keyed by e-mail, which makes the e-mail unique; the id is the
    primary key, so it is unique too. */
module AuthDomain {
  import opened Wrappers
  import opened Errors
  import opened Uuid
  import opened Timestamp
  import HashBcrypt

  /** `CustomerDtoRequest`: what sign-up and sign-in receive. */
  datatype CustomerDtoRequest = CustomerDtoRequest(email: string, password: string)

  /** `CustomerDtoResponse`: the only fields of a customer that are ever answered. */
  datatype CustomerDtoResponse = CustomerDtoResponse(id: Uuid, email: string)

  /** `Customer`: a row of the `customer` table; `password` holds the bcrypt digest. */
  datatype Customer = Customer(id: Uuid, email: string, password: string, createdAt: DateTime)

  /** `Customer::new`: a fresh time-ordered id (`Uuid::now_v7`), the e-mail as given, the
      digest of the password and the current time; a hashing failure is passed on. */
  function New(hasher: HashBcrypt.Hasher, email: string, password: string, salt: nat, id: Uuid, now: DateTime)
    : (r: Result<Customer>)
    ensures r.Ok? <==> HashBcrypt.Encode(hasher, password, salt).Ok?
    ensures r.Ok? ==> r.value.id == id && r.value.email == email && r.value.createdAt == now
    ensures r.Ok? ==> r.value.password == hasher.hash(password, salt).digest
    ensures r.Err? ==> r.error == HashBcrypt.Encode(hasher, password, salt).error
  {
    var digest :- HashBcrypt.Encode(hasher, password, salt);
    Ok(Customer(id, email, digest, now))
  }

  /** A new customer keeps no usable copy of the password but a digest that verifies it,
      and every other password with the same bcrypt key. */
  lemma NewStoresVerifiableDigest(hasher: HashBcrypt.Hasher, email: string, password: string, salt: nat,
                                  id: Uuid, now: DateTime, candidate: string)
    requires HashBcrypt.Distinguishes(hasher)
    requires New(hasher, email, password, salt, id, now).Ok?
    ensures HashBcrypt.Verify(hasher, New(hasher, email, password, salt, id, now).value.password, candidate)
            == Ok(HashBcrypt.Key(candidate) == HashBcrypt.Key(password))
  {
    HashBcrypt.VerifyEncoded(hasher, password, salt, candidate);
  }

  /** The response form of a customer: id and e-mail, never the digest. */
  function ToResponse(c: Customer): (d: CustomerDtoResponse)
    ensures d.id == c.id && d.email == c.email
  {
    CustomerDtoResponse(c.id, c.email)
  }

  /** The `customer` table, keyed by e-mail. */
  type CustomerTable = map<string, Customer>

  /** Every row sits under its own e-mail, and no two rows share an id. */
  ghost predicate TableValid(t: CustomerTable) {
    && (forall e :: e in t ==> t[e].email == e)
    && (forall e1, e2 :: e1 in t && e2 in t && t[e1].id == t[e2].id ==> e1 == e2)
  }

  /** Whether some row has the id. */
  predicate HasId(t: CustomerTable, id: Uuid) {
    exists e :: e in t && t[e].id == id
  }

  /** The ids of all rows. */
  function Ids(t: CustomerTable): (ids: set<Uuid>)
    ensures forall id :: id in ids <==> HasId(t, id)
  {
    set e | e in t :: t[e].id
  }

  /** The database's rendering of a unique-constraint violation (the constraint name is
      not modelled). */
  const UniqueViolation := "error returned from database: duplicate key value violates unique constraint"

  /** A library error from the database driver under an operation. */
  function SqlError(cause: string, operation: string): AppError {
    ToBusinessError(LibraryError(Sqlx, cause), operation, None)
  }

  /** `Customer::insert`: `INSERT … RETURNING *` of id, e-mail and digest. The database
      fills in `created_at`. A database failure, a taken id or a taken e-mail is
      500 "SQL Error: insert :: …" and leaves the table as it was. */
  function Insert(t: CustomerTable, c: Customer, fault: Option<string>, dbNow: DateTime)
    : (r: (Result<Customer>, CustomerTable))
    ensures r.0.Err? ==> r.1 == t && r.0.error.Business? && r.0.error.data.status == InternalServerError
    ensures r.0.Ok? <==> fault.None? && c.email !in t && !HasId(t, c.id)
    ensures r.0.Ok? ==> r.0.value == c.(createdAt := dbNow) && r.1 == t[c.email := r.0.value]
    ensures r.0.Err? ==> exists cause :: r.0.error == SqlError(cause, "insert")
    ensures fault.Some? ==> r.0 == Err(SqlError(fault.value, "insert"))
    ensures fault.None? && r.0.Err? ==> r.0 == Err(SqlError(UniqueViolation, "insert"))
  {
    if fault.Some? then (Err(SqlError(fault.value, "insert")), t)
    else if HasId(t, c.id) || c.email in t then (Err(SqlError(UniqueViolation, "insert")), t)
    else
      var stored := c.(createdAt := dbNow);
      (Ok(stored), t[c.email := stored])
  }

  /** A successful insert keeps the table valid. */
  lemma InsertKeepsTableValid(t: CustomerTable, c: Customer, fault: Option<string>, dbNow: DateTime)
    requires TableValid(t)
    ensures TableValid(Insert(t, c, fault, dbNow).1)
  {
  }

  /** A successful insert adds exactly the new customer's id to the ids of the table. */
  lemma IdsAfterInsert(t: CustomerTable, c: Customer, fault: Option<string>, dbNow: DateTime)
    requires Insert(t, c, fault, dbNow).0.Ok?
    ensures Ids(Insert(t, c, fault, dbNow).1) == Ids(t) + {c.id}
  {
    var t' := Insert(t, c, fault, dbNow).1;
    forall id | id in Ids(t)
      ensures id in Ids(t')
    {
      var e :| e in t && t[e].id == id;
      assert e != c.email && t'[e] == t[e];
    }
    assert t'[c.email].id == c.id;
  }

  /** `Customer::get_by`: the row with the e-mail; 404 "Customer not found" when there is
      none; 500 "SQL Error: get by :: …" when the database fails. */
  function GetBy(t: CustomerTable, email: string, fault: Option<string>): (r: Result<Customer>)
    ensures fault.Some? ==> r == Err(SqlError(fault.value, "get by"))
    ensures fault.None? && email !in t ==> r == Err(Fail(NotFound, "Customer not found"))
    ensures r.Ok? <==> fault.None? && email in t
    ensures r.Ok? ==> r.value == t[email]
  {
    if fault.Some? then Err(SqlError(fault.value, "get by"))
    else if email in t then Ok(t[email])
    else Err(Fail(NotFound, "Customer not found"))
  }

  /** A row read back after it was inserted is the stored row. */
  lemma GetByAfterInsert(t: CustomerTable, c: Customer, dbNow: DateTime)
    requires Insert(t, c, None, dbNow).0.Ok?
    ensures GetBy(Insert(t, c, None, dbNow).1, c.email, None) == Insert(t, c, None, dbNow).0
  {
  }

  /** Inserting a customer whose e-mail is taken fails and changes nothing. */
  lemma InsertTakenEmail(t: CustomerTable, c: Customer, fault: Option<string>, dbNow: DateTime)
    requires c.email in t
    ensures Insert(t, c, fault, dbNow).0.Err? && Insert(t, c, fault, dbNow).1 == t
    ensures IntoResponse(Insert(t, c, fault, dbNow).0.error).status == InternalServerError
  {
  }
}
