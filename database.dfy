/** The unit of work (src/infra/database.rs): a store of committed tables, transactions
    that begin from the committed tables and buffer their own writes, and the pool
    (`AppState`) that begins and commits them. Requests run one at a time here; a
    transaction that is dropped without a commit leaves the store as it was. The
    queries of the two domain modules become methods of the transaction. */
module Database {
  import opened Wrappers
  import opened Errors
  import opened Uuid
  import opened Timestamp
  import AuthDomain
  import BiometricsDomain

  /** The two tables. */
  datatype Tables = Tables(customers: AuthDomain.CustomerTable, biometrics: BiometricsDomain.BiometricsTable)

  /** The constraints the schema keeps: unique e-mail and id, one record per customer,
      and every record's customer exists. */
  ghost predicate Consistent(t: Tables) {
    AuthDomain.TableValid(t.customers) && BiometricsDomain.TableValid(t.biometrics, AuthDomain.Ids(t.customers))
  }

  /** Database failures, by the step they hit: `begin`, a read, a write, `commit`. */
  datatype DbFaults = DbFaults(begin: Option<string>, read: Option<string>, write: Option<string>, commit: Option<string>)

  /** No failure anywhere. */
  const NoFaults := DbFaults(None, None, None, None)

  /** The error of a failed `begin`: 500 "SQL Error: Failed to begin transaction :: <cause>",
      without tags. */
  function BeginError(cause: string): (e: AppError)
    ensures e.Business? && e.data.status == InternalServerError && e.data.tags.None?
    ensures e.data.message == "SQL Error" + ": " + "Failed to begin transaction" + " :: " + cause
  {
    ToBusinessError(LibraryError(Sqlx, cause), "Failed to begin transaction", None)
  }

  /** The error of a failed `commit`: 500 "SQL Error: Failed to commit transaction :: <cause>",
      without tags. */
  function CommitError(cause: string): (e: AppError)
    ensures e.Business? && e.data.status == InternalServerError && e.data.tags.None?
    ensures e.data.message == "SQL Error" + ": " + "Failed to commit transaction" + " :: " + cause
  {
    ToBusinessError(LibraryError(Sqlx, cause), "Failed to commit transaction", None)
  }

  /** A failed `begin` is never reported as a failed `commit`, and each error keeps its cause. */
  lemma TransactionErrorsDistinct(c1: string, c2: string)
    ensures BeginError(c1) != CommitError(c2)
    ensures BeginError(c1) == BeginError(c2) <==> c1 == c2
    ensures CommitError(c1) == CommitError(c2) <==> c1 == c2
  {
    var b, c := BeginError(c1).data.message, CommitError(c2).data.message;
    assert b[21] == 'b' && c[21] == 'c';
    if BeginError(c1) == BeginError(c2) {
      LibraryMessageDeterminesCause(LibraryError(Sqlx, c1), LibraryError(Sqlx, c2), "Failed to begin transaction");
    }
    if CommitError(c1) == CommitError(c2) {
      LibraryMessageDeterminesCause(LibraryError(Sqlx, c1), LibraryError(Sqlx, c2), "Failed to commit transaction");
    }
  }

  /** The committed state of the database. */
  class Store {
    var tables: Tables

    constructor (initial: Tables)
      ensures tables == initial
    {
      tables := initial;
    }
  }

  /** A `Transaction<Postgres>`: the tables as this transaction sees them, that is the
      committed tables when it began plus its own writes. */
  class Transaction {
    const store: Store
    var tables: Tables
    var open: bool

    constructor (store: Store)
      ensures this.store == store && tables == store.tables && open
    {
      this.store := store;
      tables := store.tables;
      open := true;
    }

    /** `Customer::insert` on this transaction. */
    method InsertCustomer(c: AuthDomain.Customer, fault: Option<string>, dbNow: DateTime)
      returns (r: Result<AuthDomain.Customer>)
      requires open
      modifies this`tables
      ensures r == AuthDomain.Insert(old(tables).customers, c, fault, dbNow).0
      ensures tables == old(tables).(customers := AuthDomain.Insert(old(tables).customers, c, fault, dbNow).1)
    {
      var outcome := AuthDomain.Insert(tables.customers, c, fault, dbNow);
      r := outcome.0;
      tables := tables.(customers := outcome.1);
    }

    /** `Customer::get_by` on this transaction. */
    method GetCustomerBy(email: string, fault: Option<string>) returns (r: Result<AuthDomain.Customer>)
      requires open
      ensures r == AuthDomain.GetBy(tables.customers, email, fault)
    {
      r := AuthDomain.GetBy(tables.customers, email, fault);
    }

    /** `Biometrics::insert` on this transaction: the foreign key is checked against the
        customers this transaction sees. */
    method InsertBiometrics(b: BiometricsDomain.Biometrics, fault: Option<string>, dbNow: DateTime)
      returns (r: Result<BiometricsDomain.Biometrics>)
      requires open
      modifies this`tables
      ensures r == BiometricsDomain.Insert(old(tables).biometrics, AuthDomain.Ids(old(tables).customers), b, fault, dbNow).0
      ensures tables == old(tables).(biometrics :=
        BiometricsDomain.Insert(old(tables).biometrics, AuthDomain.Ids(old(tables).customers), b, fault, dbNow).1)
    {
      var outcome := BiometricsDomain.Insert(tables.biometrics, AuthDomain.Ids(tables.customers), b, fault, dbNow);
      r := outcome.0;
      tables := tables.(biometrics := outcome.1);
    }

    /** `Biometrics::update` on this transaction, with the corrected statement. */
    method UpdateBiometrics(b: BiometricsDomain.Biometrics, fault: Option<string>, now: DateTime)
      returns (r: Result<BiometricsDomain.Biometrics>)
      requires open
      modifies this`tables
      ensures r == BiometricsDomain.Update(old(tables).biometrics, b, fault, now).0
      ensures tables == old(tables).(biometrics := BiometricsDomain.Update(old(tables).biometrics, b, fault, now).1)
    {
      var outcome := BiometricsDomain.Update(tables.biometrics, b, fault, now);
      r := outcome.0;
      tables := tables.(biometrics := outcome.1);
    }

    /** `Biometrics::get_by` on this transaction. */
    method GetBiometricsBy(customerId: Uuid, fault: Option<string>) returns (r: Result<BiometricsDomain.Biometrics>)
      requires open
      ensures r == BiometricsDomain.GetBy(tables.biometrics, customerId, fault)
    {
      r := BiometricsDomain.GetBy(tables.biometrics, customerId, fault);
    }
  }

  /** `AppState`: the connection pool over the store. */
  class AppState {
    const pool: Store

    constructor (pool: Store)
      ensures this.pool == pool
    {
      this.pool := pool;
    }

    /** `begin_transaction`: a new transaction over the committed tables, or
        500 "SQL Error: Failed to begin transaction :: …". */
    method BeginTransaction(fault: Option<string>) returns (r: Result<Transaction>)
      ensures fault.Some? ==> r == Err(BeginError(fault.value))
      ensures fault.None? ==> r.Ok? && fresh(r.value)
      ensures r.Ok? ==> r.value.store == pool && r.value.tables == pool.tables && r.value.open
    {
      if fault.Some? {
        return Err(BeginError(fault.value));
      }
      var tx := new Transaction(pool);
      r := Ok(tx);
    }

    /** `commit_transaction`: publishes what the transaction sees and closes it; on a
        failure the transaction is rolled back and the store keeps its tables. Either way
        the transaction cannot be used again. */
    method CommitTransaction(tx: Transaction, fault: Option<string>) returns (r: Result<()>)
      requires tx.open && tx.store == pool
      modifies pool, tx`open
      ensures !tx.open
      ensures fault.Some? ==> r == Err(CommitError(fault.value))
      ensures fault.Some? ==> pool.tables == old(pool.tables)
      ensures fault.None? ==> r == Ok(()) && pool.tables == tx.tables
    {
      tx.open := false;
      if fault.Some? {
        return Err(CommitError(fault.value));
      }
      pool.tables := tx.tables;
      r := Ok(());
    }
  }
}
