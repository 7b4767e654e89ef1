/**
 * The browser-side record store (lib/database/sqliteClient.ts): a load-once holder of the
 * database (`db`, `initPromise`), and the mapping of a query's result set to row objects.
 *
 * The asynchronous load is split into two steps: `InitDatabase` starts (or joins) a load, and
 * `SettleLoad` completes it with the outcome of fetching and opening the database file.
 */
module SqliteClient {
  import opened Wrappers

  /** An opened database, identified by the file it was opened from. */
  datatype Database = Database(image: seq<bv8>)

  /** A pending initialisation: the n-th load started. */
  datatype Pending = Pending(load: nat)

  /** How a started load ends. */
  datatype LoadOutcome =
    | Fetched(image: seq<bv8>)     // the file came back and sql.js opened it
    | HttpError(statusText: string) // `response.ok` was false
    | EngineFailed(message: string) // sql.js failed to start or to open the file

  /** What a promise delivers: a value, or the error it rejects with. */
  datatype Result<T> = Ok(value: T) | Err(message: string)

  /** What `initDatabase()` hands back: the database, or a promise still pending. */
  datatype Init = Ready(db: Database) | Waiting(pending: Pending)

  /** A cell of a result set. */
  datatype SqlValue = Null | Integer(i: int) | Real(r: real) | Text(s: string) | Blob(b: seq<bv8>)

  /** `database.exec` result: column names and value rows. */
  datatype ResultSet = ResultSet(columns: seq<string>, values: seq<seq<SqlValue>>)

  /** A row object: column name to cell; None is JavaScript `undefined` (a row shorter than the columns). */
  type Row = map<string, Option<SqlValue>>

  const NotInitialised := "Database not initialized. Call initDatabase() first."

  function LoadError(outcome: LoadOutcome): string
    requires !outcome.Fetched?
  {
    match outcome
    case HttpError(statusText) => "Failed to fetch database: " + statusText
    case EngineFailed(message) => message
  }

  class Client {
    var db: Option<Database>
    var initPromise: Option<Pending>
    /** How many loads were started; the latest one names the pending promise. */
    var loadsStarted: nat

    constructor ()
      ensures db == None && initPromise == None && loadsStarted == 0
    {
      db := None;
      initPromise := None;
      loadsStarted := 0;
    }

    /**
     * `initDatabase()`: a loaded database is returned as is; a pending load is joined;
     * otherwise a new load is started and becomes the pending one.
     */
    method InitDatabase() returns (r: Init)
      modifies this
      ensures old(db).Some? ==> r == Ready(old(db).value) && unchanged(this)
      ensures old(db).None? && old(initPromise).Some? ==> r == Waiting(old(initPromise).value) && unchanged(this)
      ensures old(db).None? && old(initPromise).None? ==>
                && loadsStarted == old(loadsStarted) + 1
                && initPromise == Some(Pending(loadsStarted))
                && r == Waiting(Pending(loadsStarted))
                && db == None
    {
      if db.Some? {
        return Ready(db.value);
      }
      if initPromise.Some? {
        return Waiting(initPromise.value);
      }
      loadsStarted := loadsStarted + 1;
      initPromise := Some(Pending(loadsStarted));
      r := Waiting(Pending(loadsStarted));
    }

    /**
     * The pending load completes: on success the database is kept (and the settled promise
     * stays in `initPromise`); on failure `initPromise` is cleared so the next call retries, and
     * the error is re-thrown to the caller.
     */
    method SettleLoad(outcome: LoadOutcome) returns (r: Result<Database>)
      requires initPromise.Some?
      modifies this
      ensures loadsStarted == old(loadsStarted)
      ensures outcome.Fetched? ==>
                r == Ok(Database(outcome.image)) && db == Some(Database(outcome.image)) &&
                initPromise == old(initPromise)
      ensures !outcome.Fetched? ==>
                r == Err(LoadError(outcome)) && db == old(db) && initPromise == None
    {
      match outcome {
        case Fetched(image) =>
          db := Some(Database(image));
          r := Ok(Database(image));
        case _ =>
          initPromise := None;
          r := Err(LoadError(outcome));
      }
    }

    /** `getDatabase()`: the loaded database, or the "not initialised" error. */
    function GetDatabase(): (r: Result<Database>)
      reads this
      ensures r.Err? <==> db.None?
      ensures r.Ok? ==> Some(r.value) == db
      ensures r.Err? ==> r.message == NotInitialised
    {
      match db
      case Some(d) => Ok(d)
      case None => Err(NotInitialised)
    }

    /** `closeDatabase()`: forgets a loaded database and its promise; without one, nothing changes. */
    method CloseDatabase()
      modifies this
      ensures old(db).Some? ==> db == None && initPromise == None && loadsStarted == old(loadsStarted)
      ensures old(db).None? ==> unchanged(this)
    {
      if db.Some? {
        db := None;
        initPromise := None;
      }
    }

    /**
     * `query(sql, params)`; `exec` stands for `database.exec(sql, params)` on the loaded
     * database.
     */
    function Query(exec: Database -> seq<ResultSet>): (r: Result<seq<Row>>)
      reads this
      ensures r.Err? <==> db.None?
      ensures r.Err? ==> r.message == NotInitialised
      ensures db.Some? && exec(db.value) == [] ==> r == Ok([])
      ensures db.Some? && exec(db.value) != [] ==>
                r.Ok? && |r.value| == |exec(db.value)[0].values| &&
                forall i :: 0 <= i < |r.value| ==>
                  r.value[i] == RowObject(exec(db.value)[0].columns, exec(db.value)[0].values[i])
    {
      match GetDatabase()
      case Err(message) => Err(message)
      case Ok(database) =>
        var results := exec(database);
        if |results| == 0 then Ok([])
        else
          var rs := results[0];
          Ok(seq(|rs.values|, i requires 0 <= i < |rs.values| => RowObject(rs.columns, rs.values[i])))
    }

    /** `queryOne(sql, params)`: the first row, None when there is none (null in the source). */
    function QueryOne(exec: Database -> seq<ResultSet>): (r: Result<Option<Row>>)
      reads this
      ensures r.Err? <==> Query(exec).Err?
      ensures r.Ok? ==> (r.value.None? <==> Query(exec).value == [])
      ensures r.Ok? && r.value.Some? ==> r.value.value == Query(exec).value[0]
    {
      match Query(exec)
      case Err(message) => Err(message)
      case Ok(rows) => if |rows| > 0 then Ok(Some(rows[0])) else Ok(None)
    }
  }

  /**
   * A sequence of calls on a fresh client: a second `initDatabase()` during the load joins it,
   * a failed load is re-thrown and the next call starts a new load, and once loaded the
   * database is handed out without loading again.
   */
  method LoadOnceScenario(image: seq<bv8>) returns (first: Init, joined: Init, failed: Result<Database>,
                                                    retried: Init, loaded: Init)
    ensures first == Waiting(Pending(1)) && joined == first
    ensures failed == Err("Failed to fetch database: Not Found")
    ensures retried == Waiting(Pending(2))
    ensures loaded == Ready(Database(image))
  {
    var c := new Client();
    first := c.InitDatabase();
    joined := c.InitDatabase();
    failed := c.SettleLoad(HttpError("Not Found"));
    retried := c.InitDatabase();
    var settled := c.SettleLoad(Fetched(image));
    loaded := c.InitDatabase();
  }

  /** The cell at `index`, or `undefined` past the end of the row. */
  function CellAt(row: seq<SqlValue>, index: nat): Option<SqlValue>
  {
    if index < |row| then Some(row[index]) else None
  }

  /** `columns.forEach((col, index) => obj[col] = row[index])`, assigning from the first column on. */
  function RowObject(columns: seq<string>, row: seq<SqlValue>): (obj: Row)
    decreases |columns|
  {
    if columns == [] then map[]
    else RowObject(columns[..|columns| - 1], row)[columns[|columns| - 1] := CellAt(row, |columns| - 1)]
  }

  /** No later column has the name of column `i`. */
  predicate LastPosition(columns: seq<string>, i: nat)
  {
    forall j :: i < j < |columns| ==> columns[j] != columns[i]
  }

  /**
   * The row object has exactly the column names as keys, and a column name holds the cell of
   * its LAST position (a repeated column name is overwritten by the later column).
   */
  lemma {:induction false} RowObjectCells(columns: seq<string>, row: seq<SqlValue>)
    ensures RowObject(columns, row).Keys == set c | c in columns
    ensures forall i :: 0 <= i < |columns| && LastPosition(columns, i) ==>
              RowObject(columns, row)[columns[i]] == CellAt(row, i)
    decreases |columns|
  {
    if columns != [] {
      var n := |columns| - 1;
      var init := columns[..n];
      RowObjectCells(init, row);
      assert columns == init + [columns[n]];
      forall i | 0 <= i < |columns| && LastPosition(columns, i)
        ensures RowObject(columns, row)[columns[i]] == CellAt(row, i)
      {
        if i < n {
          LastPositionInit(columns, i);
        }
      }
    }
  }

  lemma LastPositionInit(columns: seq<string>, i: nat)
    requires i < |columns| - 1 && LastPosition(columns, i)
    ensures columns[|columns| - 1] != columns[i]
    ensures LastPosition(columns[..|columns| - 1], i) && columns[..|columns| - 1][i] == columns[i]
  {
  }

  /** A row at least as long as distinct columns: every column maps to its own cell. */
  lemma DistinctColumns(columns: seq<string>, row: seq<SqlValue>)
    requires forall i, j :: 0 <= i < j < |columns| ==> columns[i] != columns[j]
    requires |row| >= |columns|
    ensures forall i :: 0 <= i < |columns| ==> columns[i] in RowObject(columns, row)
    ensures forall i :: 0 <= i < |columns| ==> RowObject(columns, row)[columns[i]] == Some(row[i])
  {
    RowObjectCells(columns, row);
  }
}
