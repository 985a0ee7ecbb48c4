/** The metadata store of `src/db.py`: one SQLite database file whose two
    tables are updated in place by schema setup, document inserts, session
    starts and guarded session ends. */
module Store {
  import opened Common
  import opened Paths
  import opened Tables
  import Disk

  const DefaultDataDir: Path := "data"
  /** `data/documents.db`, used when no database path is given. */
  const DefaultDbPath: Path := Join(DefaultDataDir, "documents.db")
  /** `data/documents`, the storage directory when no other is chosen. */
  const DefaultDocumentsDir: Path := Join(DefaultDataDir, "documents")

  /** `db_path or DEFAULT_DB_PATH` (a `Path` object is never falsy). */
  function DbPathOrDefault(dbPath: Option<Path>): (r: Path)
    ensures dbPath.Some? ==> r == dbPath.value
    ensures dbPath.None? ==> r == "data/documents.db"
  {
    dbPath.GetOr(DefaultDbPath)
  }

  /** One SQLite database file. */
  class Database {
    var documentsTable: bool
    var sessionsTable: bool
    var documents: seq<Document>
    var sessions: map<string, Session>
    var nextId: nat

    function State(): Db
      reads this
    {
      Db(documentsTable, sessionsTable, documents, sessions, nextId)
    }

    ghost predicate Valid()
      reads this
    {
      Tables.Valid(State())
    }

    /** The file `sqlite3.connect` creates when none exists: no tables yet. */
    constructor ()
      ensures Valid() && State() == Fresh
    {
      documentsTable, sessionsTable := false, false;
      documents, sessions := [], map[];
      nextId := 1;
    }

    method CreateTables()
      requires Valid()
      modifies this
      ensures Valid()
      ensures State() == InitSchema(old(State()))
    {
      documentsTable := true;
      sessionsTable := true;
    }

    /** Inserts a `documents` row and returns `cursor.lastrowid`. */
    method InsertDocument(f: DocumentFields) returns (r: Result<nat, StoreError>)
      requires Valid()
      modifies this
      ensures Valid()
      ensures r.Ok? <==> Tables.InsertDocument(old(State()), f).Ok?
      ensures r.Ok? ==> r.value == old(nextId) && State() == Tables.InsertDocument(old(State()), f).value
      ensures r.Err? ==> r.error == Tables.InsertDocument(old(State()), f).error && State() == old(State())
    {
      InsertKeepsValidIfPossible(State(), f);
      if !documentsTable {
        return Err(OperationalError);
      }
      documents := documents + [Document(nextId, f)];
      r := Ok(nextId);
      nextId := nextId + 1;
    }

    /** `start_session`: inserts an open session under the given id (the
        caller's `uuid.uuid4().hex`) and returns that id. */
    method StartSession(sessionId: string, startedAt: string, username: string, hostname: string,
                        vaultRoot: Option<Path>, notes: Option<string>)
      returns (r: Result<string, StoreError>)
      requires Valid() && IsUuid4Hex(sessionId)
      modifies this
      ensures Valid()
      ensures r.Ok? <==> Tables.StartSession(old(State()), sessionId, startedAt, username, hostname, vaultRoot, notes).Ok?
      ensures r.Ok? ==> r.value == sessionId && |r.value| == 32 && IsLowerHex(r.value)
      ensures r.Ok? ==> State() == Tables.StartSession(old(State()), sessionId, startedAt, username, hostname, vaultRoot, notes).value
      ensures r.Err? ==> r.error == Tables.StartSession(old(State()), sessionId, startedAt, username, hostname, vaultRoot, notes).error
      ensures r.Err? ==> State() == old(State())
    {
      StartSessionKeepsValid(State(), sessionId, startedAt, username, hostname, vaultRoot, notes);
      if !sessionsTable {
        return Err(OperationalError);
      }
      if sessionId in sessions {
        return Err(IntegrityError);
      }
      sessions := sessions[sessionId := Session(startedAt, None, username, hostname, vaultRoot, notes)];
      r := Ok(sessionId);
    }

    /** `end_session`: sets `ended_at` only on a matching row whose
        `ended_at` is still NULL. */
    method EndSession(sessionId: string, endedAt: string) returns (r: Result<(), StoreError>)
      requires Valid()
      modifies this
      ensures Valid()
      ensures r.Ok? <==> Tables.EndSession(old(State()), sessionId, endedAt).Ok?
      ensures r.Ok? ==> State() == Tables.EndSession(old(State()), sessionId, endedAt).value
      ensures r.Err? ==> r.error == OperationalError && State() == old(State())
    {
      EndSessionKeepsValid(State(), sessionId, endedAt);
      if !sessionsTable {
        return Err(OperationalError);
      }
      if sessionId in sessions && sessions[sessionId].endedAt.None? {
        sessions := sessions[sessionId := sessions[sessionId].(endedAt := Some(endedAt))];
      }
      r := Ok(());
    }

    /** `DELETE FROM documents; DELETE FROM sessions;` in one transaction. */
    method DeleteAllRows() returns (r: Result<(), StoreError>)
      requires Valid()
      modifies this
      ensures Valid()
      ensures r.Ok? <==> Tables.DeleteAllRows(old(State())).Ok?
      ensures r.Ok? ==> State() == Tables.DeleteAllRows(old(State())).value
      ensures r.Err? ==> r.error == OperationalError && State() == old(State())
    {
      if !documentsTable || !sessionsTable {
        return Err(OperationalError);
      }
      documents := [];
      sessions := map[];
      r := Ok(());
    }
  }

  /** The store stays consistent under an insert, whether or not it succeeds. */
  lemma InsertKeepsValidIfPossible(db: Db, f: DocumentFields)
    requires Tables.Valid(db)
    ensures Tables.InsertDocument(db, f).Ok? ==> Tables.Valid(Tables.InsertDocument(db, f).value)
  {
    if db.documentsTable {
      InsertKeepsValid(db, f);
    }
  }

  /** `init_db`: makes the parent directory of the database path (with its
      missing ancestors), creates any missing table and returns the path it
      used; rows already present are untouched. */
  method InitDb(fs: Disk.FileSystem, db: Database, dbPath: Option<Path>) returns (used: Path)
    requires fs.Valid() && db.Valid()
    modifies fs, db
    ensures fs.Valid() && db.Valid()
    ensures used == DbPathOrDefault(dbPath)
    ensures fs.dirs == old(fs.dirs) + Lineage(Parent(used))
    ensures fs.files == old(fs.files) && fs.undeletable == old(fs.undeletable)
    ensures db.State() == InitSchema(old(db.State()))
  {
    used := DbPathOrDefault(dbPath);
    fs.MakeDirs(Parent(used));
    db.CreateTables();
  }
}
