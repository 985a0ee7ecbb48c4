/** The contents of the SQLite metadata store as a value: whether each of the
    two tables exists, their rows, and the AUTOINCREMENT counter of
    `documents`. Every SQL statement the core issues is a function from one
    such value to the next, or to the error SQLite raises. */
module Tables {
  import opened Common

  /** The columns of a `documents` row other than its id. */
  datatype DocumentFields = DocumentFields(
    originalFilename: string,
    storedPath: string,
    sha256: Option<string>,
    category: Option<string>,
    tags: Option<string>,
    docDate: Option<string>,
    ingestedAt: string)

  datatype Document = Document(id: nat, fields: DocumentFields)

  /** A `sessions` row; its `session_id` is the key it is stored under. */
  datatype Session = Session(
    startedAt: string,
    endedAt: Option<string>,
    username: string,
    hostname: string,
    vaultRoot: Option<string>,
    notes: Option<string>)

  /** `sqlite3.OperationalError` (a statement names a table that does not
      exist) and `sqlite3.IntegrityError` (a PRIMARY KEY already in use). */
  datatype StoreError = OperationalError | IntegrityError

  datatype Db = Db(
    documentsTable: bool,
    sessionsTable: bool,
    documents: seq<Document>,
    sessions: map<string, Session>,
    nextId: nat)

  /** A database file that `sqlite3.connect` has just created. */
  const Fresh := Db(false, false, [], map[], 1)

  /** Ids are positive, strictly increasing in insertion order and below the
      AUTOINCREMENT counter; a table that does not exist has no rows. */
  ghost predicate Valid(db: Db) {
    && 1 <= db.nextId
    && (forall i, j :: 0 <= i < j < |db.documents| ==> db.documents[i].id < db.documents[j].id)
    && (forall i :: 0 <= i < |db.documents| ==> 1 <= db.documents[i].id < db.nextId)
    && (!db.documentsTable ==> db.documents == [])
    && (!db.sessionsTable ==> db.sessions == map[])
  }

  /** The two `CREATE TABLE IF NOT EXISTS` statements of `init_db`. */
  function InitSchema(db: Db): (r: Db)
    ensures r.documentsTable && r.sessionsTable
    ensures r.documents == db.documents && r.sessions == db.sessions && r.nextId == db.nextId
    ensures Valid(db) ==> Valid(r)
  {
    db.(documentsTable := true, sessionsTable := true)
  }

  /** `INSERT INTO documents (...)`: the new row takes the next AUTOINCREMENT id. */
  function InsertDocument(db: Db, f: DocumentFields): (r: Result<Db, StoreError>)
    ensures r.Err? <==> !db.documentsTable
    ensures r.Err? ==> r.error == OperationalError
    ensures r.Ok? ==>
      && r.value.documents == db.documents + [Document(db.nextId, f)]
      && r.value.nextId == db.nextId + 1
      && r.value.sessions == db.sessions
      && r.value.documentsTable == db.documentsTable
      && r.value.sessionsTable == db.sessionsTable
  {
    if !db.documentsTable then Err(OperationalError)
    else Ok(db.(documents := db.documents + [Document(db.nextId, f)], nextId := db.nextId + 1))
  }

  /** `INSERT INTO sessions (...)` with `ended_at` left NULL. */
  function StartSession(db: Db, sessionId: string, startedAt: string, username: string,
                        hostname: string, vaultRoot: Option<string>, notes: Option<string>)
    : (r: Result<Db, StoreError>)
    ensures r.Err? <==> !db.sessionsTable || sessionId in db.sessions
    ensures r.Err? ==> r.error == (if db.sessionsTable then IntegrityError else OperationalError)
    ensures r.Ok? ==>
      && r.value.sessions.Keys == db.sessions.Keys + {sessionId}
      && r.value.sessions[sessionId] == Session(startedAt, None, username, hostname, vaultRoot, notes)
      && (forall k :: k in db.sessions ==> r.value.sessions[k] == db.sessions[k])
      && r.value.documents == db.documents && r.value.nextId == db.nextId
      && r.value.documentsTable == db.documentsTable && r.value.sessionsTable
  {
    if !db.sessionsTable then Err(OperationalError)
    else if sessionId in db.sessions then Err(IntegrityError)
    else Ok(db.(sessions := db.sessions[sessionId := Session(startedAt, None, username, hostname, vaultRoot, notes)]))
  }

  /** `UPDATE sessions SET ended_at = ? WHERE session_id = ? AND ended_at IS NULL`. */
  function EndSession(db: Db, sessionId: string, endedAt: string): (r: Result<Db, StoreError>)
    ensures r.Err? <==> !db.sessionsTable
    ensures r.Ok? ==>
      && r.value.sessions.Keys == db.sessions.Keys
      && r.value.documents == db.documents && r.value.nextId == db.nextId
      && r.value.documentsTable == db.documentsTable && r.value.sessionsTable
      && (forall k :: k in db.sessions && k != sessionId ==> r.value.sessions[k] == db.sessions[k])
      && (sessionId in db.sessions ==>
            r.value.sessions[sessionId] ==
              if db.sessions[sessionId].endedAt.None?
              then db.sessions[sessionId].(endedAt := Some(endedAt))
              else db.sessions[sessionId])
  {
    if !db.sessionsTable then Err(OperationalError)
    else if sessionId in db.sessions && db.sessions[sessionId].endedAt.None? then
      Ok(db.(sessions := db.sessions[sessionId := db.sessions[sessionId].(endedAt := Some(endedAt))]))
    else Ok(db)
  }

  /** `DELETE FROM documents; DELETE FROM sessions;` committed together: if
      either statement fails, neither deletion is committed. The
      AUTOINCREMENT counter is not reset by `DELETE`. */
  function DeleteAllRows(db: Db): (r: Result<Db, StoreError>)
    ensures r.Err? <==> !db.documentsTable || !db.sessionsTable
    ensures r.Ok? ==> r.value == db.(documents := [], sessions := map[])
  {
    if !db.documentsTable || !db.sessionsTable then Err(OperationalError)
    else Ok(db.(documents := [], sessions := map[]))
  }

  // ---------------------------------------------------------------------
  // Properties of the statements

  /** Creating the schema twice is creating it once, and it never touches rows. */
  lemma InitSchemaIdempotent(db: Db)
    ensures InitSchema(InitSchema(db)) == InitSchema(db)
    ensures InitSchema(db).documents == db.documents && InitSchema(db).sessions == db.sessions
  {
  }

  /** Inserting a document keeps the store consistent, and the new row is
      the one with the largest id. */
  lemma InsertKeepsValid(db: Db, f: DocumentFields)
    requires Valid(db) && db.documentsTable
    ensures InsertDocument(db, f).Ok?
    ensures Valid(InsertDocument(db, f).value)
    ensures forall d :: d in db.documents ==> d.id < db.nextId
  {
    forall d | d in db.documents ensures d.id < db.nextId {
      var i :| 0 <= i < |db.documents| && db.documents[i] == d;
    }
  }

  /** Starting a session keeps the store consistent. */
  lemma StartSessionKeepsValid(db: Db, sessionId: string, startedAt: string, username: string,
                               hostname: string, vaultRoot: Option<string>, notes: Option<string>)
    requires Valid(db)
    ensures StartSession(db, sessionId, startedAt, username, hostname, vaultRoot, notes).Ok? ==>
              Valid(StartSession(db, sessionId, startedAt, username, hostname, vaultRoot, notes).value)
  {
  }

  /** Ending a session keeps the store consistent. */
  lemma EndSessionKeepsValid(db: Db, sessionId: string, endedAt: string)
    requires Valid(db)
    ensures EndSession(db, sessionId, endedAt).Ok? ==> Valid(EndSession(db, sessionId, endedAt).value)
  {
  }

  /** Clearing both tables keeps the store consistent. */
  lemma DeleteAllRowsKeepsValid(db: Db)
    requires Valid(db)
    ensures DeleteAllRows(db).Ok? ==> Valid(DeleteAllRows(db).value)
  {
  }

  /** Once a session is ended its end time is never overwritten: any later
      `end_session`, with any timestamp, leaves the row as it is. */
  lemma EndedAtSetOnce(db: Db, sessionId: string, first: string, later: string)
    requires db.sessionsTable && sessionId in db.sessions
    ensures var once := EndSession(db, sessionId, first).value;
      && once.sessions[sessionId].endedAt.Some?
      && EndSession(once, sessionId, later) == Ok(once)
  {
  }

  /** Ending a session is idempotent. */
  lemma EndSessionIdempotent(db: Db, sessionId: string, first: string, later: string)
    requires EndSession(db, sessionId, first).Ok?
    ensures EndSession(EndSession(db, sessionId, first).value, sessionId, later)
            == EndSession(db, sessionId, first)
  {
  }

  /** `end_session` with an id that names no session changes nothing. */
  lemma EndSessionUnknownId(db: Db, sessionId: string, endedAt: string)
    requires db.sessionsTable && sessionId !in db.sessions
    ensures EndSession(db, sessionId, endedAt) == Ok(db)
  {
  }

  /** Starting a session and then ending it leaves exactly that session
      closed with the ending timestamp, and every other row untouched. */
  lemma StartThenEnd(db: Db, sessionId: string, startedAt: string, endedAt: string, username: string,
                     hostname: string, vaultRoot: Option<string>, notes: Option<string>)
    requires db.sessionsTable && sessionId !in db.sessions
    ensures var started := StartSession(db, sessionId, startedAt, username, hostname, vaultRoot, notes);
      && started.Ok?
      && EndSession(started.value, sessionId, endedAt).Ok?
      && EndSession(started.value, sessionId, endedAt).value
         == db.(sessions := db.sessions[sessionId := Session(startedAt, Some(endedAt), username, hostname, vaultRoot, notes)])
  {
  }
}
