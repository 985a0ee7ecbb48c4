# PerDocMan core in Dafny

PerDocMan is a personal document manager. It copies PDF files into managed
local storage and records one metadata row per file in a SQLite database. It
also records the sessions of the application (start and end time, user,
host), can reset the store, serves a small web view for browsing and
uploading PDFs, and resolves
where the vault lives. This project models that core and proves properties of
the model.

- `common.dfy` (`Common`): optional values, results, bytes, and the shapes of
  a version-4 UUID hex string and a SHA-256 hex digest.
- `paths.dfy` (`Paths`): the parts of `pathlib` the core relies on. Joining is
  `dir + "/" + name`. `Name`, `Suffix` and `Stem` follow CPython's rules;
  the suffix rule is that the last dot is neither the first nor the last
  character of the name. `Parent` follows them too, except at the root (see
  "Left out").
- `disk.dfy` (`Disk.FileSystem`): the filesystem as a class. It holds the
  regular files with their bytes and the existing directories. It also holds
  the set of files whose `unlink` raises `OSError` (a lock held elsewhere, a
  missing permission).
- `tables.dfy` (`Tables`): the SQLite database as a value. This is whether
  each table exists, the `documents` rows, the `sessions` rows keyed by
  `session_id`, and the AUTOINCREMENT counter. Each SQL statement the core
  issues is a function to the next value or to the error SQLite raises.
- `store.dfy` (`Store.Database`, `Store.InitDb`): the database file as a
  class. Its methods update it in place and are proved against the `Tables`
  functions.
- `ingest.dfy` (`Ingest`): `sha256_file` as a loop over 1 MiB chunks, the
  safe-name derivation, and `ingest_pdf` as a sequence of state changes on
  the filesystem and the database.
- `reset.dfy` (`Reset`): `reset_database`. The `*.pdf` sweep is a loop that
  skips files whose unlink fails, and both tables are then emptied.
- `server.dfy` (`Server`): `_html_escape` with its inverse, `list_documents`,
  `get_doc_count`, and the storage directory chosen for uploads.
- `config.dfy` (`Config`): `resolve_vault_root` and `build_paths`.

Some values come from outside the program and are parameters of the model:

- the SHA-256 function is the parameter `sha256: Bytes -> Digest`;
- the `uuid.uuid4().hex` value is the parameter `uuidHex`, which must have the
  version-4 shape;
- the current time, the user name and the host name are strings passed in;
- the process environment is a `map<string, string>`.

Some behaviour is modelled as the code has it:

- `reset_database` always sweeps `data/documents`. It does so even when
  uploads went to `vault_root/documents`. `Server.UploadSweptIffDataRoot`
  proves that a reset reaches an uploaded file only when there is no vault
  root or its path string is "data". Paths are compared as strings, so
  another spelling of `data` (its absolute path, say) is not recognised.
- The stored file name is described as "safe non-overwriting". It is made
  unique only by 8 random hex digits. There is no existence check, and the
  copy replaces any file already at that path; `Ingest.PlaceCopy` states
  this.
- `LIMIT` with a negative value returns every row, as in SQLite.

## Model

| member | source | states |
|---|---|---|
| Common.LowerHexAt | src/db.py:69 | every character of a hex token is a lower-case hex digit |
| Paths.LastIndex | src/ingest.py:43 | the index found holds the character, and no later index does; -1 when there is none |
| Paths.Name | src/ingest.py:85 | the final component of a path holds no separator |
| Paths.Join | src/ingest.py:59 | `dir / name` for a separator-free name has parent `dir` and name `name` |
| Paths.ParentJoinsName | src/db.py:19 | a path with a separator is its parent, the separator and its name, so `.parent` and `.name` split it back |
| Paths.LastIndexAppend | src/ingest.py:43 | the last occurrence of a character in `a + b` is the one in `b`, shifted by the length of `a` |
| Paths.Suffix | src/ingest.py:43 | the suffix is empty or a dot followed by at least one non-dot character, and is shorter than the name |
| Paths.Stem | src/ingest.py:55 | the stem followed by the suffix is the whole name |
| Paths.StemSuffixOfAppend | src/ingest.py:58 | appending `.ext` (no further dot) to a non-empty front makes `.ext` the suffix and the front the stem |
| Paths.Lineage | src/ingest.py:51 | what `mkdir(parents=True)` creates: the directory itself and only ancestors of it, each a '/'-prefix of it |
| Paths.LineageHasParents | src/db.py:19 | every directory it creates below the top level has its parent created too |
| Disk.FileSystem.constructor | src/ingest.py:40 | a filesystem whose files all lie in existing directories |
| Disk.FileSystem.MakeDirs | src/ingest.py:51 | the directory and every missing ancestor exist afterwards, and no other directory is added; files are unchanged |
| Disk.FileSystem.Copy | src/ingest.py:62 | the destination holds the source's bytes, replacing any file there; nothing else changes |
| Disk.FileSystem.Unlink | src/reset_db.py:17-20 | the file is removed if and only if it exists and the system allows it; otherwise nothing changes |
| Tables.InitSchema | src/db.py:26-50 | both tables exist afterwards; rows and counter are untouched; consistency is kept |
| Tables.InsertDocument | src/ingest.py:68-95 | fails with OperationalError exactly when `documents` is missing; otherwise appends one row with the next id and bumps the counter |
| Tables.StartSession | src/db.py:73-86 | fails exactly when `sessions` is missing or the id is taken; otherwise adds exactly one open session with the given fields and keeps the other rows, the counter and both table flags |
| Tables.EndSession | src/db.py:102-109 | sets `ended_at` only on a matching open session; every other session and all documents are kept |
| Tables.DeleteAllRows | src/reset_db.py:22-27 | fails with no change unless both tables exist; otherwise empties both and keeps the counter |
| Tables.InitSchemaIdempotent | src/db.py:26-50 | creating the schema twice equals creating it once, and no row is touched |
| Tables.InsertKeepsValid | src/db.py:28 | an insert keeps ids increasing and below the counter; every existing id is below the new one |
| Tables.StartSessionKeepsValid | src/db.py:73-86 | a successful session start keeps the store consistent |
| Tables.EndSessionKeepsValid | src/db.py:102-109 | ending a session keeps the store consistent |
| Tables.DeleteAllRowsKeepsValid | src/reset_db.py:25-27 | clearing both tables keeps the store consistent |
| Tables.EndedAtSetOnce | src/db.py:96-106 | once a session is ended, a later `end_session` with any time leaves it as it is |
| Tables.EndSessionIdempotent | src/db.py:94-109 | ending a session twice equals ending it once |
| Tables.EndSessionUnknownId | src/db.py:104-106 | ending an id that names no session changes nothing |
| Tables.StartThenEnd | src/db.py:64-109 | start then end leaves exactly that session closed at the end time, and all else unchanged |
| Store.DbPathOrDefault | src/db.py:8-18 | the given path, or `data/documents.db` |
| Store.Database.constructor | src/db.py:21 | a newly created database file has no tables |
| Store.Database.CreateTables | src/db.py:21-54 | the state becomes `InitSchema` of the old state |
| Store.Database.InsertDocument | src/ingest.py:68-95 | result and new state are those of `Tables.InsertDocument`; the returned id is the old counter |
| Store.Database.StartSession | src/db.py:64-91 | result and new state are those of `Tables.StartSession`; the returned id is the 32-hex-digit session id |
| Store.Database.EndSession | src/db.py:94-112 | result and new state are those of `Tables.EndSession` |
| Store.Database.DeleteAllRows | src/reset_db.py:22-29 | result and new state are those of `Tables.DeleteAllRows` |
| Store.InsertKeepsValidIfPossible | src/ingest.py:71-95 | an insert that succeeds keeps the store consistent |
| Store.InitDb | src/db.py:12-56 | returns the path used (the default when none is given), makes its parent directory with its missing ancestors, creates missing tables, and keeps every row and the files map |
| Ingest.KeepAllowed | src/ingest.py:56 | keeps exactly the alphanumerics, '-', '_' and ' ' of the input: every kept character is allowed and from the input, and every allowed character of the input is kept |
| Ingest.KeepAllowedAppend | src/ingest.py:56 | filtering distributes over concatenation, so it works character by character and keeps order |
| Ingest.LeadingSpaces | src/ingest.py:56 | counts the run of spaces at the start: all of them are spaces, and the next character is not |
| Ingest.TrimLeadingSpaces | src/ingest.py:56 | a suffix of the input whose removed prefix is all spaces, and which does not start with a space |
| Ingest.TrimTrailingSpaces | src/ingest.py:56 | a prefix of the input whose removed suffix is all spaces, and which does not end with a space |
| Ingest.Strip | src/ingest.py:56 | the input with the run of spaces at each end removed and nothing else: the contiguous middle part after the leading spaces, followed only by spaces, with no space at either end |
| Ingest.SpacesToUnderscores | src/ingest.py:56 | each space becomes '_' and every other character is kept in place |
| Ingest.SafeStem | src/ingest.py:55-56 | only alphanumerics, '-' and '_', no space, never longer than the stem |
| Ingest.SafeStemFromStem | src/ingest.py:56 | every character of the safe stem comes from the stem, or is a '_' standing for a space of it |
| Ingest.SafeStemKeepsSafeChars | src/ingest.py:54-56 | every alphanumeric, '-' and '_' of the stem appears in the safe stem |
| Ingest.SafeStemJoinsWords | src/ingest.py:54-56 | a stem of allowed characters with no space at either end is kept with each interior space turned into '_' ("statement 2024" gives "statement_2024") |
| Ingest.KeepAllowedIdentity | src/ingest.py:56 | filtering keeps a string made only of allowed characters as it is |
| Ingest.SafeStemKeepsSafe | src/ingest.py:55-56 | a stem already made of safe characters is kept as it is |
| Ingest.SafeStemIdempotent | src/ingest.py:55-56 | sanitising a safe stem again changes nothing |
| Ingest.Lower | src/ingest.py:43 | ASCII upper-case letters become lower-case and every other character is kept |
| Ingest.IsPdfName | src/ingest.py:43-44 | a name is accepted exactly when it is at least five characters long and ends in ".pdf" in any case, so "a.PDF" passes and ".pdf" and "a.pdf.txt" do not |
| Ingest.PdfNameEndsInPdf | src/ingest.py:43-44 | a name whose lower-cased suffix is ".pdf" ends in ".pdf" in some mix of cases, after at least one other character |
| Ingest.EndsInPdfIsPdfName | src/ingest.py:43-44 | a name ending in ".pdf" in any case, after at least one other character, has lower-cased suffix ".pdf" |
| Ingest.StoredFileName | src/ingest.py:57-58 | the stored name `safe_stem__<8 hex>.pdf` holds no path separator |
| Ingest.StoredFileNameSplit | src/ingest.py:57-58 | the stored name has stem `safe_stem + "__" + 8 hex digits` and suffix ".pdf" |
| Ingest.StoredFileNameIsPdf | src/ingest.py:58 | the stored name would itself pass the suffix check |
| Ingest.StoredPath | src/ingest.py:53-59 | the destination is a direct child of the storage directory, named by the stored name |
| Ingest.StorageDirOrDefault | src/ingest.py:50 | the given storage directory, or `data/documents` |
| Ingest.ReadAt | src/ingest.py:16 | `f.read(n)`: at most `n` bytes, exactly `n` unless the end is reached, non-empty while bytes remain, and they are the next bytes of the file |
| Ingest.Sha256File | src/ingest.py:12-18 | chunks are non-empty and at most 1 MiB, and together make up the whole file, so the result is the hash of the whole content; a missing file is an error |
| Ingest.PlaceCopy | src/ingest.py:50-62 | the storage directory and its missing ancestors exist, and the destination holds the source's bytes, replacing any file there |
| Ingest.RecordCopy | src/ingest.py:64-95 | one row is appended with the name, destination, hash of the stored copy, category, tags, date and time; the returned id is that row's |
| Ingest.CopyAndRecord | src/ingest.py:50-95 | the copy lands at the stored path with the source's bytes, and the database gains exactly the row `InsertDocument` appends with the hash of those bytes; the id is the old counter |
| Ingest.IngestPdf | src/ingest.py:21-97 | a missing source or non-PDF suffix is rejected with no change at all; otherwise the schema exists, the database and storage directories exist with their ancestors, the copy holds the source's bytes, exactly one row is appended and its id returned |
| Reset.GlobIsSuffix | src/reset_db.py:16 | a name matches `*.pdf` exactly when its suffix is ".pdf" or it is ".pdf" itself |
| Reset.AfterSweep | src/reset_db.py:14-20 | the sweep only removes files, and what it keeps keeps its bytes |
| Reset.SweepPdfs | src/reset_db.py:14-20 | the loop leaves exactly `AfterSweep` of the files; directories are unchanged |
| Reset.NoDirNoTargets | src/reset_db.py:15 | when `data/documents` does not exist no file is touched |
| Reset.SweepRemovesExactlyDeletableTargets | src/reset_db.py:16-20 | a file survives exactly when it is not a direct `*.pdf` child of the directory or its unlink fails |
| Reset.ResetDatabase | src/reset_db.py:8-29 | afterwards both tables exist and are empty, the counter is kept, the files are the sweep of `data/documents`, and only the database directory and its missing ancestors are added |
| Reset.ResetKeepsCounter | src/reset_db.py:25-27 | after a reset the next row gets an id above every id given out before |
| Reset.DefaultIngestIsSwept | src/reset_db.py:14-16 | a file ingested into the default storage is a sweep target and is removed unless its unlink fails |
| Server.ReplaceChar | src/perdocman_server.py:46-49 | every output character is an input character other than the replaced one or comes from the replacement; text without the character is unchanged |
| Server.ReplaceCharAppend | src/perdocman_server.py:46-49 | replacing distributes over concatenation |
| Server.EscapeText | src/perdocman_server.py:46-49 | after the replace chain no '<', '>' or '"' is left |
| Server.EscapeChars | src/perdocman_server.py:45-50 | the per-character reference: no '<', '>' or '"', and text without special characters is unchanged |
| Server.EscapeTextIsPerChar | src/perdocman_server.py:46-49 | because '&' goes first, the replace chain equals escaping each character once |
| Server.HtmlEscape | src/perdocman_server.py:43-50 | None gives ""; the output has no '<', '>' or '"'; plain text is returned as it is |
| Server.AmpersandsBeginEntities | src/perdocman_server.py:46-49 | in per-character escaping every '&' begins `&amp;`, `&lt;`, `&gt;` or `&quot;` |
| Server.HtmlEscapeAmpersands | src/perdocman_server.py:46-49 | every '&' in the output of `_html_escape` begins one of the four entities |
| Server.UnescapeEscapeChars | src/perdocman_server.py:45-50 | reading entities back undoes per-character escaping |
| Server.HtmlEscapeRoundTrip | src/perdocman_server.py:43-50 | unescaping the output gives the text back, so two different texts never escape alike |
| Server.RowsReturned | src/perdocman_server.py:34-36 | `LIMIT` returns at most `limit` rows and all of them when fewer exist or the limit is negative |
| Server.ListDocuments | src/perdocman_server.py:25-40 | fails without the table; otherwise the i-th row is the i-th most recently inserted, with as many rows as `LIMIT` allows |
| Server.ListingIsNewestFirst | src/perdocman_server.py:29-38 | at most `limit` rows, all from the table, in strictly decreasing id order |
| Server.ListingKeepsLargestIds | src/perdocman_server.py:29-38 | every row left out has a smaller id than every row returned |
| Server.ListedIndex | src/perdocman_server.py:33-34 | the k-th oldest row is returned when it is among the newest `limit` |
| Server.DocCount | src/perdocman_server.py:14-22 | fails exactly when the table is missing |
| Server.DocCountAgrees | src/perdocman_server.py:14-20 | the count is the unlimited listing's length; +1 per ingest, 0 after clearing, unchanged by schema setup and session end |
| Server.UploadStorageDir | src/perdocman_server.py:200 | `vault_root/documents` when a vault root is set, else `data/documents` |
| Server.UploadStorageDirMatches | src/perdocman_server.py:200 | with a vault root it is the layout's documents directory; without one it is the default of `ingest_pdf` |
| Server.UploadDirIsSweptDirIff | src/perdocman_server.py:200 | the upload directory is the swept one exactly when there is no vault root or its path string is "data" |
| Server.UploadSweptIffDataRoot | src/perdocman_server.py:200 | an uploaded file is a reset target exactly when there is no vault root or its path string is "data" |
| Config.UsableEnv | src/config.py:26-27 | the environment value counts exactly when it is set and not empty |
| Config.ResolveVaultRoot | src/config.py:16-30 | explicit argument first, then a non-empty environment value, then `vault` |
| Config.ResolveIsFirstUsable | src/config.py:17-30 | the result is the first usable source in priority order, else `vault` |
| Config.EnvironmentPriority | src/config.py:23-28 | an explicit argument wins whatever the environment holds; an empty value counts as unset |
| Config.BuildPaths | src/config.py:8-40 | builds `AppPaths`: the database, documents and logs paths are distinct direct children of the resolved root, with those names |

## Left out

- HTTP plumbing of `src/perdocman_server.py` is not modelled: request routing, form parsing, temporary files, status codes, and the HTML pages.
- Paths.Parent: the parent of "/x" and of "/" is "" here, but "/" in CPython; the root directory of an absolute path is therefore recorded as "".
- Tables.InsertDocument: document ids are unbounded; SQLite's 64-bit rowid limit (an `AUTOINCREMENT` insert failing with SQLITE_FULL once rowid 2^63-1 has been used) is not modelled.
- `handle_documents` builds its row list in a loop for display; that loop is not modelled.
- `src/launcher.py` is not modelled: threads, the browser, port choice, and sleeping.
- SHA-256 and UUID generation are not modelled inside. The hash is a function parameter, and the UUID hex is an input of the version-4 shape.
- The clock, `getpass.getuser()` and `platform.node()` are inputs.
- `Path.resolve()` in `build_paths` is not modelled, nor any path normalisation. Paths are strings joined with "/".
- Paths.Lineage: the ancestors `mkdir(parents=True)` creates are taken as the '/'-prefixes of the string; "..", "." and repeated separators are not normalised.
- `shutil.copy2` is modelled as a copy of the bytes only. Timestamps and permission bits are not modelled.
- `copy2` raising `SameFileError` when the destination is the source itself is not modelled.
- Store.InitDb: the database file that `sqlite3.connect` creates is not entered in `Disk.FileSystem.files`; the database is the separate `Store.Database` object.
- Ingest.IngestPdf: `shutil.copy2` and the `open`/`read` calls of `sha256_file` never fail in the model, so every existing source with a ".pdf" suffix yields one row. In Python, a failing copy (a storage directory that is not writable, say) raises after `init_db` and `mkdir` have run, leaving the schema and directories but no row; a failing read of the stored copy raises after the copy, leaving an orphaned stored file and no row.
- Disk.FileSystem.Copy: always succeeds; the `OSError`s `copy2` can raise are not modelled.
- Ingest.Sha256File: fails only when the file is missing; an `OSError` from `open` or `read` on an existing file is not modelled.
- Directory creation never fails in the model. A regular file already at the directory's path is not modelled.
- `str.isalnum`, `str.strip` and `str.lower` are modelled on ASCII. Non-ASCII letters and digits, and Unicode whitespace, are not modelled.
- The suffix check is not affected by the ASCII `str.lower`: no non-ASCII character lower-cases to '.', 'p', 'd' or 'f'.
- `Path.glob("*.pdf")` is modelled case-sensitive, as on POSIX. Windows matching is not modelled.
- The glob's snapshot of the directory is modelled as taken before the first unlink.
- SQLite's engine is not modelled: concurrency, locking, crash atomicity, and files that are not databases.
- `_html_escape` is modelled on strings and None. `str()` of other values is not modelled.
- `list_documents` returns whole `Document` values. The SQL column projection and order are not modelled.
