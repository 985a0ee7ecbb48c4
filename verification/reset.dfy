/** `reset_database` (`src/reset_db.py`): empty the store without deleting
    the database file. The schema is ensured first, then every `*.pdf` file
    directly inside `data/documents` is unlinked (a file whose unlink fails is
    skipped), then both tables are emptied in one transaction. */
module Reset {
  import opened Common
  import opened Paths
  import opened Tables
  import Disk
  import Store
  import Ingest

  /** The directory the sweep looks in: always `data/documents`, whatever
      storage directory earlier ingestions used. */
  const SweptDir: Path := Store.DefaultDocumentsDir

  /** The pattern `*.pdf` of `Path.glob` on a case-sensitive filesystem: any
      name, the empty one and hidden names included, followed by ".pdf". */
  predicate MatchesPdfGlob(name: string) {
    4 <= |name| && name[|name| - 4..] == ".pdf"
  }

  /** A name matches `*.pdf` exactly when its suffix is ".pdf" in lower
      case, or it is ".pdf" itself (which has no suffix). */
  lemma GlobIsSuffix(name: string)
    ensures MatchesPdfGlob(name) <==> Suffix(name) == ".pdf" || name == ".pdf"
  {
    if 4 < |name| && name[|name| - 4..] == ".pdf" {
      var front := name[..|name| - 4];
      assert name == front + ".pdf";
      assert ".pdf"[1..] == "pdf";
      StemSuffixOfAppend(front, ".pdf");
    }
    if Suffix(name) == ".pdf" {
      var stem := Stem(name);
      assert name == stem + ".pdf";
      assert name[|name| - 4..] == ".pdf";
    }
  }

  /** The paths `dir.glob("*.pdf")` yields among the files: direct children
      of `dir` whose name matches. */
  predicate IsSweepTarget(p: Path, dir: Path) {
    Parent(p) == dir && MatchesPdfGlob(Name(p))
  }

  /** What the files are after the sweep of `dir`: every target the system
      lets go of is gone, everything else is kept with its bytes. */
  function AfterSweep(files: map<Path, Bytes>, dir: Path, undeletable: set<Path>): (r: map<Path, Bytes>)
    ensures r.Keys <= files.Keys
    ensures forall p :: p in r ==> r[p] == files[p]
  {
    map p | p in files && (!IsSweepTarget(p, dir) || p in undeletable) :: files[p]
  }

  /** The files once the targets in `done` have been tried. */
  function AfterTrying(files: map<Path, Bytes>, done: set<Path>, undeletable: set<Path>): map<Path, Bytes> {
    map p | p in files && (p !in done || p in undeletable) :: files[p]
  }

  function Targets(files: map<Path, Bytes>, dir: Path): set<Path> {
    set p | p in files && IsSweepTarget(p, dir)
  }

  lemma TryOneMore(files: map<Path, Bytes>, done: set<Path>, undeletable: set<Path>, p: Path)
    requires p in files && p !in done
    ensures p in undeletable ==>
      AfterTrying(files, done + {p}, undeletable) == AfterTrying(files, done, undeletable)
    ensures p !in undeletable ==>
      AfterTrying(files, done + {p}, undeletable) == AfterTrying(files, done, undeletable) - {p}
  {
  }

  lemma TryingAllTargets(files: map<Path, Bytes>, dir: Path, undeletable: set<Path>)
    ensures AfterTrying(files, Targets(files, dir), undeletable) == AfterSweep(files, dir, undeletable)
  {
  }

  /** The loop of `reset_database`: `if docs_dir.exists()`, unlink each
      match of the glob, ignoring `OSError`. */
  method SweepPdfs(fs: Disk.FileSystem, dir: Path)
    requires fs.Valid()
    modifies fs
    ensures fs.Valid()
    ensures fs.files == AfterSweep(old(fs.files), dir, fs.undeletable)
    ensures fs.dirs == old(fs.dirs) && fs.undeletable == old(fs.undeletable)
  {
    if dir !in fs.dirs {
      NoDirNoTargets(fs.files, fs.dirs, dir, fs.undeletable);
      return;
    }
    ghost var files0 := fs.files;
    var targets := Targets(fs.files, dir);
    var remaining := targets;
    while remaining != {}
      invariant fs.Valid()
      invariant remaining <= targets
      invariant fs.dirs == old(fs.dirs) && fs.undeletable == old(fs.undeletable)
      invariant fs.files == AfterTrying(files0, targets - remaining, fs.undeletable)
      decreases remaining
    {
      var p :| p in remaining;
      assert targets - remaining + {p} == targets - (remaining - {p});
      TryOneMore(files0, targets - remaining, fs.undeletable, p);
      var removed := fs.Unlink(p);
      remaining := remaining - {p};
    }
    assert targets - remaining == targets;
    TryingAllTargets(files0, dir, fs.undeletable);
  }

  /** When the swept directory does not exist nothing is a target, so the
      sweep leaves the files as they are. */
  lemma NoDirNoTargets(files: map<Path, Bytes>, dirs: set<Path>, dir: Path, undeletable: set<Path>)
    requires forall p :: p in files ==> Parent(p) in dirs
    requires dir !in dirs
    ensures AfterSweep(files, dir, undeletable) == files
  {
    assert forall p :: p in files ==> !IsSweepTarget(p, dir);
  }

  /** The sweep removes exactly the targets it is allowed to delete: a
      file survives if and only if it is not a target or its unlink fails,
      and survivors keep their bytes. */
  lemma SweepRemovesExactlyDeletableTargets(files: map<Path, Bytes>, dir: Path, undeletable: set<Path>, p: Path)
    ensures p in AfterSweep(files, dir, undeletable) <==>
              p in files && (!IsSweepTarget(p, dir) || p in undeletable)
  {
  }

  /** `reset_database(db_path)`: afterwards both tables exist and are
      empty, the AUTOINCREMENT counter is kept, and the files are those of
      the sweep of `data/documents`. The directory of the database and its
      missing ancestors are made by `init_db`. */
  method ResetDatabase(fs: Disk.FileSystem, db: Store.Database, dbPath: Path)
    requires fs.Valid() && db.Valid()
    modifies fs, db
    ensures fs.Valid() && db.Valid()
    ensures db.documentsTable && db.sessionsTable
    ensures db.documents == [] && db.sessions == map[]
    ensures db.nextId == old(db.nextId)
    ensures fs.files == AfterSweep(old(fs.files), SweptDir, fs.undeletable)
    ensures fs.dirs == old(fs.dirs) + Lineage(Parent(dbPath))
    ensures fs.undeletable == old(fs.undeletable)
  {
    var used := Store.InitDb(fs, db, Some(dbPath));
    SweepPdfs(fs, SweptDir);
    var cleared := db.DeleteAllRows();
  }

  /** A reset leaves a store on which the next ingestion gets the id after
      the last one ever given out, never a reused id. */
  lemma ResetKeepsCounter(db: Db, f: DocumentFields)
    requires Valid(db)
    ensures var r := DeleteAllRows(InitSchema(db));
      && r.Ok? && r.value.documents == [] && r.value.sessions == map[]
      && Tables.InsertDocument(r.value, f).value.documents == [Document(db.nextId, f)]
      && (forall d :: d in db.documents ==> d.id < db.nextId)
  {
    forall d | d in db.documents ensures d.id < db.nextId {
      var i :| 0 <= i < |db.documents| && db.documents[i] == d;
    }
  }

  /** A file that was ingested into the default storage directory is swept
      by a reset, unless the system refuses to delete it. */
  lemma DefaultIngestIsSwept(files: map<Path, Bytes>, sourceName: string, uuidHex: string, undeletable: set<Path>)
    requires IsUuid4Hex(uuidHex)
    ensures var dest := Ingest.StoredPath(Store.DefaultDocumentsDir, sourceName, uuidHex);
      && IsSweepTarget(dest, SweptDir)
      && (dest !in undeletable ==> dest !in AfterSweep(files, SweptDir, undeletable))
  {
    Ingest.StoredFileNameSplit(Stem(sourceName), uuidHex);
  }
}
