/** PDF ingestion (`src/ingest.py`): validate the source, derive a safe
    stored name, copy the bytes into managed storage, hash the stored copy
    and record one `documents` row. */
module Ingest {
  import opened Common
  import opened Paths
  import opened Tables
  import Disk
  import Store

  // ---------------------------------------------------------------------
  // Name rules

  /** `str.isalnum()` on ASCII characters. */
  predicate IsAlnum(c: char) {
    'a' <= c <= 'z' || 'A' <= c <= 'Z' || '0' <= c <= '9'
  }

  /** The characters a stored stem may hold. */
  predicate IsSafeChar(c: char) {
    IsAlnum(c) || c == '-' || c == '_'
  }

  /** The characters the comprehension keeps from the original stem. */
  predicate IsKept(c: char) {
    IsSafeChar(c) || c == ' '
  }

  /** The filter of the comprehension: the kept characters of `s`, in order.
      Every allowed character is kept as often as it occurs, and nothing else
      is kept. */
  function KeepAllowed(s: string): (r: string)
    ensures |r| <= |s|
    ensures forall c :: c in r ==> IsKept(c) && c in s
    ensures forall c :: c in s && IsKept(c) ==> c in r
  {
    if s == [] then []
    else
      var head := if IsKept(s[0]) then [s[0]] else [];
      var rest := KeepAllowed(s[1..]);
      assert forall c :: c in s ==> c == s[0] || c in s[1..];
      head + rest
  }

  /** Filtering a concatenation filters each part: the kept characters keep
      their order. */
  lemma {:induction false} KeepAllowedAppend(a: string, b: string)
    ensures KeepAllowed(a + b) == KeepAllowed(a) + KeepAllowed(b)
  {
    if a != [] {
      assert (a + b)[0] == a[0] && (a + b)[1..] == a[1..] + b;
      KeepAllowedAppend(a[1..], b);
      assert KeepAllowed(a + b) == (if IsKept(a[0]) then [a[0]] else []) + KeepAllowed(a[1..] + b);
    } else {
      assert a + b == b;
    }
  }

  /** Every character of `s` is a space. */
  predicate AllSpaces(s: string) {
    forall i :: 0 <= i < |s| ==> s[i] == ' '
  }

  /** The length of the run of spaces `s` starts with. */
  function LeadingSpaces(s: string): (k: nat)
    ensures k <= |s| && AllSpaces(s[..k])
    ensures k == |s| || s[k] != ' '
  {
    if s != [] && s[0] == ' ' then
      var k := 1 + LeadingSpaces(s[1..]);
      assert forall i :: 1 <= i < k ==> s[..k][i] == s[1..][..k - 1][i - 1];
      k
    else 0
  }

  /** `s` with its leading spaces removed: a suffix of `s`, the part removed
      is all spaces, and the rest does not start with a space. */
  function TrimLeadingSpaces(s: string): (r: string)
    ensures |r| <= |s| && r == s[|s| - |r|..]
    ensures AllSpaces(s[..|s| - |r|])
    ensures r == [] || r[0] != ' '
  {
    s[LeadingSpaces(s)..]
  }

  /** `s` with its trailing spaces removed: a prefix of `s`, the part removed
      is all spaces, and the rest does not end with a space. */
  function TrimTrailingSpaces(s: string): (r: string)
    ensures |r| <= |s| && r == s[..|r|]
    ensures AllSpaces(s[|r|..])
    ensures r == [] || r[|r| - 1] != ' '
  {
    if s != [] && s[|s| - 1] == ' ' then
      var r := TrimTrailingSpaces(s[..|s| - 1]);
      assert forall i :: 0 <= i < |s| - 1 - |r| ==> s[|r|..][i] == s[..|s| - 1][|r|..][i];
      assert s[|r|..][|s| - 1 - |r|] == ' ';
      r
    else s
  }

  /** `str.strip()`. After `KeepAllowed` the only whitespace left is ' '.
      The result is the middle of `s` once the runs of spaces at both ends
      are removed, and nothing else is removed. */
  function Strip(s: string): (r: string)
    ensures |r| <= |s|
    ensures forall c :: c in r ==> c in s
    ensures r == [] || (r[0] != ' ' && r[|r| - 1] != ' ')
    ensures LeadingSpaces(s) + |r| <= |s| && r == s[LeadingSpaces(s)..LeadingSpaces(s) + |r|]
    ensures AllSpaces(s[LeadingSpaces(s) + |r|..])
  {
    var left := TrimLeadingSpaces(s);
    var r := TrimTrailingSpaces(left);
    MiddleOfSlice(s, LeadingSpaces(s), |r|);
    r
  }

  /** Cutting `n` characters from `s[a..]` is cutting them from `s` at `a`. */
  lemma MiddleOfSlice(s: string, a: nat, n: nat)
    requires a + n <= |s|
    ensures s[a..][..n] == s[a..a + n] && s[a..][n..] == s[a + n..]
    ensures forall c :: c in s[a..a + n] ==> c in s
  {
    forall c | c in s[a..a + n] ensures c in s {
      var i :| 0 <= i < n && s[a..a + n][i] == c;
      assert s[a + i] == c;
    }
  }

  /** `str.replace(" ", "_")`. */
  function SpacesToUnderscores(s: string): (r: string)
    ensures |r| == |s|
    ensures forall i :: 0 <= i < |s| ==> r[i] == if s[i] == ' ' then '_' else s[i]
  {
    if s == [] then [] else [if s[0] == ' ' then '_' else s[0]] + SpacesToUnderscores(s[1..])
  }

  /** The sanitised stem: only alphanumerics, '-' and '_' (so no space), and
      never longer than the original stem. */
  function SafeStem(stem: string): (r: string)
    ensures forall i :: 0 <= i < |r| ==> IsSafeChar(r[i])
    ensures ' ' !in r
    ensures |r| <= |stem|
  {
    var stripped := Strip(KeepAllowed(stem));
    UnderscoredIsSafe(stripped);
    SpacesToUnderscores(stripped)
  }

  lemma UnderscoredIsSafe(s: string)
    requires forall c :: c in s ==> IsKept(c)
    ensures forall i :: 0 <= i < |s| ==> IsSafeChar(SpacesToUnderscores(s)[i])
  {
    forall i | 0 <= i < |s| ensures IsSafeChar(SpacesToUnderscores(s)[i]) {
      assert s[i] in s;
    }
  }

  /** Every character of the safe stem is taken from the original stem,
      except an '_' that stands for a space of the stem. */
  lemma SafeStemFromStem(stem: string)
    ensures forall c :: c in SafeStem(stem) ==> c in stem || (c == '_' && ' ' in stem)
  {
    var kept := KeepAllowed(stem);
    var stripped := Strip(kept);
    var r := SafeStem(stem);
    forall c | c in r ensures c in stem || (c == '_' && ' ' in stem) {
      var i :| 0 <= i < |r| && r[i] == c;
      assert stripped[i] in stripped;
    }
  }

  /** The converse: every alphanumeric, '-' and '_' of the original stem
      survives into the safe stem. */
  lemma SafeStemKeepsSafeChars(stem: string, c: char)
    requires c in stem && IsSafeChar(c)
    ensures c in SafeStem(stem)
  {
    var kept := KeepAllowed(stem);
    var i :| 0 <= i < |kept| && kept[i] == c;
    var stripped := Strip(kept);
    var a := LeadingSpaces(kept);
    assert a <= i < a + |stripped|;
    assert stripped[i - a] == c;
    assert SafeStem(stem)[i - a] == c;
  }

  lemma {:induction false} KeepAllowedIdentity(s: string)
    requires forall i :: 0 <= i < |s| ==> IsKept(s[i])
    ensures KeepAllowed(s) == s
  {
    if s != [] {
      KeepAllowedIdentity(s[1..]);
    }
  }

  lemma StripWithoutEndSpaces(s: string)
    requires s == [] || (s[0] != ' ' && s[|s| - 1] != ' ')
    ensures Strip(s) == s
  {
    var left := TrimLeadingSpaces(s);
    assert left == s;
    assert TrimTrailingSpaces(left) == left;
  }

  lemma UnderscoresWithoutSpaces(s: string)
    requires ' ' !in s
    ensures SpacesToUnderscores(s) == s
  {
    assert forall i :: 0 <= i < |s| ==> s[i] in s;
  }

  /** A stem made of allowed characters and spaces, with no space at either
      end, has each of its spaces turned into '_' and is otherwise kept; so
      "statement 2024" becomes "statement_2024". */
  lemma SafeStemJoinsWords(stem: string)
    requires forall i :: 0 <= i < |stem| ==> IsKept(stem[i])
    requires stem == [] || (stem[0] != ' ' && stem[|stem| - 1] != ' ')
    ensures SafeStem(stem) == SpacesToUnderscores(stem)
  {
    KeepAllowedIdentity(stem);
    StripWithoutEndSpaces(stem);
  }

  /** A stem that is already safe is kept as it is. */
  lemma SafeStemKeepsSafe(stem: string)
    requires forall i :: 0 <= i < |stem| ==> IsSafeChar(stem[i])
    ensures SafeStem(stem) == stem
  {
    assert forall i :: 0 <= i < |stem| ==> stem[i] != ' ';
    SafeStemJoinsWords(stem);
    UnderscoresWithoutSpaces(stem);
  }

  /** Sanitising is idempotent. */
  lemma SafeStemIdempotent(stem: string)
    ensures SafeStem(SafeStem(stem)) == SafeStem(stem)
  {
    SafeStemKeepsSafe(SafeStem(stem));
  }

  /** `str.lower()` on ASCII letters; other characters are unchanged. */
  function Lower(s: string): (r: string)
    ensures |r| == |s|
    ensures forall i :: 0 <= i < |s| ==>
      r[i] == if 'A' <= s[i] <= 'Z' then (s[i] - 'A' + 'a') as char else s[i]
  {
    if s == [] then []
    else [if 'A' <= s[0] <= 'Z' then (s[0] - 'A' + 'a') as char else s[0]] + Lower(s[1..])
  }

  /** A name ending in ".pdf", in any mix of cases. */
  predicate EndsInPdfAnyCase(name: string) {
    && 4 <= |name|
    && name[|name| - 4] == '.'
    && name[|name| - 3] in "pP" && name[|name| - 2] in "dD" && name[|name| - 1] in "fF"
  }

  /** `source_pdf.suffix.lower() == ".pdf"`. It accepts exactly the names
      that end in ".pdf", in any mix of cases, after at least one other
      character; so "a.PDF" is accepted and ".pdf" (a hidden file with no
      suffix) is not. */
  predicate IsPdfName(name: string)
    ensures IsPdfName(name) <==> 5 <= |name| && EndsInPdfAnyCase(name)
  {
    PdfSuffixIff(name);
    Lower(Suffix(name)) == ".pdf"
  }

  lemma PdfNameEndsInPdf(name: string)
    requires Lower(Suffix(name)) == ".pdf"
    ensures 5 <= |name| && EndsInPdfAnyCase(name)
  {
    var s := Suffix(name);
    var i := LastIndex(name, '.');
    assert 0 < i < |name| - 1 && s == name[i..];
    assert |name| - i == 4;
    assert Lower(s)[1] == 'p' && Lower(s)[2] == 'd' && Lower(s)[3] == 'f';
  }

  lemma EndsInPdfIsPdfName(name: string)
    requires 5 <= |name| && EndsInPdfAnyCase(name)
    ensures Lower(Suffix(name)) == ".pdf"
  {
    var n := |name|;
    var tail := name[n - 4..];
    assert LastIndex(tail, '.') == 0;
    LastIndexAppend(name[..n - 4], tail, '.');
    assert name[..n - 4] + tail == name;
    assert Suffix(name) == tail;
    var low := Lower(tail);
    assert low[0] == '.' && low[1] == 'p' && low[2] == 'd' && low[3] == 'f';
    assert low == ".pdf";
  }

  lemma PdfSuffixIff(name: string)
    ensures Lower(Suffix(name)) == ".pdf" <==> 5 <= |name| && EndsInPdfAnyCase(name)
  {
    if Lower(Suffix(name)) == ".pdf" {
      PdfNameEndsInPdf(name);
    }
    if 5 <= |name| && EndsInPdfAnyCase(name) {
      EndsInPdfIsPdfName(name);
    }
  }

  /** `f"{safe_stem}__{suffix}.pdf"`, with `suffix` the first 8 hex digits
      of a version-4 UUID. The name holds no path separator. */
  function StoredFileName(stem: string, uuidHex: string): (r: string)
    requires IsUuid4Hex(uuidHex)
    ensures '/' !in r
  {
    NoSeparatorInParts(SafeStem(stem), uuidHex);
    SafeStem(stem) + ("__" + uuidHex[..8] + ".pdf")
  }

  lemma NoSeparatorInParts(safe: string, uuidHex: string)
    requires IsUuid4Hex(uuidHex)
    requires forall i :: 0 <= i < |safe| ==> IsSafeChar(safe[i])
    ensures '/' !in safe + ("__" + uuidHex[..8] + ".pdf")
  {
    var hex := uuidHex[..8];
    forall i | 0 <= i < |hex| ensures hex[i] != '/' {
      LowerHexAt(uuidHex, i);
    }
    var tail := "__" + hex + ".pdf";
    assert '/' !in tail;
    assert forall i :: 0 <= i < |safe| ==> safe[i] != '/';
    assert '/' !in safe;
  }

  /** The stored name splits into the stem `safe_stem + "__" + 8 hex digits`
      and the suffix ".pdf", and so matches the glob `*.pdf`. */
  lemma StoredFileNameSplit(stem: string, uuidHex: string)
    requires IsUuid4Hex(uuidHex)
    ensures var name := StoredFileName(stem, uuidHex);
      && Stem(name) == SafeStem(stem) + "__" + uuidHex[..8]
      && Suffix(name) == ".pdf"
      && 4 <= |name| && name[|name| - 4..] == ".pdf"
  {
    var front := SafeStem(stem) + "__" + uuidHex[..8];
    var name := front + ".pdf";
    assert StoredFileName(stem, uuidHex) == name;
    StemSuffixOfAppend(front, ".pdf");
  }

  /** A stored name would itself pass the suffix check of ingestion. */
  lemma StoredFileNameIsPdf(stem: string, uuidHex: string)
    requires IsUuid4Hex(uuidHex)
    ensures IsPdfName(StoredFileName(stem, uuidHex))
  {
    StoredFileNameSplit(stem, uuidHex);
    assert Lower(".pdf") == ".pdf";
  }

  /** `storage_dir / stored_filename`: a direct child of the storage
      directory whose name is the stored file name. */
  function StoredPath(storageDir: Path, sourceName: string, uuidHex: string): (p: Path)
    requires IsUuid4Hex(uuidHex)
    ensures Parent(p) == storageDir
    ensures Name(p) == StoredFileName(Stem(sourceName), uuidHex)
  {
    var name := StoredFileName(Stem(sourceName), uuidHex);
    Join(storageDir, name)
  }

  /** `storage_dir or (Path("data") / "documents")`. */
  function StorageDirOrDefault(storageDir: Option<Path>): (r: Path)
    ensures storageDir.Some? ==> r == storageDir.value
    ensures storageDir.None? ==> r == "data/documents"
  {
    storageDir.GetOr(Store.DefaultDocumentsDir)
  }

  // ---------------------------------------------------------------------
  // Hashing

  /** The size of one `read` in `sha256_file`: 1 MiB. */
  const ChunkSize: nat := 1024 * 1024

  function Concat(chunks: seq<Bytes>): Bytes {
    if chunks == [] then [] else Concat(chunks[..|chunks| - 1]) + chunks[|chunks| - 1]
  }

  /** `f.read(n)` on a regular file positioned at `pos`: the next bytes of
      the file, at most `n` of them, fewer only at the end of the file, and
      none only when `n` is 0 or the end is reached. */
  function ReadAt(content: Bytes, pos: nat, n: nat): (chunk: Bytes)
    requires pos <= |content|
    ensures |chunk| <= n && pos + |chunk| <= |content|
    ensures |chunk| == n || pos + |chunk| == |content|
    ensures 0 < n && pos < |content| ==> chunk != []
    ensures content[..pos] + chunk == content[..pos + |chunk|]
  {
    if pos + n < |content| then content[pos..pos + n] else content[pos..]
  }

  datatype IoError = OpenFailed(path: Path)

  /** `sha256_file`: reads the file in chunks of at most 1 MiB until the
      first empty read, folds every chunk through the hasher and returns the
      hex digest. The chunks read, in order, make up the whole file, so the
      result is the digest of the whole content. */
  method Sha256File(fs: Disk.FileSystem, path: Path, sha256: Bytes -> Digest)
    returns (r: Result<Digest, IoError>, ghost chunks: seq<Bytes>)
    ensures path !in fs.files ==> r == Err(OpenFailed(path))
    ensures path in fs.files ==> r == Ok(sha256(fs.files[path]))
    ensures path in fs.files ==> Concat(chunks) == fs.files[path]
    ensures forall i :: 0 <= i < |chunks| ==> 0 < |chunks[i]| <= ChunkSize
  {
    chunks := [];
    if path !in fs.files {
      return Err(OpenFailed(path)), chunks;
    }
    var content := fs.files[path];
    var absorbed: Bytes := [];  // everything passed to `update` so far
    var pos := 0;
    var chunk := ReadAt(content, pos, ChunkSize);
    while chunk != []
      invariant pos <= |content|
      invariant absorbed == content[..pos] == Concat(chunks)
      invariant chunk == ReadAt(content, pos, ChunkSize)
      invariant forall i :: 0 <= i < |chunks| ==> 0 < |chunks[i]| <= ChunkSize
      decreases |content| - pos
    {
      assert (chunks + [chunk])[..|chunks|] == chunks;
      assert content[..pos + |chunk|] == content[..pos] + chunk;
      absorbed := absorbed + chunk;
      chunks := chunks + [chunk];
      pos := pos + |chunk|;
      chunk := ReadAt(content, pos, ChunkSize);
    }
    assert content[..pos] == content;
    r := Ok(sha256(absorbed));
  }

  // ---------------------------------------------------------------------
  // Ingestion

  /** `FileNotFoundError` (missing or not a regular file) and `ValueError`
      (suffix other than ".pdf"). */
  datatype IngestError = SourceNotFound(path: Path) | NotPdf(path: Path)

  /** The `mkdir` and `copy2` of `ingest_pdf`: make the storage directory
      and copy the source into it under its stored name, replacing any file
      already there (no existence check is made). */
  method PlaceCopy(fs: Disk.FileSystem, source: Path, storage: Path, uuidHex: string)
    returns (dest: Path)
    requires fs.Valid() && source in fs.files && IsUuid4Hex(uuidHex)
    modifies fs
    ensures fs.Valid()
    ensures dest == StoredPath(storage, Name(source), uuidHex)
    ensures fs.files == old(fs.files)[dest := old(fs.files)[source]]
    ensures fs.dirs == old(fs.dirs) + Lineage(storage)
    ensures fs.undeletable == old(fs.undeletable)
  {
    fs.MakeDirs(storage);
    dest := StoredPath(storage, Name(source), uuidHex);
    fs.Copy(source, dest);
  }

  /** The `sha256_file` call and the `INSERT` of `ingest_pdf`, once the
      copy is in place and the schema exists: hash the stored copy and
      insert its row. */
  method RecordCopy(fs: Disk.FileSystem, db: Store.Database, originalName: string, dest: Path,
                    category: Option<string>, tags: Option<string>, docDate: Option<string>,
                    now: string, sha256: Bytes -> Digest)
    returns (id: nat)
    requires db.Valid() && db.documentsTable && dest in fs.files
    modifies db
    ensures db.Valid()
    ensures id == old(db.nextId)
    ensures db.State() == Tables.InsertDocument(old(db.State()),
              DocumentFields(originalName, dest, Some(sha256(fs.files[dest])),
                             category, tags, docDate, now)).value
  {
    ghost var chunks;
    var digest;
    digest, chunks := Sha256File(fs, dest, sha256);
    var row := DocumentFields(originalName, dest, Some(digest.value), category, tags, docDate, now);
    var inserted := db.InsertDocument(row);
    id := inserted.value;
  }

  /** The `mkdir`, `copy2`, `sha256_file` and `INSERT` of `ingest_pdf`,
      once the schema exists: the storage directory exists, the stored copy
      holds exactly the source bytes (replacing any file already at that
      path), and exactly one row is appended whose digest is that of the
      stored copy; its id is returned. */
  method CopyAndRecord(fs: Disk.FileSystem, db: Store.Database, source: Path, storage: Path,
                       category: Option<string>, tags: Option<string>, docDate: Option<string>,
                       uuidHex: string, now: string, sha256: Bytes -> Digest)
    returns (id: nat)
    requires fs.Valid() && db.Valid() && db.documentsTable && IsUuid4Hex(uuidHex) && source in fs.files
    modifies fs, db
    ensures fs.Valid() && db.Valid()
    ensures fs.files == old(fs.files)[StoredPath(storage, Name(source), uuidHex) := old(fs.files)[source]]
    ensures fs.dirs == old(fs.dirs) + Lineage(storage)
    ensures fs.undeletable == old(fs.undeletable)
    ensures id == old(db.nextId)
    ensures db.State() == Tables.InsertDocument(old(db.State()),
              DocumentFields(Name(source), StoredPath(storage, Name(source), uuidHex),
                             Some(sha256(old(fs.files)[source])), category, tags, docDate, now)).value
  {
    var dest := PlaceCopy(fs, source, storage, uuidHex);
    id := RecordCopy(fs, db, Name(source), dest, category, tags, docDate, now, sha256);
  }

  /** `ingest_pdf`. On a missing source or a non-PDF suffix nothing changes;
      otherwise the schema is set up and the source is stored and recorded
      as `CopyAndRecord` states, in the given storage directory or
      `data/documents`. */
  method IngestPdf(fs: Disk.FileSystem, db: Store.Database, source: Path,
                   dbPath: Option<Path>, storageDir: Option<Path>,
                   category: Option<string>, tags: Option<string>, docDate: Option<string>,
                   uuidHex: string, now: string, sha256: Bytes -> Digest)
    returns (r: Result<nat, IngestError>)
    requires fs.Valid() && db.Valid() && IsUuid4Hex(uuidHex)
    modifies fs, db
    ensures fs.Valid() && db.Valid()
    ensures source !in old(fs.files) ==>
      r == Err(SourceNotFound(source)) && unchanged(fs) && unchanged(db)
    ensures source in old(fs.files) && !IsPdfName(Name(source)) ==>
      r == Err(NotPdf(source)) && unchanged(fs) && unchanged(db)
    ensures source in old(fs.files) && IsPdfName(Name(source)) ==>
      var storage := StorageDirOrDefault(storageDir);
      var dest := StoredPath(storage, Name(source), uuidHex);
      var row := DocumentFields(Name(source), dest, Some(sha256(old(fs.files)[source])),
                                category, tags, docDate, now);
      && fs.files == old(fs.files)[dest := old(fs.files)[source]]
      && fs.dirs == old(fs.dirs) + Lineage(Parent(Store.DbPathOrDefault(dbPath))) + Lineage(storage)
      && fs.undeletable == old(fs.undeletable)
      && r == Ok(old(db.nextId))
      && db.State() == Tables.InsertDocument(InitSchema(old(db.State())), row).value
  {
    if source !in fs.files {
      return Err(SourceNotFound(source));
    }
    if !IsPdfName(Name(source)) {
      return Err(NotPdf(source));
    }
    var usedDb := Store.InitDb(fs, db, dbPath);
    var id := CopyAndRecord(fs, db, source, StorageDirOrDefault(storageDir),
                            category, tags, docDate, uuidHex, now, sha256);
    r := Ok(id);
  }
}
