/** The read side and the one storage decision of the web front end
    (`src/perdocman_server.py`): escaping text for HTML, listing the newest
    documents, counting them, and choosing where an upload is stored. */
module Server {
  import opened Common
  import opened Paths
  import opened Tables
  import Store
  import Ingest
  import Reset
  import Config

  // ---------------------------------------------------------------------
  // HTML escaping

  /** `str.replace(c, rep)` for a one-character pattern: every occurrence
      of `c` is replaced, left to right, and nothing else changes. */
  function ReplaceChar(s: string, c: char, rep: string): (r: string)
    ensures c !in s ==> r == s
    ensures c !in rep ==> c !in r
    ensures forall d :: d in r ==> (d in s && d != c) || d in rep
  {
    if s == [] then [] else (if s[0] == c then rep else [s[0]]) + ReplaceChar(s[1..], c, rep)
  }

  lemma {:induction false} ReplaceCharAppend(a: string, b: string, c: char, rep: string)
    ensures ReplaceChar(a + b, c, rep) == ReplaceChar(a, c, rep) + ReplaceChar(b, c, rep)
  {
    if a == [] {
      assert a + b == b;
    } else {
      assert (a + b)[0] == a[0] && (a + b)[1..] == a[1..] + b;
      ReplaceCharAppend(a[1..], b, c, rep);
    }
  }

  /** The chain of `replace` calls of `_html_escape`, `&` first. None of
      the three markup characters survives it. */
  function EscapeText(text: string): (r: string)
    ensures '<' !in r && '>' !in r && '"' !in r
  {
    ReplaceChar(ReplaceChar(ReplaceChar(ReplaceChar(text, '&', "&amp;"), '<', "&lt;"), '>', "&gt;"), '"', "&quot;")
  }

  /** The characters HTML escaping rewrites. */
  predicate IsSpecial(c: char) {
    c == '&' || c == '<' || c == '>' || c == '"'
  }

  /** The text that stands for one character in escaped output. */
  function Entity(c: char): string {
    if c == '&' then "&amp;"
    else if c == '<' then "&lt;"
    else if c == '>' then "&gt;"
    else if c == '"' then "&quot;"
    else [c]
  }

  /** Escaping character by character: the reference the `replace` chain is
      measured against. */
  function EscapeChars(s: string): (r: string)
    ensures '<' !in r && '>' !in r && '"' !in r
    ensures (forall i :: 0 <= i < |s| ==> !IsSpecial(s[i])) ==> r == s
  {
    if s == [] then [] else Entity(s[0]) + EscapeChars(s[1..])
  }

  lemma EscapeTextAppend(a: string, b: string)
    ensures EscapeText(a + b) == EscapeText(a) + EscapeText(b)
  {
    ReplaceCharAppend(a, b, '&', "&amp;");
    var a1, b1 := ReplaceChar(a, '&', "&amp;"), ReplaceChar(b, '&', "&amp;");
    ReplaceCharAppend(a1, b1, '<', "&lt;");
    var a2, b2 := ReplaceChar(a1, '<', "&lt;"), ReplaceChar(b1, '<', "&lt;");
    ReplaceCharAppend(a2, b2, '>', "&gt;");
    var a3, b3 := ReplaceChar(a2, '>', "&gt;"), ReplaceChar(b2, '>', "&gt;");
    ReplaceCharAppend(a3, b3, '"', "&quot;");
  }

  lemma ReplaceCharOne(x: char, c: char, rep: string)
    ensures ReplaceChar([x], c, rep) == if x == c then rep else [x]
  {
    assert [x][1..] == [];
  }

  lemma EscapeTextOneChar(c: char)
    ensures EscapeText([c]) == Entity(c)
  {
    ReplaceCharOne(c, '&', "&amp;");
    ReplaceCharOne(c, '<', "&lt;");
    ReplaceCharOne(c, '>', "&gt;");
    ReplaceCharOne(c, '"', "&quot;");
    assert '<' !in "&amp;" && '>' !in "&amp;" && '"' !in "&amp;";
    assert '>' !in "&lt;" && '"' !in "&lt;" && '"' !in "&gt;";
  }

  /** Because `&` is replaced first, no entity introduced by the chain is
      escaped a second time: the chain escapes each character on its own. */
  lemma {:induction false} EscapeTextIsPerChar(s: string)
    ensures EscapeText(s) == EscapeChars(s)
  {
    if s != [] {
      assert s == [s[0]] + s[1..];
      EscapeTextAppend([s[0]], s[1..]);
      EscapeTextOneChar(s[0]);
      EscapeTextIsPerChar(s[1..]);
    }
  }

  /** `_html_escape`: None becomes the empty string, any other value is
      escaped. The output holds no `<`, `>` or `"`, and text without special
      characters is returned as it is. */
  function HtmlEscape(value: Option<string>): (r: string)
    ensures value.None? ==> r == ""
    ensures '<' !in r && '>' !in r && '"' !in r
    ensures value.Some? && (forall i :: 0 <= i < |value.value| ==> !IsSpecial(value.value[i])) ==>
              r == value.value
  {
    var text := if value.None? then "" else value.value;
    EscapeTextIsPerChar(text);
    EscapeText(text)
  }

  /** `w` occurs in `t` at position `i`. */
  predicate OccursAt(t: string, i: nat, w: string) {
    i + |w| <= |t| && t[i..i + |w|] == w
  }

  /** An entity starts at position `i` of `t`. */
  predicate EntityAt(t: string, i: nat) {
    OccursAt(t, i, "&amp;") || OccursAt(t, i, "&lt;") || OccursAt(t, i, "&gt;") || OccursAt(t, i, "&quot;")
  }

  lemma OccursAtShift(p: string, t: string, j: nat, w: string)
    requires OccursAt(t, j, w)
    ensures OccursAt(p + t, |p| + j, w)
  {
    assert (p + t)[|p| + j..|p| + j + |w|] == t[j..j + |w|];
  }

  lemma EntityAtShift(p: string, t: string, j: nat)
    requires EntityAt(t, j)
    ensures EntityAt(p + t, |p| + j)
  {
    if OccursAt(t, j, "&amp;") {
      OccursAtShift(p, t, j, "&amp;");
    } else if OccursAt(t, j, "&lt;") {
      OccursAtShift(p, t, j, "&lt;");
    } else if OccursAt(t, j, "&gt;") {
      OccursAtShift(p, t, j, "&gt;");
    } else {
      OccursAtShift(p, t, j, "&quot;");
    }
  }

  /** Every `&` of `r` begins an entity. */
  predicate AmpersandsAreEntities(r: string) {
    forall i :: 0 <= i < |r| && r[i] == '&' ==> EntityAt(r, i)
  }

  lemma EntityAtStart(c: char, t: string)
    requires IsSpecial(c)
    ensures EntityAt(Entity(c) + t, 0)
  {
    var e := Entity(c);
    assert (e + t)[..|e|] == e;
  }

  /** The only `&` characters of escaped output are those that begin an
      entity. */
  lemma {:induction false} AmpersandsBeginEntities(s: string)
    ensures AmpersandsAreEntities(EscapeChars(s))
  {
    if s != [] {
      var e, rest := Entity(s[0]), EscapeChars(s[1..]);
      var r := EscapeChars(s);
      assert r == e + rest;
      AmpersandsBeginEntities(s[1..]);
      assert AmpersandsAreEntities(rest);
      forall j | 0 <= j < |rest| && rest[j] == '&' ensures EntityAt(r, |e| + j) {
        assert EntityAt(rest, j);
        EntityAtShift(e, rest, j);
      }
      if IsSpecial(s[0]) {
        EntityAtStart(s[0], rest);
      }
      assert forall i :: |e| <= i < |r| ==> r[i] == rest[i - |e|];
      assert forall i :: 0 < i < |e| ==> e[i] != '&';
    }
  }

  /** Reading entities back: the inverse of escaping. */
  function Unescape(t: string): string
    decreases |t|
  {
    if t == [] then []
    else if 5 <= |t| && t[..5] == "&amp;" then "&" + Unescape(t[5..])
    else if 4 <= |t| && t[..4] == "&lt;" then "<" + Unescape(t[4..])
    else if 4 <= |t| && t[..4] == "&gt;" then ">" + Unescape(t[4..])
    else if 6 <= |t| && t[..6] == "&quot;" then "\"" + Unescape(t[6..])
    else [t[0]] + Unescape(t[1..])
  }

  lemma UnescapeEntity(c: char, rest: string)
    ensures Unescape(Entity(c) + rest) == [c] + Unescape(rest)
  {
    var e := Entity(c);
    var t := e + rest;
    assert t[..|e|] == e && t[|e|..] == rest;
    assert t[0] == e[0];
    if IsSpecial(c) {
      assert t[1] == e[1];
    }
    assert 4 <= |t| ==> t[..4][0] == t[0] && t[..4][1] == t[1];
    assert 5 <= |t| ==> t[..5][0] == t[0] && t[..5][1] == t[1];
    assert 6 <= |t| ==> t[..6][0] == t[0] && t[..6][1] == t[1];
  }

  lemma {:induction false} UnescapeEscapeChars(s: string)
    ensures Unescape(EscapeChars(s)) == s
  {
    if s != [] {
      UnescapeEntity(s[0], EscapeChars(s[1..]));
      UnescapeEscapeChars(s[1..]);
      assert [s[0]] + s[1..] == s;
    }
  }

  /** Escaping loses nothing: unescaping the output gives the text back, so
      two different texts never escape to the same output. */
  lemma HtmlEscapeRoundTrip(s: string, t: string)
    ensures Unescape(HtmlEscape(Some(s))) == s
    ensures HtmlEscape(Some(s)) == HtmlEscape(Some(t)) ==> s == t
  {
    EscapeTextIsPerChar(s);
    EscapeTextIsPerChar(t);
    UnescapeEscapeChars(s);
    UnescapeEscapeChars(t);
  }

  /** Every `&` of the output of `_html_escape` begins an entity. */
  lemma HtmlEscapeAmpersands(value: Option<string>)
    ensures AmpersandsAreEntities(HtmlEscape(value))
  {
    var text := if value.None? then "" else value.value;
    EscapeTextIsPerChar(text);
    AmpersandsBeginEntities(text);
  }

  // ---------------------------------------------------------------------
  // Queries

  /** How many rows `LIMIT limit` lets through out of `n`; a negative limit
      means no limit. */
  function RowsReturned(n: nat, limit: int): (k: nat)
    ensures k <= n
    ensures limit >= 0 ==> k <= limit
    ensures k < n ==> k == limit
  {
    if limit < 0 || limit > n then n else limit
  }

  /** `list_documents`: `SELECT ... FROM documents ORDER BY id DESC LIMIT ?`.
      The i-th row returned is the i-th most recently inserted one. */
  function ListDocuments(db: Db, limit: int): (r: Result<seq<Document>, StoreError>)
    ensures r.Err? <==> !db.documentsTable
    ensures r.Err? ==> r.error == OperationalError
    ensures r.Ok? ==>
      && |r.value| == RowsReturned(|db.documents|, limit)
      && forall i :: 0 <= i < |r.value| ==> r.value[i] == db.documents[|db.documents| - 1 - i]
  {
    if !db.documentsTable then Err(OperationalError)
    else
      var n := RowsReturned(|db.documents|, limit);
      Ok(seq(n, i requires 0 <= i < n => db.documents[|db.documents| - 1 - i]))
  }

  /** In a consistent store the listing holds at most `limit` rows, only
      rows of the table, newest first with strictly decreasing ids. */
  lemma ListingIsNewestFirst(db: Db, limit: int)
    requires Valid(db) && db.documentsTable
    ensures var rows := ListDocuments(db, limit).value;
      && (limit >= 0 ==> |rows| <= limit)
      && (forall d :: d in rows ==> d in db.documents)
      && (forall i, j :: 0 <= i < j < |rows| ==> rows[i].id > rows[j].id)
  {
    var docs := db.documents;
    var rows := ListDocuments(db, limit).value;
    var n := |docs|;
    forall i, j | 0 <= i < j < |rows| ensures rows[i].id > rows[j].id {
      assert rows[i] == docs[n - 1 - i] && rows[j] == docs[n - 1 - j];
    }
  }

  /** The listing keeps the rows with the largest ids: every row it leaves
      out has a smaller id than every row it returns. */
  lemma ListingKeepsLargestIds(db: Db, limit: int)
    requires Valid(db) && db.documentsTable
    ensures var rows := ListDocuments(db, limit).value;
      forall d, x :: d in db.documents && d !in rows && x in rows ==> d.id < x.id
  {
    var docs := db.documents;
    var rows := ListDocuments(db, limit).value;
    var n := |docs|;
    forall d, x | d in docs && d !in rows && x in rows ensures d.id < x.id {
      var k :| 0 <= k < n && docs[k] == d;
      var i :| 0 <= i < |rows| && rows[i] == x;
      ListedIndex(db, limit, k);
      assert x == docs[n - 1 - i];
    }
  }

  lemma ListedIndex(db: Db, limit: int, k: nat)
    requires db.documentsTable && k < |db.documents|
    ensures var rows := ListDocuments(db, limit).value;
      k >= |db.documents| - |rows| ==> db.documents[k] == rows[|db.documents| - 1 - k]
  {
  }

  /** `get_doc_count`: `SELECT COUNT(*) FROM documents`. */
  function DocCount(db: Db): (r: Result<nat, StoreError>)
    ensures r.Err? <==> !db.documentsTable
  {
    if !db.documentsTable then Err(OperationalError) else Ok(|db.documents|)
  }

  /** The count is the number of rows an unlimited listing returns, it goes
      up by one with each ingestion and is zero after the tables are
      emptied; setting up the schema and the session statements never change
      it. */
  lemma DocCountAgrees(db: Db, f: DocumentFields, sessionId: string, now: string)
    requires db.documentsTable
    ensures DocCount(db).Ok?
    ensures DocCount(db).value == |ListDocuments(db, -1).value|
    ensures DocCount(Tables.InsertDocument(db, f).value) == Ok(DocCount(db).value + 1)
    ensures db.sessionsTable ==> DocCount(DeleteAllRows(db).value) == Ok(0)
    ensures DocCount(InitSchema(db)) == DocCount(db)
    ensures db.sessionsTable ==> DocCount(EndSession(db, sessionId, now).value) == DocCount(db)
  {
  }

  // ---------------------------------------------------------------------
  // Storage directory of an upload

  /** The storage directory `handle_ingest` passes on: `vault_root / "documents"` when a vault
      root is configured (a `Path` is never falsy), `data/documents`
      otherwise. */
  function UploadStorageDir(vaultRoot: Option<Path>): (r: Path)
    ensures vaultRoot.Some? ==> Parent(r) == vaultRoot.value && Name(r) == "documents"
    ensures vaultRoot.None? ==> r == "data/documents"
  {
    match vaultRoot
    case Some(v) => Join(v, "documents")
    case None => Store.DefaultDocumentsDir
  }

  /** With a vault root the upload directory is the one the layout of the
      vault names; without one it is the default of `ingest_pdf`. */
  lemma UploadStorageDirMatches(vaultRoot: Option<Path>, env: map<string, string>)
    ensures vaultRoot.Some? ==>
      UploadStorageDir(vaultRoot) == Config.BuildPaths(vaultRoot, env).documentsDir
    ensures vaultRoot.None? ==>
      UploadStorageDir(vaultRoot) == Ingest.StorageDirOrDefault(None)
  {
    if vaultRoot.Some? {
      var v := vaultRoot.value;
      var p := Config.BuildPaths(vaultRoot, env);
      assert Parent(p.documentsDir) == v && Name(p.documentsDir) == "documents";
      assert UploadStorageDir(vaultRoot) == Join(v, "documents");
    }
  }

  lemma UploadDirIsSweptDirIff(vaultRoot: Option<Path>)
    ensures UploadStorageDir(vaultRoot) == Reset.SweptDir <==> vaultRoot.GetOr("data") == "data"
  {
    assert Parent(Reset.SweptDir) == "data";
  }

  /** A reset sweeps an uploaded file only when uploads go to
      `data/documents`: with a vault root whose path string differs from
      "data", uploaded files are not sweep targets. (Paths are compared as
      strings; another spelling of the same directory, such as its absolute
      path, is not recognised.) */
  lemma UploadSweptIffDataRoot(vaultRoot: Option<Path>, sourceName: string, uuidHex: string)
    requires IsUuid4Hex(uuidHex)
    ensures var dest := Ingest.StoredPath(UploadStorageDir(vaultRoot), sourceName, uuidHex);
      Reset.IsSweepTarget(dest, Reset.SweptDir) <==> vaultRoot.GetOr("data") == "data"
  {
    var dir := UploadStorageDir(vaultRoot);
    var dest := Ingest.StoredPath(dir, sourceName, uuidHex);
    Ingest.StoredFileNameSplit(Stem(sourceName), uuidHex);
    assert Parent(dest) == dir && Reset.MatchesPdfGlob(Name(dest));
    UploadDirIsSweptDirIff(vaultRoot);
  }
}
