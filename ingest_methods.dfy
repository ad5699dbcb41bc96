/**
 * `insertPaperResult`, `getNextReferenceNumber` and `processPapers` as they
 * run against the store: one loop per nesting level of the extraction and
 * one over the files, each proved to do what the functions of
 * `PaperRecord` and `PaperProcessing` say.
 */
module PaperIngestion {
  import opened Wrappers
  import opened Schema
  import opened Statements
  import opened IngestStatements
  import opened Database
  import R = PaperRecord
  import P = PaperProcessing

  /** Find a theme or subtheme by name, or create it. */
  method FindOrCreate(db: Store, table: EntityTable, name: Option<string>, description: Option<string>)
    returns (id: Id, err: Option<SqlError>)
    requires db.Consistent()
    modifies db
    ensures match R.FindOrCreateEntity(old(db.State()), table, name, description)
            case Inserted(t, i) => err == None && id == i && db.State() == t
            case Refused(e) => err == Some(e) && db.State() == old(db.State())
  {
    var found := db.SelectEntityId(table, name);
    if found.Some? {
      id, err := found.value, None;
    } else {
      id, err := db.InsertEntity(table, name, description);
    }
  }

  /** Find a code by name, or create it. */
  method FindOrCreateCode(db: Store, name: Option<string>) returns (id: Id, err: Option<SqlError>)
    requires db.Consistent()
    modifies db
    ensures match R.FindOrCreateCode(old(db.State()), name)
            case Inserted(t, i) => err == None && id == i && db.State() == t
            case Refused(e) => err == Some(e) && db.State() == old(db.State())
  {
    var found := db.SelectCodeId(name);
    if found.Some? {
      id, err := found.value, None;
    } else {
      id, err := db.InsertCode(name);
    }
  }

  /** One code entry of subtheme `st` of paper `p`. */
  method InsertCode(db: Store, p: Id, st: Id, c: R.CodeEntry) returns (err: Option<SqlError>)
    requires db.Consistent()
    modifies db
    ensures R.Written(db.State(), err) == R.InsertCode(old(db.State()), p, st, c)
  {
    var id, e := FindOrCreateCode(db, R.CodeName(c));
    if e.Some? {
      return e;
    }
    if (p, id, st) in db.articleCodes {
      err := None;
    } else {
      err := db.InsertArticleCode(p, id, st, R.CodeQuote(c));
    }
  }

  /** `for (const codeObj of subtheme.codes)`, stopping at the first statement that throws. */
  method InsertCodes(db: Store, p: Id, st: Id, codes: seq<R.CodeEntry>) returns (err: Option<SqlError>)
    requires db.Consistent() && p in db.researchResults && st in db.subthemes
    modifies db
    ensures R.Written(db.State(), err) == R.InsertCodes(old(db.State()), p, st, codes)
  {
    ghost var whole := R.InsertCodes(db.State(), p, st, codes);
    err := None;
    var i := 0;
    assert codes[0..] == codes;
    while i < |codes|
      invariant 0 <= i <= |codes|
      invariant db.Consistent() && p in db.researchResults && st in db.subthemes
      invariant whole == R.InsertCodes(db.State(), p, st, codes[i..])
      invariant err == None
    {
      assert codes[i..][1..] == codes[i + 1..];
      ghost var before := db.State();
      ghost var id := R.InsertCodeValid(before, p, st, codes[i]);
      err := InsertCode(db, p, st, codes[i]);
      if err.Some? {
        return;
      }
      i := i + 1;
    }
    assert codes[i..] == [];
  }

  /** One subtheme of theme `th`: find or create it, link it to the theme and the paper, then its codes. */
  method InsertSubtheme(db: Store, p: Id, th: Id, s: R.SubthemeEntry) returns (err: Option<SqlError>)
    requires db.Consistent() && p in db.researchResults && th in db.themes
    modifies db
    ensures R.Written(db.State(), err) == R.InsertSubtheme(old(db.State()), p, th, s)
  {
    ghost var t := db.State();
    R.FindOrCreateEntityValid(t, SubthemesTable, s.name, s.description);
    var st, e := FindOrCreate(db, SubthemesTable, s.name, s.description);
    if e.Some? {
      return e;
    }
    // Both keys exist and the row is absent, so neither link insert can fail.
    R.LinkSubthemeValid(db.State(), p, th, st);
    if (th, st) !in db.themeSubthemes {
      err := db.InsertThemeSubtheme(th, st);
    }
    if (p, st) !in db.articleSubthemes {
      err := db.InsertArticleSubtheme(p, st);
    }
    err := InsertCodes(db, p, st, s.codes);
  }

  /** `for (const subtheme of theme.subthemes)`, stopping at the first statement that throws. */
  method InsertSubthemes(db: Store, p: Id, th: Id, subthemes: seq<R.SubthemeEntry>) returns (err: Option<SqlError>)
    requires db.Consistent() && p in db.researchResults && th in db.themes
    modifies db
    ensures R.Written(db.State(), err) == R.InsertSubthemes(old(db.State()), p, th, subthemes)
  {
    ghost var whole := R.InsertSubthemes(db.State(), p, th, subthemes);
    err := None;
    var i := 0;
    assert subthemes[0..] == subthemes;
    while i < |subthemes|
      invariant 0 <= i <= |subthemes|
      invariant db.Consistent() && p in db.researchResults && th in db.themes
      invariant whole == R.InsertSubthemes(db.State(), p, th, subthemes[i..])
      invariant err == None
    {
      assert subthemes[i..][1..] == subthemes[i + 1..];
      R.InsertSubthemeValid(db.State(), p, th, subthemes[i]);
      err := InsertSubtheme(db, p, th, subthemes[i]);
      if err.Some? {
        return;
      }
      i := i + 1;
    }
    assert subthemes[i..] == [];
  }

  /** One theme: find or create it, then its subthemes. */
  method InsertTheme(db: Store, p: Id, e: R.ThemeEntry) returns (err: Option<SqlError>)
    requires db.Consistent() && p in db.researchResults
    modifies db
    ensures R.Written(db.State(), err) == R.InsertTheme(old(db.State()), p, e)
  {
    R.FindOrCreateEntityValid(db.State(), ThemesTable, e.name, e.description);
    var th, failure := FindOrCreate(db, ThemesTable, e.name, e.description);
    if failure.Some? {
      return failure;
    }
    err := InsertSubthemes(db, p, th, e.subthemes);
  }

  /** `for (const theme of themes)`, stopping at the first statement that throws. */
  method InsertThemes(db: Store, p: Id, themes: seq<R.ThemeEntry>) returns (err: Option<SqlError>)
    requires db.Consistent() && p in db.researchResults
    modifies db
    ensures R.Written(db.State(), err) == R.InsertThemes(old(db.State()), p, themes)
  {
    ghost var whole := R.InsertThemes(db.State(), p, themes);
    err := None;
    var i := 0;
    assert themes[0..] == themes;
    while i < |themes|
      invariant 0 <= i <= |themes|
      invariant db.Consistent() && p in db.researchResults
      invariant whole == R.InsertThemes(db.State(), p, themes[i..])
      invariant err == None
    {
      assert themes[i..][1..] == themes[i + 1..];
      R.InsertThemeValid(db.State(), p, themes[i]);
      err := InsertTheme(db, p, themes[i]);
      if err.Some? {
        return;
      }
      i := i + 1;
    }
    assert themes[i..] == [];
  }

  /** `insertPaperResult`: nothing for a stored title, else the paper row and then its themes. */
  method InsertPaperResult(db: Store, x: R.Extraction) returns (err: Option<SqlError>)
    requires db.Consistent()
    modifies db
    ensures R.Written(db.State(), err) == R.InsertPaperResult(old(db.State()), x)
    ensures db.Consistent()
  {
    R.InsertPaperResultValid(db.State(), x);
    var stored := db.SelectPaperByTitle(x.title);
    if stored {
      return None;
    }
    if x.title.None? {
      return Some(NotNullViolation);
    }
    ghost var t := db.State();
    var p, e := db.InsertPaper(R.PaperOf(x));
    if e.Some? {
      return e;
    }
    InsertPaperRowValid(t, R.PaperOf(x));
    err := None;
    if x.themes.Some? {
      err := InsertThemes(db, p, x.themes.value);
    }
  }

  /** `getNextReferenceNumber`. */
  method GetNextReferenceNumber(db: Store) returns (n: int)
    ensures n == P.NextReference(MaxReferenceNumber(db.State()))
    ensures n !in RefSet(db.State())
  {
    var max := db.SelectMaxReference();
    n := if max.Some? && max.value != 0 then max.value + 1 else 1;
    P.NextReferenceIsFresh(db.State());
  }

  /** The body of the per-file loop of `processPapers`: whether the file counted as a success. */
  method HandleFile(db: Store, f: P.PaperFile, analyst: P.Analyst) returns (saved: bool)
    requires db.Consistent()
    modifies db
    ensures P.FileOutcome(db.State(), saved) == P.HandleFile(old(db.State()), f, analyst)
    ensures db.Consistent()
  {
    if !f.input.Parsed? {
      return false;
    }
    var next := GetNextReferenceNumber(db);
    var reply := analyst(P.PaperRequest(f.name, next, f.input.text));
    var accepted := P.Accepted(reply);
    if accepted.None? {
      return false;
    }
    var err := InsertPaperResult(db, P.Corrected(accepted.value, next));
    saved := err.None?;
  }

  /** The per-file loop of `processPapers` with its three counters. */
  method ProcessFiles(db: Store, files: seq<P.PaperFile>, analyst: P.Analyst)
    returns (processed: nat, success: nat, errors: nat)
    requires db.Consistent()
    modifies db
    ensures P.ProcessFiles(old(db.State()), files, analyst) == P.Tally(db.State(), processed, success, errors)
    ensures db.Consistent()
  {
    ghost var whole := P.ProcessFiles(db.State(), files, analyst);
    processed, success, errors := 0, 0, 0;
    assert files[0..] == files;
    for i := 0 to |files|
      invariant db.Consistent()
      invariant var rest := P.ProcessFiles(db.State(), files[i..], analyst);
        whole == P.Tally(rest.tables, processed + rest.processed, success + rest.success, errors + rest.errors)
    {
      assert files[i..][1..] == files[i + 1..];
      ghost var before := db.State();
      processed := processed + 1;
      var saved := HandleFile(db, files[i], analyst);
      ghost var rest := P.ProcessFiles(db.State(), files[i + 1..], analyst);
      assert P.ProcessFiles(before, files[i..], analyst) ==
        P.Tally(rest.tables, rest.processed + 1, rest.success + (if saved then 1 else 0), rest.errors + (if saved then 0 else 1));
      if saved {
        success := success + 1;
      } else {
        errors := errors + 1;
      }
    }
    assert files[|files|..] == [];
  }

  /** `processPapers`: nothing when the directory could not be listed, else its PDF files with the counters. */
  method ProcessPapers(db: Store, listing: Option<seq<P.PaperFile>>, analyst: P.Analyst)
    returns (counts: Option<(nat, nat, nat)>)
    requires db.Consistent()
    modifies db
    ensures match P.ProcessPapers(old(db.State()), listing, analyst)
            case None => counts.None? && db.State() == old(db.State())
            case Some(r) => counts == Some((r.processed, r.success, r.errors)) && db.State() == r.tables
    ensures db.Consistent()
  {
    if listing.None? {
      return None;
    }
    var processed, success, errors := ProcessFiles(db, P.PdfFiles(listing.value), analyst);
    counts := Some((processed, success, errors));
  }
}
