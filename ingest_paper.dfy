/**
 * `insertPaperResult`: what recording one extracted paper does to the
 * tables. The paper row is inserted unless its title is already stored;
 * then every theme, subtheme and code is found by name or created, and the
 * link rows are inserted when absent. No transaction surrounds the
 * statements, so a failing statement leaves the earlier writes in place and
 * stops the rest.
 */
module PaperRecord {
  import opened Wrappers
  import opened Schema
  import opened Statements
  import opened IngestStatements

  /** An entry of a subtheme's `codes`: a bare string (older format) or an object with a name and a quote. */
  datatype CodeEntry = Bare(code: string) | Tagged(name: Option<string>, quote: Option<string>)

  /** The code name the entry is stored under. */
  function CodeName(c: CodeEntry): Option<string> {
    match c
    case Bare(s) => Some(s)
    case Tagged(n, _) => n
  }

  /** The evidence quote stored with the entry: none for a bare string. */
  function CodeQuote(c: CodeEntry): Option<string> {
    match c
    case Bare(_) => None
    case Tagged(_, q) => q
  }

  /** A subtheme of the extraction; an absent `codes` array is the empty one. */
  datatype SubthemeEntry = SubthemeEntry(name: Option<string>, description: Option<string>, codes: seq<CodeEntry>)

  /** A theme of the extraction; an absent `subthemes` array is the empty one. */
  datatype ThemeEntry = ThemeEntry(name: Option<string>, description: Option<string>, subthemes: seq<SubthemeEntry>)

  /** The arguments of an `insert_paper` call (`summary` is the `abstract` field). */
  datatype Extraction = Extraction(
    title: Option<string>,
    authors: Option<string>,
    year: Option<string>,
    doi: Option<string>,
    summary: Option<string>,
    keyFindings: Option<string>,
    methodology: Option<string>,
    referenceNumber: Option<int>,
    themes: Option<seq<ThemeEntry>>)

  /** The `research_results` row an extraction with a title is stored as. */
  function PaperOf(x: Extraction): Paper
    requires x.title.Some?
  {
    Paper(x.title.value, x.authors, x.year, x.doi, x.summary, x.keyFindings, x.methodology, x.referenceNumber)
  }

  /** The tables after a run of statements, and the error that stopped it, if one did. */
  datatype Written = Written(tables: Tables, failure: Option<SqlError>)

  /** An autocommitted statement: it takes effect, or it fails and changes nothing. */
  function Committed(t: Tables, o: Outcome): Written {
    match o
    case Done(t2) => Written(t2, None)
    case Failed(e) => Written(t, Some(e))
  }

  /** `SELECT id FROM <table> WHERE name = $1`, then the INSERT when no row came back. */
  ghost function FindOrCreateEntity(t: Tables, table: EntityTable, name: Option<string>, description: Option<string>): Inserted {
    match FindEntityId(EntitiesOf(t, table), name)
    case Some(id) => Inserted(t, id)
    case None => InsertEntityRow(t, table, name, description)
  }

  /** The same find-or-create on `codes`. */
  ghost function FindOrCreateCode(t: Tables, name: Option<string>): Inserted {
    match FindCodeId(t.codes, name)
    case Some(id) => Inserted(t, id)
    case None => InsertCodeRow(t, name)
  }

  /** `theme_subthemes` row inserted unless the `SELECT 1` found it. */
  function LinkThemeSubtheme(t: Tables, th: Id, st: Id): Written {
    if (th, st) in t.themeSubthemes then Written(t, None) else Committed(t, InsertThemeSubthemeRow(t, th, st))
  }

  /** `article_subthemes` row inserted unless the `SELECT 1` found it. */
  function LinkArticleSubtheme(t: Tables, p: Id, st: Id): Written {
    if (p, st) in t.articleSubthemes then Written(t, None) else Committed(t, InsertArticleSubthemeRow(t, p, st))
  }

  /** `article_codes` row inserted unless the `SELECT 1` found it: an existing row keeps its quote. */
  function LinkArticleCode(t: Tables, p: Id, c: Id, st: Id, quote: Option<string>): Written {
    if (p, c, st) in t.articleCodes then Written(t, None) else Committed(t, InsertArticleCodeRow(t, p, c, st, quote))
  }

  /** One code of subtheme `st` of paper `p`. */
  ghost function InsertCode(t: Tables, p: Id, st: Id, c: CodeEntry): Written {
    var r := FindOrCreateCode(t, CodeName(c));
    if r.Refused? then Written(t, Some(r.error))
    else LinkArticleCode(r.tables, p, r.id, st, CodeQuote(c))
  }

  /** The codes of subtheme `st`, in order, up to the first failure. */
  ghost function InsertCodes(t: Tables, p: Id, st: Id, codes: seq<CodeEntry>): Written
    decreases |codes|
  {
    if codes == [] then Written(t, None)
    else
      var w := InsertCode(t, p, st, codes[0]);
      if w.failure.Some? then w else InsertCodes(w.tables, p, st, codes[1..])
  }

  /** One subtheme of theme `th`: find or create it, link it to the theme and the paper, then its codes. */
  ghost function InsertSubtheme(t: Tables, p: Id, th: Id, s: SubthemeEntry): Written {
    var r := FindOrCreateEntity(t, SubthemesTable, s.name, s.description);
    if r.Refused? then Written(t, Some(r.error))
    else
      var w1 := LinkThemeSubtheme(r.tables, th, r.id);
      if w1.failure.Some? then w1
      else
        var w2 := LinkArticleSubtheme(w1.tables, p, r.id);
        if w2.failure.Some? then w2 else InsertCodes(w2.tables, p, r.id, s.codes)
  }

  /** The subthemes of theme `th`, in order, up to the first failure. */
  ghost function InsertSubthemes(t: Tables, p: Id, th: Id, subthemes: seq<SubthemeEntry>): Written
    decreases |subthemes|
  {
    if subthemes == [] then Written(t, None)
    else
      var w := InsertSubtheme(t, p, th, subthemes[0]);
      if w.failure.Some? then w else InsertSubthemes(w.tables, p, th, subthemes[1..])
  }

  /** One theme: find or create it, then its subthemes. */
  ghost function InsertTheme(t: Tables, p: Id, e: ThemeEntry): Written {
    var r := FindOrCreateEntity(t, ThemesTable, e.name, e.description);
    if r.Refused? then Written(t, Some(r.error)) else InsertSubthemes(r.tables, p, r.id, e.subthemes)
  }

  /** The themes of paper `p`, in order, up to the first failure. */
  ghost function InsertThemes(t: Tables, p: Id, themes: seq<ThemeEntry>): Written
    decreases |themes|
  {
    if themes == [] then Written(t, None)
    else
      var w := InsertTheme(t, p, themes[0]);
      if w.failure.Some? then w else InsertThemes(w.tables, p, themes[1..])
  }

  /**
   * `insertPaperResult`: a stored title returns at once; otherwise the paper
   * row (a NULL title violates NOT NULL), then its themes.
   */
  ghost function InsertPaperResult(t: Tables, x: Extraction): Written {
    if x.title.Some? && TitleTaken(t, x.title.value) then Written(t, None)
    else if x.title.None? then Written(t, Some(NotNullViolation))
    else
      match InsertPaperRow(t, PaperOf(x))
      case Refused(e) => Written(t, Some(e))
      case Inserted(t1, p) => if x.themes.Some? then InsertThemes(t1, p, x.themes.value) else Written(t1, None)
  }

  // Which entries carry a NULL name: exactly where a write fails.

  ghost predicate HasNullCode(codes: seq<CodeEntry>) {
    exists c :: c in codes && CodeName(c).None?
  }

  ghost predicate SubthemeHasNull(s: SubthemeEntry) {
    s.name.None? || HasNullCode(s.codes)
  }

  ghost predicate HasNullSubtheme(subthemes: seq<SubthemeEntry>) {
    exists s :: s in subthemes && SubthemeHasNull(s)
  }

  ghost predicate ThemeHasNull(e: ThemeEntry) {
    e.name.None? || HasNullSubtheme(e.subthemes)
  }

  ghost predicate HasNullTheme(themes: seq<ThemeEntry>) {
    exists e :: e in themes && ThemeHasNull(e)
  }

  // What a complete write leaves behind, entry by entry.

  /** Paper `p` carries code `name` under subtheme `st`. */
  ghost predicate CodeLinked(t: Tables, p: Id, st: Id, name: string) {
    exists c :: c in t.codes && t.codes[c] == name && (p, c, st) in t.articleCodes
  }

  ghost predicate CodesLinked(t: Tables, p: Id, st: Id, codes: seq<CodeEntry>) {
    forall c :: c in codes && CodeName(c).Some? ==> CodeLinked(t, p, st, CodeName(c).value)
  }

  /** A subtheme named as `s` is linked to theme `th` and to paper `p`, with every code of `s`. */
  ghost predicate SubthemeLinked(t: Tables, p: Id, th: Id, s: SubthemeEntry) {
    s.name.Some? &&
    exists st :: st in t.subthemes && t.subthemes[st].name == s.name.value &&
      (th, st) in t.themeSubthemes && (p, st) in t.articleSubthemes && CodesLinked(t, p, st, s.codes)
  }

  ghost predicate SubthemesLinked(t: Tables, p: Id, th: Id, subthemes: seq<SubthemeEntry>) {
    forall s :: s in subthemes ==> SubthemeLinked(t, p, th, s)
  }

  /** A theme named as `e` exists with every subtheme of `e` linked under it for paper `p`. */
  ghost predicate ThemeLinked(t: Tables, p: Id, e: ThemeEntry) {
    e.name.Some? &&
    exists th :: th in t.themes && t.themes[th].name == e.name.value && SubthemesLinked(t, p, th, e.subthemes)
  }

  ghost predicate ThemesLinked(t: Tables, p: Id, themes: seq<ThemeEntry>) {
    forall e :: e in themes ==> ThemeLinked(t, p, e)
  }

  /** The link predicates only ever gain rows. */
  lemma CodesLinkedGrows(t: Tables, t2: Tables, p: Id, st: Id, codes: seq<CodeEntry>)
    requires Extends(t, t2) && CodesLinked(t, p, st, codes)
    ensures CodesLinked(t2, p, st, codes)
  {
    forall c | c in codes && CodeName(c).Some? ensures CodeLinked(t2, p, st, CodeName(c).value) {
      var id :| id in t.codes && t.codes[id] == CodeName(c).value && (p, id, st) in t.articleCodes;
      assert id in t2.codes && (p, id, st) in t2.articleCodes;
    }
  }

  lemma SubthemesLinkedGrows(t: Tables, t2: Tables, p: Id, th: Id, subthemes: seq<SubthemeEntry>)
    requires Extends(t, t2) && SubthemesLinked(t, p, th, subthemes)
    ensures SubthemesLinked(t2, p, th, subthemes)
  {
    forall s | s in subthemes ensures SubthemeLinked(t2, p, th, s) {
      var st :| st in t.subthemes && t.subthemes[st].name == s.name.value &&
        (th, st) in t.themeSubthemes && (p, st) in t.articleSubthemes && CodesLinked(t, p, st, s.codes);
      CodesLinkedGrows(t, t2, p, st, s.codes);
      assert st in t2.subthemes && t2.subthemes[st].name == s.name.value;
    }
  }

  lemma ThemesLinkedGrows(t: Tables, t2: Tables, p: Id, themes: seq<ThemeEntry>)
    requires Extends(t, t2) && ThemesLinked(t, p, themes)
    ensures ThemesLinked(t2, p, themes)
  {
    forall e | e in themes ensures ThemeLinked(t2, p, e) {
      var th :| th in t.themes && t.themes[th].name == e.name.value && SubthemesLinked(t, p, th, e.subthemes);
      SubthemesLinkedGrows(t, t2, p, th, e.subthemes);
      assert th in t2.themes && t2.themes[th].name == e.name.value;
    }
  }

  /**
   * Find-or-create fails only on a NULL name (NOT NULL); a found row is
   * reused untouched, a created one carries the name.
   */
  lemma FindOrCreateEntityValid(t: Tables, table: EntityTable, name: Option<string>, description: Option<string>)
    requires Valid(t)
    ensures var r := FindOrCreateEntity(t, table, name, description);
      (r.Refused? <==> name.None?) && (r.Refused? ==> r.error == NotNullViolation) &&
      (r.Inserted? ==>
        Valid(r.tables) && Extends(t, r.tables) && r.tables.researchResults == t.researchResults &&
        r.id in EntitiesOf(r.tables, table) &&
        EntitiesOf(r.tables, table)[r.id].name == name.value) &&
      (FindEntityId(EntitiesOf(t, table), name).Some? ==> r.Inserted? && r.tables == t)
  {
    if FindEntityId(EntitiesOf(t, table), name).Some? {
      ExtendsReflexive(t);
    } else if name.Some? {
      InsertEntityRowValid(t, table, name, description);
    }
  }

  lemma FindOrCreateCodeValid(t: Tables, name: Option<string>)
    requires Valid(t)
    ensures var r := FindOrCreateCode(t, name);
      (r.Refused? <==> name.None?) && (r.Refused? ==> r.error == NotNullViolation) &&
      (r.Inserted? ==>
        Valid(r.tables) && Extends(t, r.tables) && r.tables.researchResults == t.researchResults &&
        r.id in r.tables.codes && r.tables.codes[r.id] == name.value) &&
      (FindCodeId(t.codes, name).Some? ==> r.Inserted? && r.tables == t)
  {
    if FindCodeId(t.codes, name).Some? {
      ExtendsReflexive(t);
    } else if name.Some? {
      InsertCodeRowValid(t, name);
    }
  }

  /**
   * One code: fails exactly on a NULL name, changing nothing; otherwise the
   * paper carries the code under the subtheme, with the entry's quote when
   * the row is new and its first quote when it was already there.
   */
  lemma InsertCodeValid(t: Tables, p: Id, st: Id, c: CodeEntry) returns (id: Id)
    requires Valid(t) && p in t.researchResults && st in t.subthemes
    ensures var w := InsertCode(t, p, st, c);
      Valid(w.tables) && Extends(t, w.tables) && w.tables.researchResults == t.researchResults &&
      (w.failure.Some? <==> CodeName(c).None?) &&
      (w.failure.Some? ==> w.failure == Some(NotNullViolation) && w.tables == t) &&
      (w.failure.None? ==>
        id in w.tables.codes && w.tables.codes[id] == CodeName(c).value && (p, id, st) in w.tables.articleCodes &&
        w.tables.articleCodes[(p, id, st)] ==
          if (p, id, st) in t.articleCodes then t.articleCodes[(p, id, st)] else CodeQuote(c))
  {
    FindOrCreateCodeValid(t, CodeName(c));
    var r := FindOrCreateCode(t, CodeName(c));
    if r.Refused? {
      ExtendsReflexive(t);
      id := 0;
    } else {
      id := r.id;
      if (p, id, st) in r.tables.articleCodes {
        ExtendsReflexive(r.tables);
      } else {
        InsertArticleCodeRowValid(r.tables, p, id, st, CodeQuote(c));
      }
      ExtendsTransitive(t, r.tables, InsertCode(t, p, st, c).tables);
    }
  }

  /** The codes: fail exactly when some entry has a NULL name; a full run links every one of them. */
  lemma {:induction false} InsertCodesValid(t: Tables, p: Id, st: Id, codes: seq<CodeEntry>)
    requires Valid(t) && p in t.researchResults && st in t.subthemes
    ensures var w := InsertCodes(t, p, st, codes);
      Valid(w.tables) && Extends(t, w.tables) && w.tables.researchResults == t.researchResults &&
      (w.failure.Some? <==> HasNullCode(codes)) && (w.failure.Some? ==> w.failure == Some(NotNullViolation)) &&
      (w.failure.None? ==> CodesLinked(w.tables, p, st, codes))
    decreases |codes|
  {
    if codes == [] {
      ExtendsReflexive(t);
    } else {
      var id := InsertCodeValid(t, p, st, codes[0]);
      var w := InsertCode(t, p, st, codes[0]);
      if w.failure.Some? {
        assert codes[0] in codes;
      } else {
        InsertCodesValid(w.tables, p, st, codes[1..]);
        var w2 := InsertCodes(w.tables, p, st, codes[1..]);
        ExtendsTransitive(t, w.tables, w2.tables);
        NullCodeSplit(codes);
        if w2.failure.None? {
          assert CodeLinked(w.tables, p, st, CodeName(codes[0]).value);
          CodesLinkedGrows(w.tables, w2.tables, p, st, [codes[0]]);
          LinkedCodesJoin(w2.tables, p, st, codes);
        }
      }
    }
  }

  lemma NullCodeSplit(codes: seq<CodeEntry>)
    requires codes != []
    ensures HasNullCode(codes) <==> CodeName(codes[0]).None? || HasNullCode(codes[1..])
  {
    if HasNullCode(codes) && CodeName(codes[0]).Some? {
      var c :| c in codes && CodeName(c).None?;
      var i :| 0 <= i < |codes| && codes[i] == c;
      assert codes[1..][i - 1] == c;
    }
    if HasNullCode(codes[1..]) {
      var c :| c in codes[1..] && CodeName(c).None?;
      assert c in codes;
    }
  }

  lemma LinkedCodesJoin(t: Tables, p: Id, st: Id, codes: seq<CodeEntry>)
    requires codes != [] && CodesLinked(t, p, st, [codes[0]]) && CodesLinked(t, p, st, codes[1..])
    ensures CodesLinked(t, p, st, codes)
  {
    forall c | c in codes && CodeName(c).Some? ensures CodeLinked(t, p, st, CodeName(c).value) {
      var i :| 0 <= i < |codes| && codes[i] == c;
      if i > 0 {
        assert codes[1..][i - 1] == c;
      } else {
        assert c in [codes[0]];
      }
    }
  }

  /** The two guarded link inserts of a subtheme never fail: their keys exist and the row is absent. */
  lemma LinkSubthemeValid(t: Tables, p: Id, th: Id, st: Id)
    requires Valid(t) && p in t.researchResults && th in t.themes && st in t.subthemes
    ensures var w1 := LinkThemeSubtheme(t, th, st);
      var w2 := LinkArticleSubtheme(w1.tables, p, st);
      w1.failure.None? && w2.failure.None? && Valid(w2.tables) && Extends(t, w2.tables) &&
      w2.tables.researchResults == t.researchResults &&
      (th, st) in w2.tables.themeSubthemes && (p, st) in w2.tables.articleSubthemes
  {
    var w1 := LinkThemeSubtheme(t, th, st);
    if (th, st) in t.themeSubthemes {
      ExtendsReflexive(t);
    } else {
      InsertThemeSubthemeRowValid(t, th, st);
    }
    var w2 := LinkArticleSubtheme(w1.tables, p, st);
    if (p, st) in w1.tables.articleSubthemes {
      ExtendsReflexive(w1.tables);
    } else {
      InsertArticleSubthemeRowValid(w1.tables, p, st);
    }
    ExtendsTransitive(t, w1.tables, w2.tables);
  }

  /** One subtheme: fails exactly when its name or a code name is NULL; a full run links all of it. */
  lemma InsertSubthemeValid(t: Tables, p: Id, th: Id, s: SubthemeEntry)
    requires Valid(t) && p in t.researchResults && th in t.themes
    ensures var w := InsertSubtheme(t, p, th, s);
      Valid(w.tables) && Extends(t, w.tables) && w.tables.researchResults == t.researchResults &&
      (w.failure.Some? <==> SubthemeHasNull(s)) && (w.failure.Some? ==> w.failure == Some(NotNullViolation)) &&
      (w.failure.None? ==> SubthemeLinked(w.tables, p, th, s))
  {
    FindOrCreateEntityValid(t, SubthemesTable, s.name, s.description);
    var r := FindOrCreateEntity(t, SubthemesTable, s.name, s.description);
    if r.Refused? {
      ExtendsReflexive(t);
    } else {
      var st := r.id;
      LinkSubthemeValid(r.tables, p, th, st);
      var w1 := LinkThemeSubtheme(r.tables, th, st);
      var w2 := LinkArticleSubtheme(w1.tables, p, st);
      ExtendsTransitive(t, r.tables, w2.tables);
      InsertCodesValid(w2.tables, p, st, s.codes);
      var w := InsertCodes(w2.tables, p, st, s.codes);
      ExtendsTransitive(t, w2.tables, w.tables);
      assert w == InsertSubtheme(t, p, th, s);
      if w.failure.None? {
        assert st in w.tables.subthemes && w.tables.subthemes[st].name == s.name.value;
        assert (th, st) in w.tables.themeSubthemes && (p, st) in w.tables.articleSubthemes;
      }
    }
  }

  /** The subthemes of a theme: fail exactly when one of them carries a NULL name. */
  lemma {:induction false} InsertSubthemesValid(t: Tables, p: Id, th: Id, subthemes: seq<SubthemeEntry>)
    requires Valid(t) && p in t.researchResults && th in t.themes
    ensures var w := InsertSubthemes(t, p, th, subthemes);
      Valid(w.tables) && Extends(t, w.tables) && w.tables.researchResults == t.researchResults &&
      (w.failure.Some? <==> HasNullSubtheme(subthemes)) && (w.failure.Some? ==> w.failure == Some(NotNullViolation)) &&
      (w.failure.None? ==> SubthemesLinked(w.tables, p, th, subthemes))
    decreases |subthemes|
  {
    if subthemes == [] {
      ExtendsReflexive(t);
    } else {
      InsertSubthemeValid(t, p, th, subthemes[0]);
      var w := InsertSubtheme(t, p, th, subthemes[0]);
      if w.failure.Some? {
        assert subthemes[0] in subthemes;
      } else {
        InsertSubthemesValid(w.tables, p, th, subthemes[1..]);
        var w2 := InsertSubthemes(w.tables, p, th, subthemes[1..]);
        ExtendsTransitive(t, w.tables, w2.tables);
        NullSubthemeSplit(subthemes);
        if w2.failure.None? {
          SubthemesLinkedGrows(w.tables, w2.tables, p, th, [subthemes[0]]);
          forall s | s in subthemes ensures SubthemeLinked(w2.tables, p, th, s) {
            if s != subthemes[0] {
              var i :| 0 <= i < |subthemes| && subthemes[i] == s;
              assert subthemes[1..][i - 1] == s;
            }
          }
        }
      }
    }
  }

  lemma NullSubthemeSplit(subthemes: seq<SubthemeEntry>)
    requires subthemes != []
    ensures HasNullSubtheme(subthemes) <==> SubthemeHasNull(subthemes[0]) || HasNullSubtheme(subthemes[1..])
  {
    if HasNullSubtheme(subthemes) && !SubthemeHasNull(subthemes[0]) {
      var s :| s in subthemes && SubthemeHasNull(s);
      var i :| 0 <= i < |subthemes| && subthemes[i] == s;
      assert subthemes[1..][i - 1] == s;
    }
    if HasNullSubtheme(subthemes[1..]) {
      var s :| s in subthemes[1..] && SubthemeHasNull(s);
      assert s in subthemes;
    }
  }

  /** One theme: fails exactly when its name or a name below it is NULL. */
  lemma InsertThemeValid(t: Tables, p: Id, e: ThemeEntry)
    requires Valid(t) && p in t.researchResults
    ensures var w := InsertTheme(t, p, e);
      Valid(w.tables) && Extends(t, w.tables) && w.tables.researchResults == t.researchResults &&
      (w.failure.Some? <==> ThemeHasNull(e)) && (w.failure.Some? ==> w.failure == Some(NotNullViolation)) &&
      (w.failure.None? ==> ThemeLinked(w.tables, p, e))
  {
    FindOrCreateEntityValid(t, ThemesTable, e.name, e.description);
    var r := FindOrCreateEntity(t, ThemesTable, e.name, e.description);
    if r.Refused? {
      ExtendsReflexive(t);
    } else {
      InsertSubthemesValid(r.tables, p, r.id, e.subthemes);
      var w := InsertSubthemes(r.tables, p, r.id, e.subthemes);
      ExtendsTransitive(t, r.tables, w.tables);
      if w.failure.None? {
        assert r.id in w.tables.themes && w.tables.themes[r.id].name == e.name.value;
      }
    }
  }

  /** The themes of a paper: fail exactly when one of them carries a NULL name. */
  lemma {:induction false} InsertThemesValid(t: Tables, p: Id, themes: seq<ThemeEntry>)
    requires Valid(t) && p in t.researchResults
    ensures var w := InsertThemes(t, p, themes);
      Valid(w.tables) && Extends(t, w.tables) && w.tables.researchResults == t.researchResults &&
      (w.failure.Some? <==> HasNullTheme(themes)) && (w.failure.Some? ==> w.failure == Some(NotNullViolation)) &&
      (w.failure.None? ==> ThemesLinked(w.tables, p, themes))
    decreases |themes|
  {
    if themes == [] {
      ExtendsReflexive(t);
    } else {
      InsertThemeValid(t, p, themes[0]);
      var w := InsertTheme(t, p, themes[0]);
      if w.failure.Some? {
        assert themes[0] in themes;
      } else {
        InsertThemesValid(w.tables, p, themes[1..]);
        var w2 := InsertThemes(w.tables, p, themes[1..]);
        ExtendsTransitive(t, w.tables, w2.tables);
        NullThemeSplit(themes);
        if w2.failure.None? {
          ThemesLinkedGrows(w.tables, w2.tables, p, [themes[0]]);
          forall e | e in themes ensures ThemeLinked(w2.tables, p, e) {
            if e != themes[0] {
              var i :| 0 <= i < |themes| && themes[i] == e;
              assert themes[1..][i - 1] == e;
            }
          }
        }
      }
    }
  }

  lemma NullThemeSplit(themes: seq<ThemeEntry>)
    requires themes != []
    ensures HasNullTheme(themes) <==> ThemeHasNull(themes[0]) || HasNullTheme(themes[1..])
  {
    if HasNullTheme(themes) && !ThemeHasNull(themes[0]) {
      var e :| e in themes && ThemeHasNull(e);
      var i :| 0 <= i < |themes| && themes[i] == e;
      assert themes[1..][i - 1] == e;
    }
    if HasNullTheme(themes[1..]) {
      var e :| e in themes[1..] && ThemeHasNull(e);
      assert e in themes;
    }
  }

  /**
   * `insertPaperResult` keeps every constraint and only adds rows. A stored
   * title writes nothing and reports no error; a NULL title and a taken
   * reference number fail before any write.
   */
  lemma InsertPaperResultValid(t: Tables, x: Extraction)
    requires Valid(t)
    ensures var w := InsertPaperResult(t, x);
      Valid(w.tables) && Extends(t, w.tables) &&
      (x.title.Some? && TitleTaken(t, x.title.value) ==> w == Written(t, None)) &&
      (x.title.None? ==> w == Written(t, Some(NotNullViolation))) &&
      (x.title.Some? && !TitleTaken(t, x.title.value) && x.referenceNumber.Some? && x.referenceNumber.value in RefSet(t) ==>
        w == Written(t, Some(UniqueViolation)))
  {
    if x.title.Some? && !TitleTaken(t, x.title.value) && InsertPaperRow(t, PaperOf(x)).Inserted? {
      InsertPaperRowValid(t, PaperOf(x));
      var r := InsertPaperRow(t, PaperOf(x));
      if x.themes.Some? {
        InsertThemesValid(r.tables, r.id, x.themes.value);
        ExtendsTransitive(t, r.tables, InsertPaperResult(t, x).tables);
      }
    } else {
      ExtendsReflexive(t);
    }
  }

  /**
   * A new title with a free reference number: the paper row is stored as
   * extracted under the next id, the write fails exactly when some theme,
   * subtheme or code name is NULL (and then with NOT NULL, keeping what was
   * written before), and a full write links every entry to the paper.
   */
  lemma InsertPaperResultWrites(t: Tables, x: Extraction)
    requires Valid(t) && x.title.Some? && !TitleTaken(t, x.title.value)
    requires x.referenceNumber.None? || x.referenceNumber.value !in RefSet(t)
    ensures var w := InsertPaperResult(t, x);
      var p := t.serials.paper;
      p !in t.researchResults && w.tables.researchResults == t.researchResults[p := PaperOf(x)] &&
      (w.failure.Some? <==> x.themes.Some? && HasNullTheme(x.themes.value)) &&
      (w.failure.Some? ==> w.failure == Some(NotNullViolation)) &&
      (w.failure.None? && x.themes.Some? ==> ThemesLinked(w.tables, p, x.themes.value))
  {
    InsertPaperRowValid(t, PaperOf(x));
    var r := InsertPaperRow(t, PaperOf(x));
    if x.themes.Some? {
      InsertThemesValid(r.tables, r.id, x.themes.value);
    }
  }
}
