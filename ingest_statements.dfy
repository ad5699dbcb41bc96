/**
 * What each SQL statement issued by `insertPaperResult` and
 * `getNextReferenceNumber` does to the tables: the lookups by natural key,
 * the inserts with the constraints that make them fail (a failing statement
 * changes nothing), and `MAX(reference_number)`.
 */
module IngestStatements {
  import opened Wrappers
  import opened Sets
  import opened Schema
  import opened Statements

  /** The result of an `INSERT ... RETURNING id`. */
  datatype Inserted = Inserted(tables: Tables, id: Id) | Refused(error: SqlError)

  /**
   * Every row of `t` is still in `t2`, unchanged: nothing was updated or
   * deleted, so an existing name keeps its description and an existing
   * evidence row keeps its first quote.
   */
  ghost predicate Extends(t: Tables, t2: Tables) {
    (forall id :: id in t.researchResults ==> id in t2.researchResults && t2.researchResults[id] == t.researchResults[id]) &&
    (forall id :: id in t.themes ==> id in t2.themes && t2.themes[id] == t.themes[id]) &&
    (forall id :: id in t.subthemes ==> id in t2.subthemes && t2.subthemes[id] == t.subthemes[id]) &&
    (forall id :: id in t.codes ==> id in t2.codes && t2.codes[id] == t.codes[id]) &&
    t.themeSubthemes <= t2.themeSubthemes && t.articleSubthemes <= t2.articleSubthemes &&
    (forall k :: k in t.articleCodes ==> k in t2.articleCodes && t2.articleCodes[k] == t.articleCodes[k])
  }

  lemma ExtendsReflexive(t: Tables)
    ensures Extends(t, t)
  {
  }

  lemma ExtendsTransitive(t1: Tables, t2: Tables, t3: Tables)
    requires Extends(t1, t2) && Extends(t2, t3)
    ensures Extends(t1, t3)
  {
  }

  /** `SELECT id FROM research_results WHERE paper_title = $1` returns a row. */
  ghost predicate TitleTaken(t: Tables, title: string) {
    exists id :: id in t.researchResults && t.researchResults[id].title == title
  }

  /** The non-null values of `reference_number`. */
  ghost function RefSet(t: Tables): set<int> {
    set id | id in t.researchResults && t.researchResults[id].referenceNumber.Some? ::
      t.researchResults[id].referenceNumber.value
  }

  /** `SELECT MAX(reference_number) FROM research_results`: NULL when no row has one. */
  ghost function MaxReferenceNumber(t: Tables): (r: Option<int>)
    ensures r.None? <==> RefSet(t) == {}
    ensures r.Some? ==> r.value in RefSet(t) && forall x :: x in RefSet(t) ==> x <= r.value
  {
    MaxOf(RefSet(t))
  }

  /**
   * `INSERT INTO research_results (...) VALUES (...) RETURNING id`: fails on
   * the UNIQUE title or reference number, otherwise takes the next id.
   */
  ghost function InsertPaperRow(t: Tables, p: Paper): (r: Inserted)
    ensures r.Refused? <==> TitleTaken(t, p.title) || (p.referenceNumber.Some? && p.referenceNumber.value in RefSet(t))
    ensures r.Refused? ==> r.error == UniqueViolation
  {
    if TitleTaken(t, p.title) || (p.referenceNumber.Some? && p.referenceNumber.value in RefSet(t)) then
      Refused(UniqueViolation)
    else
      var id := t.serials.paper;
      Inserted(t.(researchResults := t.researchResults[id := p], serials := t.serials.(paper := id + 1)), id)
  }

  /**
   * `SELECT id FROM themes WHERE name = $1` (or `subthemes`): the row with
   * that name; none for a NULL name, which equals nothing.
   */
  ghost function FindEntityId(m: map<Id, Entity>, name: Option<string>): (r: Option<Id>)
    ensures r.Some? ==> name.Some? && r.value in m && m[r.value].name == name.value
    ensures r.None? ==> name.None? || forall id :: id in m ==> m[id].name != name.value
  {
    if name.Some? && exists id :: id in m && m[id].name == name.value then
      var id :| id in m && m[id].name == name.value;
      Some(id)
    else None
  }

  /** `SELECT id FROM codes WHERE name = $1`. */
  ghost function FindCodeId(m: map<Id, string>, name: Option<string>): (r: Option<Id>)
    ensures r.Some? ==> name.Some? && r.value in m && m[r.value] == name.value
    ensures r.None? ==> name.None? || forall id :: id in m ==> m[id] != name.value
  {
    if name.Some? && exists id :: id in m && m[id] == name.value then
      var id :| id in m && m[id] == name.value;
      Some(id)
    else None
  }

  /** The next value of the SERIAL sequence of an entity table. */
  function EntitySerial(t: Tables, table: EntityTable): Serial {
    match table
    case ThemesTable => t.serials.theme
    case SubthemesTable => t.serials.subtheme
  }

  /** The tables with the entity table replaced and its sequence advanced past `id`. */
  function WithEntity(t: Tables, table: EntityTable, id: Serial, e: Entity): Tables {
    match table
    case ThemesTable => t.(themes := t.themes[id := e], serials := t.serials.(theme := id + 1))
    case SubthemesTable => t.(subthemes := t.subthemes[id := e], serials := t.serials.(subtheme := id + 1))
  }

  /**
   * `INSERT INTO themes (name, description) VALUES ($1, $2) RETURNING id` (or
   * `subthemes`): a NULL name violates NOT NULL, a taken name UNIQUE.
   */
  function InsertEntityRow(t: Tables, table: EntityTable, name: Option<string>, description: Option<string>): (r: Inserted)
    ensures r.Refused? <==> name.None? || exists id :: id in EntitiesOf(t, table) && EntitiesOf(t, table)[id].name == name.value
    ensures r.Refused? ==> r.error == (if name.None? then NotNullViolation else UniqueViolation)
    ensures r.Inserted? ==>
      r.id == EntitySerial(t, table) && r.tables == WithEntity(t, table, r.id, Entity(name.value, description))
  {
    if name.None? then Refused(NotNullViolation)
    else if exists id :: id in EntitiesOf(t, table) && EntitiesOf(t, table)[id].name == name.value then
      Refused(UniqueViolation)
    else
      var id := EntitySerial(t, table);
      Inserted(WithEntity(t, table, id, Entity(name.value, description)), id)
  }

  /** `INSERT INTO codes (name) VALUES ($1) RETURNING id`. */
  function InsertCodeRow(t: Tables, name: Option<string>): (r: Inserted)
    ensures r.Refused? <==> name.None? || exists id :: id in t.codes && t.codes[id] == name.value
    ensures r.Refused? ==> r.error == (if name.None? then NotNullViolation else UniqueViolation)
  {
    if name.None? then Refused(NotNullViolation)
    else if exists id :: id in t.codes && t.codes[id] == name.value then Refused(UniqueViolation)
    else
      var id := t.serials.code;
      Inserted(t.(codes := t.codes[id := name.value], serials := t.serials.(code := id + 1)), id)
  }

  /** `INSERT INTO theme_subthemes (theme_id, subtheme_id) VALUES ($1, $2)`. */
  function InsertThemeSubthemeRow(t: Tables, th: Id, st: Id): (r: Outcome)
    ensures r.Done? <==> th in t.themes && st in t.subthemes && (th, st) !in t.themeSubthemes
    ensures r.Done? ==> r.tables == t.(themeSubthemes := t.themeSubthemes + {(th, st)})
  {
    if th !in t.themes || st !in t.subthemes then Failed(ForeignKeyViolation)
    else if (th, st) in t.themeSubthemes then Failed(UniqueViolation)
    else Done(t.(themeSubthemes := t.themeSubthemes + {(th, st)}))
  }

  /** `INSERT INTO article_subthemes (article_id, subtheme_id) VALUES ($1, $2)`. */
  function InsertArticleSubthemeRow(t: Tables, a: Id, st: Id): (r: Outcome)
    ensures r.Done? <==> a in t.researchResults && st in t.subthemes && (a, st) !in t.articleSubthemes
    ensures r.Done? ==> r.tables == t.(articleSubthemes := t.articleSubthemes + {(a, st)})
  {
    if a !in t.researchResults || st !in t.subthemes then Failed(ForeignKeyViolation)
    else if (a, st) in t.articleSubthemes then Failed(UniqueViolation)
    else Done(t.(articleSubthemes := t.articleSubthemes + {(a, st)}))
  }

  /** `INSERT INTO article_codes (article_id, code_id, subtheme_id, evidence_quote) VALUES (...)`. */
  function InsertArticleCodeRow(t: Tables, a: Id, c: Id, st: Id, quote: Option<string>): (r: Outcome)
    ensures r.Done? <==> a in t.researchResults && c in t.codes && st in t.subthemes && (a, c, st) !in t.articleCodes
    ensures r.Done? ==> r.tables == t.(articleCodes := t.articleCodes[(a, c, st) := quote])
  {
    if a !in t.researchResults || c !in t.codes || st !in t.subthemes then Failed(ForeignKeyViolation)
    else if (a, c, st) in t.articleCodes then Failed(UniqueViolation)
    else Done(t.(articleCodes := t.articleCodes[(a, c, st) := quote]))
  }

  /** A paper insert keeps every constraint and only adds its row. */
  lemma InsertPaperRowValid(t: Tables, p: Paper)
    requires Valid(t) && InsertPaperRow(t, p).Inserted?
    ensures var r := InsertPaperRow(t, p);
      Valid(r.tables) && Extends(t, r.tables) && r.id !in t.researchResults &&
      r.tables.researchResults == t.researchResults[r.id := p] &&
      r.tables == t.(researchResults := r.tables.researchResults, serials := r.tables.serials)
  {
    var r := InsertPaperRow(t, p);
    var m := r.tables.researchResults;
    forall i, j | i in m && j in m && i != j
      ensures m[i].title != m[j].title && (m[i].referenceNumber.Some? ==> m[i].referenceNumber != m[j].referenceNumber)
    {
      if i == r.id {
        assert m[j] == t.researchResults[j];
        assert t.researchResults[j].title != p.title;
      } else if j == r.id {
        assert m[i] == t.researchResults[i];
        assert t.researchResults[i].title != p.title;
      }
    }
  }

  /** An entity insert keeps every constraint and only adds its row. */
  lemma InsertEntityRowValid(t: Tables, table: EntityTable, name: Option<string>, description: Option<string>)
    requires Valid(t) && InsertEntityRow(t, table, name, description).Inserted?
    ensures var r := InsertEntityRow(t, table, name, description);
      Valid(r.tables) && Extends(t, r.tables) && r.id !in EntitiesOf(t, table) &&
      EntitiesOf(r.tables, table) == EntitiesOf(t, table)[r.id := Entity(name.value, description)]
  {
    var r := InsertEntityRow(t, table, name, description);
    var m := EntitiesOf(r.tables, table);
    forall i, j | i in m && j in m && m[i].name == m[j].name ensures i == j {
      if i != j && (i == r.id || j == r.id) {
        NameIsTaken(EntitiesOf(t, table), if i == r.id then j else i);
        assert false;
      }
    }
  }

  /** A row of `m` makes its name taken. */
  lemma NameIsTaken(m: map<Id, Entity>, id: Id)
    requires id in m
    ensures exists x :: x in m && m[x].name == m[id].name
  {
  }

  /** A code insert keeps every constraint and only adds its row. */
  lemma InsertCodeRowValid(t: Tables, name: Option<string>)
    requires Valid(t) && InsertCodeRow(t, name).Inserted?
    ensures var r := InsertCodeRow(t, name);
      Valid(r.tables) && Extends(t, r.tables) && r.id !in t.codes && r.tables.codes == t.codes[r.id := name.value]
  {
  }

  /** A `theme_subthemes` insert keeps every constraint and only adds its row. */
  lemma InsertThemeSubthemeRowValid(t: Tables, th: Id, st: Id)
    requires Valid(t) && InsertThemeSubthemeRow(t, th, st).Done?
    ensures var t2 := InsertThemeSubthemeRow(t, th, st).tables; Valid(t2) && Extends(t, t2)
  {
  }

  /** An `article_subthemes` insert keeps every constraint and only adds its row. */
  lemma InsertArticleSubthemeRowValid(t: Tables, a: Id, st: Id)
    requires Valid(t) && InsertArticleSubthemeRow(t, a, st).Done?
    ensures var t2 := InsertArticleSubthemeRow(t, a, st).tables; Valid(t2) && Extends(t, t2)
  {
  }

  /** An `article_codes` insert keeps every constraint and only adds its row. */
  lemma InsertArticleCodeRowValid(t: Tables, a: Id, c: Id, st: Id, quote: Option<string>)
    requires Valid(t) && InsertArticleCodeRow(t, a, c, st, quote).Done?
    ensures var t2 := InsertArticleCodeRow(t, a, c, st, quote).tables; Valid(t2) && Extends(t, t2)
  {
  }
}
