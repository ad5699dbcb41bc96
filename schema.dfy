/**
 * The seven tables created by `dropAndCreateTables` and the constraints the
 * schema enforces: SERIAL keys, UNIQUE natural keys, composite primary keys
 * and foreign keys with ON DELETE CASCADE.
 */
module Schema {
  import opened Wrappers

  /** A SERIAL primary key. */
  type Id = int

  /** A `research_results` row (`summary` is the `abstract` column). */
  datatype Paper = Paper(
    title: string,
    authors: Option<string>,
    year: Option<string>,
    doi: Option<string>,
    summary: Option<string>,
    keyFindings: Option<string>,
    methodology: Option<string>,
    referenceNumber: Option<int>)

  /** A `themes` or `subthemes` row: a unique name and a nullable description. */
  datatype Entity = Entity(name: string, description: Option<string>)

  /** A SERIAL sequence starts at 1 and only grows. */
  type Serial = x: int | x >= 1 witness 1

  /** The next value of each table's SERIAL sequence. */
  datatype Serials = Serials(paper: Serial, theme: Serial, subtheme: Serial, code: Serial)

  /**
   * The whole store. The link tables are sets because their primary key is
   * the whole row; `article_codes` is keyed by (article, code, subtheme) and
   * carries the nullable evidence quote.
   */
  datatype Tables = Tables(
    researchResults: map<Id, Paper>,
    themes: map<Id, Entity>,
    subthemes: map<Id, Entity>,
    codes: map<Id, string>,
    themeSubthemes: set<(Id, Id)>,
    articleSubthemes: set<(Id, Id)>,
    articleCodes: map<(Id, Id, Id), Option<string>>,
    serials: Serials)

  /** The freshly created, empty schema. */
  function EmptyTables(): Tables {
    Tables(map[], map[], map[], map[], {}, {}, map[], Serials(1, 1, 1, 1))
  }

  /** UNIQUE on a name column. */
  ghost predicate NamesUnique(m: map<Id, Entity>) {
    forall i, j {:trigger m[i].name, m[j].name} :: i in m && j in m && m[i].name == m[j].name ==> i == j
  }

  ghost predicate CodeNamesUnique(m: map<Id, string>) {
    forall i, j :: i in m && j in m && m[i] == m[j] ==> i == j
  }

  /** UNIQUE on `paper_title` and on `reference_number` (NULLs never clash). */
  ghost predicate PapersUnique(m: map<Id, Paper>) {
    forall i, j :: i in m && j in m && i != j ==>
      m[i].title != m[j].title &&
      (m[i].referenceNumber.Some? ==> m[i].referenceNumber != m[j].referenceNumber)
  }

  /** Every key was drawn from its SERIAL sequence. */
  ghost predicate SerialsAhead(t: Tables) {
    (forall id :: id in t.researchResults ==> 1 <= id < t.serials.paper) &&
    (forall id :: id in t.themes ==> 1 <= id < t.serials.theme) &&
    (forall id :: id in t.subthemes ==> 1 <= id < t.serials.subtheme) &&
    (forall id :: id in t.codes ==> 1 <= id < t.serials.code)
  }

  /** REFERENCES ... : no link row points at a missing row. */
  ghost predicate LinksResolve(t: Tables) {
    (forall l {:trigger l in t.themeSubthemes} :: l in t.themeSubthemes ==> l.0 in t.themes && l.1 in t.subthemes) &&
    (forall l {:trigger l in t.articleSubthemes} :: l in t.articleSubthemes ==> l.0 in t.researchResults && l.1 in t.subthemes) &&
    (forall k {:trigger k in t.articleCodes} :: k in t.articleCodes ==>
      k.0 in t.researchResults && k.1 in t.codes && k.2 in t.subthemes)
  }

  /** Every constraint of the schema. */
  ghost predicate Valid(t: Tables) {
    NamesUnique(t.themes) && NamesUnique(t.subthemes) && CodeNamesUnique(t.codes) &&
    PapersUnique(t.researchResults) && SerialsAhead(t) && LinksResolve(t)
  }

  /** The freshly created schema satisfies every constraint. */
  lemma EmptyTablesValid()
    ensures Valid(EmptyTables())
  {
  }

  /** The two tables the consolidation scripts select, chunk and merge. */
  datatype EntityTable = ThemesTable | SubthemesTable

  function EntitiesOf(t: Tables, table: EntityTable): map<Id, Entity> {
    match table
    case ThemesTable => t.themes
    case SubthemesTable => t.subthemes
  }

  /** The subtheme ids theme `th` is linked to. */
  function SubthemesOf(links: set<(Id, Id)>, th: Id): set<Id> {
    set l | l in links && l.0 == th :: l.1
  }

  /** Some row of `links` has `id` in its first column. */
  predicate HasFirst(links: set<(Id, Id)>, id: Id) {
    exists l | l in links :: l.0 == id
  }

  /** Some row of `links` has `id` in its second column. */
  predicate HasSecond(links: set<(Id, Id)>, id: Id) {
    exists l | l in links :: l.1 == id
  }
}
