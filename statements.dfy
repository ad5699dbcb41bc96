/**
 * What each SQL statement issued by the consolidation and ingestion scripts
 * does to the tables, including the constraint violations that make a
 * statement fail (a failing statement changes nothing).
 */
module Statements {
  import opened Wrappers
  import opened Schema

  datatype SqlError = ForeignKeyViolation | UniqueViolation | NotNullViolation

  /** The result of a statement that may violate a constraint. */
  datatype Outcome = Done(tables: Tables) | Failed(error: SqlError)

  /** The result of an UPDATE on a two-column link table. */
  datatype LinkUpdate = LinksDone(links: set<(Id, Id)>) | LinksFailed(error: SqlError)

  /** The rows of a link table whose first column is `id`. */
  function RowsWithFirst(links: set<(Id, Id)>, id: Id): (r: set<(Id, Id)>)
    ensures r <= links
    ensures forall l :: l in r <==> l in links && l.0 == id
  {
    set l | l in links && l.0 == id
  }

  /** The rows of a link table whose second column is `id`. */
  function RowsWithSecond(links: set<(Id, Id)>, id: Id): (r: set<(Id, Id)>)
    ensures r <= links
    ensures forall l :: l in r <==> l in links && l.1 == id
  {
    set l | l in links && l.1 == id
  }

  /** The selected rows with their first column set to `p`. */
  function SetFirst(rows: set<(Id, Id)>, p: Id): set<(Id, Id)> {
    set l | l in rows :: (p, l.1)
  }

  /** The selected rows with their second column set to `p`. */
  function SetSecond(rows: set<(Id, Id)>, p: Id): set<(Id, Id)> {
    set l | l in rows :: (l.0, p)
  }

  /**
   * `UPDATE links SET col = target WHERE <row is selected>`: fails on the
   * foreign key when a row is moved to a missing target, and on the primary
   * key when a moved row lands on a row that stays.
   */
  function UpdateLinks(links: set<(Id, Id)>, selected: set<(Id, Id)>, moved: set<(Id, Id)>,
                       targetExists: bool): (r: LinkUpdate)
    ensures r.LinksDone? <==> (selected == {} || targetExists) && moved * (links - selected) == {}
  {
    if selected != {} && !targetExists then LinksFailed(ForeignKeyViolation)
    else if moved * (links - selected) != {} then LinksFailed(UniqueViolation)
    else LinksDone(links - selected + moved)
  }

  /** `UPDATE themes SET description = $1 WHERE id = $2`. */
  function SetThemeDescription(t: Tables, id: Id, d: Option<string>): (r: Tables)
    ensures r.themes.Keys == t.themes.Keys
    ensures id in t.themes ==> r.themes[id] == Entity(t.themes[id].name, d)
    ensures forall x :: x in t.themes && x != id ==> r.themes[x] == t.themes[x]
    ensures r == t.(themes := r.themes)
  {
    if id in t.themes then t.(themes := t.themes[id := t.themes[id].(description := d)]) else t
  }

  /** `UPDATE subthemes SET description = $1 WHERE id = $2`. */
  function SetSubthemeDescription(t: Tables, id: Id, d: Option<string>): (r: Tables)
    ensures r.subthemes.Keys == t.subthemes.Keys
    ensures id in t.subthemes ==> r.subthemes[id] == Entity(t.subthemes[id].name, d)
    ensures forall x :: x in t.subthemes && x != id ==> r.subthemes[x] == t.subthemes[x]
    ensures r == t.(subthemes := r.subthemes)
  {
    if id in t.subthemes then t.(subthemes := t.subthemes[id := t.subthemes[id].(description := d)]) else t
  }

  /**
   * `UPDATE theme_subthemes SET theme_id = p WHERE theme_id = m AND NOT EXISTS
   * (SELECT 1 FROM theme_subthemes WHERE theme_id = p AND subtheme_id =
   * theme_subthemes.subtheme_id)`: the qualified column in the subquery names
   * the subquery's own row, so the guard holds exactly when `p` has no row
   * at all; otherwise no row moves.
   */
  function RepointThemeLinks(t: Tables, p: Id, m: Id): Outcome {
    var selected := if HasFirst(t.themeSubthemes, p) then {} else RowsWithFirst(t.themeSubthemes, m);
    match UpdateLinks(t.themeSubthemes, selected, SetFirst(selected, p), p in t.themes)
    case LinksDone(links) => Done(t.(themeSubthemes := links))
    case LinksFailed(e) => Failed(e)
  }

  /**
   * The statement its comment intends, with the subquery correlated with the
   * outer row: each row of `m` moves to `p` unless `p` already has that subtheme.
   */
  function RepointThemeLinksCorrelated(t: Tables, p: Id, m: Id): Outcome {
    var selected := set l | l in t.themeSubthemes && l.0 == m && (p, l.1) !in t.themeSubthemes;
    match UpdateLinks(t.themeSubthemes, selected, SetFirst(selected, p), p in t.themes)
    case LinksDone(links) => Done(t.(themeSubthemes := links))
    case LinksFailed(e) => Failed(e)
  }

  /** `DELETE FROM theme_subthemes WHERE theme_id = $1`. */
  function DeleteThemeLinks(t: Tables, m: Id): Tables {
    t.(themeSubthemes := t.themeSubthemes - RowsWithFirst(t.themeSubthemes, m))
  }

  /** `DELETE FROM themes WHERE id = $1`, cascading to `theme_subthemes`. */
  function DeleteTheme(t: Tables, m: Id): Tables {
    t.(themes := t.themes - {m},
       themeSubthemes := t.themeSubthemes - RowsWithFirst(t.themeSubthemes, m))
  }

  /**
   * `UPDATE theme_subthemes SET subtheme_id = p WHERE subtheme_id = m AND NOT
   * EXISTS (SELECT 1 FROM theme_subthemes WHERE theme_id =
   * theme_subthemes.theme_id AND subtheme_id = p)`: the qualified column names
   * the subquery's own row, so the guard holds exactly when `p` has no row in
   * the table.
   */
  function RepointSubthemeThemeLinks(t: Tables, p: Id, m: Id): Outcome {
    var selected := if HasSecond(t.themeSubthemes, p) then {} else RowsWithSecond(t.themeSubthemes, m);
    match UpdateLinks(t.themeSubthemes, selected, SetSecond(selected, p), p in t.subthemes)
    case LinksDone(links) => Done(t.(themeSubthemes := links))
    case LinksFailed(e) => Failed(e)
  }

  /** The same statement on `article_subthemes`: rows move only when `p` has no row in that table. */
  function RepointSubthemeArticleLinks(t: Tables, p: Id, m: Id): Outcome {
    var selected := if HasSecond(t.articleSubthemes, p) then {} else RowsWithSecond(t.articleSubthemes, m);
    match UpdateLinks(t.articleSubthemes, selected, SetSecond(selected, p), p in t.subthemes)
    case LinksDone(links) => Done(t.(articleSubthemes := links))
    case LinksFailed(e) => Failed(e)
  }

  /** The `theme_subthemes` re-pointing with the guard correlated: each theme's row moves unless that theme already has `p`. */
  function RepointSubthemeThemeLinksCorrelated(t: Tables, p: Id, m: Id): Outcome {
    var selected := set l | l in t.themeSubthemes && l.1 == m && (l.0, p) !in t.themeSubthemes;
    match UpdateLinks(t.themeSubthemes, selected, SetSecond(selected, p), p in t.subthemes)
    case LinksDone(links) => Done(t.(themeSubthemes := links))
    case LinksFailed(e) => Failed(e)
  }

  /** The `article_subthemes` re-pointing with the guard correlated: each article's row moves unless that article already has `p`. */
  function RepointSubthemeArticleLinksCorrelated(t: Tables, p: Id, m: Id): Outcome {
    var selected := set l | l in t.articleSubthemes && l.1 == m && (l.0, p) !in t.articleSubthemes;
    match UpdateLinks(t.articleSubthemes, selected, SetSecond(selected, p), p in t.subthemes)
    case LinksDone(links) => Done(t.(articleSubthemes := links))
    case LinksFailed(e) => Failed(e)
  }

  /** `DELETE FROM theme_subthemes WHERE subtheme_id = $1`. */
  function DeleteSubthemeThemeLinks(t: Tables, m: Id): Tables {
    t.(themeSubthemes := t.themeSubthemes - RowsWithSecond(t.themeSubthemes, m))
  }

  /** `DELETE FROM article_subthemes WHERE subtheme_id = $1`. */
  function DeleteSubthemeArticleLinks(t: Tables, m: Id): Tables {
    t.(articleSubthemes := t.articleSubthemes - RowsWithSecond(t.articleSubthemes, m))
  }

  /** The `article_codes` rows filed under subtheme `m`. */
  function EvidenceOf(codes: map<(Id, Id, Id), Option<string>>, m: Id): set<(Id, Id, Id)> {
    set k | k in codes && k.2 == m
  }

  /**
   * `DELETE FROM subthemes WHERE id = $1`, cascading to both link tables and
   * to the `article_codes` evidence filed under the subtheme.
   */
  function DeleteSubtheme(t: Tables, m: Id): Tables {
    t.(subthemes := t.subthemes - {m},
       themeSubthemes := t.themeSubthemes - RowsWithSecond(t.themeSubthemes, m),
       articleSubthemes := t.articleSubthemes - RowsWithSecond(t.articleSubthemes, m),
       articleCodes := t.articleCodes - EvidenceOf(t.articleCodes, m))
  }
}
