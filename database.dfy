/**
 * The PostgreSQL store the scripts talk to through `client.query`: one field
 * per table, one method per statement. Each statement method changes the
 * fields exactly as the corresponding function over `Tables` says; BEGIN
 * takes a snapshot and ROLLBACK restores it (COMMIT keeps the current state).
 */
module Database {
  import opened Wrappers
  import opened Sets
  import opened Schema
  import opened Statements
  import opened NameOrder
  import opened IngestStatements

  /** A table's rows in name order, as `SELECT id, name, description FROM <table> ORDER BY name` returns them. */
  ghost function RowsByName(t: Tables, table: EntityTable): seq<Row> {
    Listing(EntitiesOf(t, table))
  }

  /**
   * How the consolidation scripts list a table's rows: `RowsByName` in both.
   * Their loops are stated for any such listing, as for the step that applies
   * a reply, so that their proofs do not unfold the listing.
   */
  type Lister = (Tables, EntityTable) -> seq<Row>

  /** `list` is `RowsByName`; the agreement is drawn on where `Listing` itself appears. */
  ghost predicate IsListing(list: Lister) {
    forall t, table {:trigger Listing(EntitiesOf(t, table))} :: list(t, table) == Listing(EntitiesOf(t, table))
  }

  class Store {
    var researchResults: map<Id, Paper>
    var themes: map<Id, Entity>
    var subthemes: map<Id, Entity>
    var codes: map<Id, string>
    var themeSubthemes: set<(Id, Id)>
    var articleSubthemes: set<(Id, Id)>
    var articleCodes: map<(Id, Id, Id), Option<string>>
    var serials: Serials

    /** The contents of every table. */
    function State(): Tables
      reads this
    {
      Tables(researchResults, themes, subthemes, codes, themeSubthemes, articleSubthemes, articleCodes, serials)
    }

    /** The store satisfies every constraint of the schema. */
    ghost predicate Consistent()
      reads this
    {
      Valid(State())
    }

    /** `dropAndCreateTables`: every table empty, every sequence at 1. */
    constructor ()
      ensures State() == EmptyTables() && Consistent()
    {
      researchResults, themes, subthemes, codes := map[], map[], map[], map[];
      themeSubthemes, articleSubthemes, articleCodes := {}, {}, map[];
      serials := Serials(1, 1, 1, 1);
      EmptyTablesValid();
    }

    /** Overwrite every table (used to restore a snapshot). */
    method Restore(t: Tables)
      modifies this
      ensures State() == t
    {
      researchResults, themes, subthemes, codes := t.researchResults, t.themes, t.subthemes, t.codes;
      themeSubthemes, articleSubthemes, articleCodes := t.themeSubthemes, t.articleSubthemes, t.articleCodes;
      serials := t.serials;
    }

    /** `BEGIN`: the state a later ROLLBACK returns to. */
    method Begin() returns (snapshot: Tables)
      ensures snapshot == State()
    {
      snapshot := State();
    }

    /** `ROLLBACK`: back to the state at BEGIN. */
    method Rollback(snapshot: Tables)
      modifies this
      ensures State() == snapshot
    {
      Restore(snapshot);
    }

    /** `SELECT id, name, description FROM <table> ORDER BY name`. */
    method SelectRows(table: EntityTable) returns (rows: seq<Row>)
      requires NamesUnique(EntitiesOf(State(), table))
      ensures rows == Listing(EntitiesOf(State(), table))
    {
      var m := EntitiesOf(State(), table);
      rows := [];
      var left := m.Keys;
      while left != {}
        invariant left <= m.Keys
        invariant SortedByName(rows)
        invariant ListsExactly(rows, map k | k in m && k !in left :: m[k])
        decreases left
      {
        ghost var some := PickElement(left);
        var k :| k in left;
        forall x | x in rows ensures x.entity.name != m[k].name {
          assert x.id in m && x.id !in left && m[x.id] == x.entity;
        }
        InsertByNameSorted(rows, Row(k, m[k]));
        rows := InsertByName(rows, Row(k, m[k]));
        left := left - {k};
      }
      assert (map k | k in m && k !in left :: m[k]) == m;
      ListingSorted(m);
      ListingUnique(rows, Listing(m), m);
    }

    /** `UPDATE themes SET description = $1 WHERE id = $2`. */
    method UpdateThemeDescription(id: Id, d: Option<string>)
      modifies this
      ensures State() == SetThemeDescription(old(State()), id, d)
    {
      if id in themes {
        themes := themes[id := themes[id].(description := d)];
      }
    }

    /** `UPDATE subthemes SET description = $1 WHERE id = $2`. */
    method UpdateSubthemeDescription(id: Id, d: Option<string>)
      modifies this
      ensures State() == SetSubthemeDescription(old(State()), id, d)
    {
      if id in subthemes {
        subthemes := subthemes[id := subthemes[id].(description := d)];
      }
    }

    /** The re-pointing of `theme_subthemes` for a theme merge, guard as written; a failure changes nothing. */
    method RepointThemeLinks(p: Id, m: Id) returns (err: Option<SqlError>)
      modifies this
      ensures match Statements.RepointThemeLinks(old(State()), p, m)
              case Done(t) => err == None && State() == t
              case Failed(e) => err == Some(e) && State() == old(State())
    {
      var selected := if HasFirst(themeSubthemes, p) then {} else RowsWithFirst(themeSubthemes, m);
      var r := UpdateLinks(themeSubthemes, selected, SetFirst(selected, p), p in themes);
      if r.LinksDone? {
        themeSubthemes := r.links;
        err := None;
      } else {
        err := Some(r.error);
      }
    }

    /** `DELETE FROM theme_subthemes WHERE theme_id = $1`. */
    method DeleteThemeLinks(m: Id)
      modifies this
      ensures State() == Statements.DeleteThemeLinks(old(State()), m)
    {
      themeSubthemes := themeSubthemes - RowsWithFirst(themeSubthemes, m);
    }

    /** `DELETE FROM themes WHERE id = $1`. */
    method DeleteTheme(m: Id)
      modifies this
      ensures State() == Statements.DeleteTheme(old(State()), m)
    {
      themes := themes - {m};
      themeSubthemes := themeSubthemes - RowsWithFirst(themeSubthemes, m);
    }

    /** The re-pointing of `theme_subthemes` for a subtheme merge, guard as written. */
    method RepointSubthemeThemeLinks(p: Id, m: Id) returns (err: Option<SqlError>)
      modifies this
      ensures match Statements.RepointSubthemeThemeLinks(old(State()), p, m)
              case Done(t) => err == None && State() == t
              case Failed(e) => err == Some(e) && State() == old(State())
    {
      var selected := if HasSecond(themeSubthemes, p) then {} else RowsWithSecond(themeSubthemes, m);
      var r := UpdateLinks(themeSubthemes, selected, SetSecond(selected, p), p in subthemes);
      if r.LinksDone? {
        themeSubthemes := r.links;
        err := None;
      } else {
        err := Some(r.error);
      }
    }

    /** The re-pointing of `article_subthemes` for a subtheme merge, guard as written. */
    method RepointSubthemeArticleLinks(p: Id, m: Id) returns (err: Option<SqlError>)
      modifies this
      ensures match Statements.RepointSubthemeArticleLinks(old(State()), p, m)
              case Done(t) => err == None && State() == t
              case Failed(e) => err == Some(e) && State() == old(State())
    {
      var selected := if HasSecond(articleSubthemes, p) then {} else RowsWithSecond(articleSubthemes, m);
      var r := UpdateLinks(articleSubthemes, selected, SetSecond(selected, p), p in subthemes);
      if r.LinksDone? {
        articleSubthemes := r.links;
        err := None;
      } else {
        err := Some(r.error);
      }
    }

    /** `DELETE FROM theme_subthemes WHERE subtheme_id = $1`. */
    method DeleteSubthemeThemeLinks(m: Id)
      modifies this
      ensures State() == Statements.DeleteSubthemeThemeLinks(old(State()), m)
    {
      themeSubthemes := themeSubthemes - RowsWithSecond(themeSubthemes, m);
    }

    /** `DELETE FROM article_subthemes WHERE subtheme_id = $1`. */
    method DeleteSubthemeArticleLinks(m: Id)
      modifies this
      ensures State() == Statements.DeleteSubthemeArticleLinks(old(State()), m)
    {
      articleSubthemes := articleSubthemes - RowsWithSecond(articleSubthemes, m);
    }

    /** `DELETE FROM subthemes WHERE id = $1`, with its cascades. */
    method DeleteSubtheme(m: Id)
      modifies this
      ensures State() == Statements.DeleteSubtheme(old(State()), m)
    {
      subthemes := subthemes - {m};
      themeSubthemes := themeSubthemes - RowsWithSecond(themeSubthemes, m);
      articleSubthemes := articleSubthemes - RowsWithSecond(articleSubthemes, m);
      articleCodes := articleCodes - EvidenceOf(articleCodes, m);
    }
  

    /** `SELECT id FROM research_results WHERE paper_title = $1` returned a row (a NULL title matches none). */
    method SelectPaperByTitle(title: Option<string>) returns (found: bool)
      ensures found <==> title.Some? && TitleTaken(State(), title.value)
    {
      found := title.Some? && exists id :: id in researchResults && researchResults[id].title == title.value;
    }

    /** `SELECT MAX(reference_number) FROM research_results`, one row at a time. */
    method SelectMaxReference() returns (max: Option<int>)
      ensures max == MaxReferenceNumber(State())
    {
      max := None;
      var left := researchResults.Keys;
      while left != {}
        invariant left <= researchResults.Keys
        invariant max.Some? ==> max.value in RefSet(State())
        invariant forall id :: id in researchResults && id !in left && researchResults[id].referenceNumber.Some? ==>
          max.Some? && researchResults[id].referenceNumber.value <= max.value
        decreases left
      {
        ghost var some := PickElement(left);
        var k :| k in left;
        var r := researchResults[k].referenceNumber;
        if r.Some? && (max.None? || r.value > max.value) {
          max := r;
        }
        left := left - {k};
      }
      if max.Some? {
        MaxOfIs(RefSet(State()), max.value);
      } else {
        assert RefSet(State()) == {};
      }
    }

    /** `INSERT INTO research_results (...) VALUES (...) RETURNING id`. */
    method InsertPaper(p: Paper) returns (id: Id, err: Option<SqlError>)
      modifies this
      ensures match InsertPaperRow(old(State()), p)
              case Inserted(t, i) => err == None && id == i && State() == t
              case Refused(e) => err == Some(e) && State() == old(State())
    {
      var titleTaken := exists k :: k in researchResults && researchResults[k].title == p.title;
      var refTaken := p.referenceNumber.Some? &&
        exists k :: k in researchResults && researchResults[k].referenceNumber == p.referenceNumber;
      assert refTaken <==> p.referenceNumber.Some? && p.referenceNumber.value in RefSet(State());
      if titleTaken || refTaken {
        id, err := 0, Some(UniqueViolation);
      } else {
        id, err := serials.paper, None;
        researchResults := researchResults[id := p];
        serials := serials.(paper := id + 1);
      }
    }

    /** `SELECT id FROM themes WHERE name = $1` (or `subthemes`). */
    method SelectEntityId(table: EntityTable, name: Option<string>) returns (id: Option<Id>)
      requires NamesUnique(EntitiesOf(State(), table))
      ensures id == FindEntityId(EntitiesOf(State(), table), name)
    {
      var m := EntitiesOf(State(), table);
      if name.Some? && exists k :: k in m && m[k].name == name.value {
        var k :| k in m && m[k].name == name.value;
        id := Some(k);
      } else {
        id := None;
      }
    }

    /** `SELECT id FROM codes WHERE name = $1`. */
    method SelectCodeId(name: Option<string>) returns (id: Option<Id>)
      requires CodeNamesUnique(codes)
      ensures id == FindCodeId(codes, name)
    {
      if name.Some? && exists k :: k in codes && codes[k] == name.value {
        var k :| k in codes && codes[k] == name.value;
        id := Some(k);
      } else {
        id := None;
      }
    }

    /** `INSERT INTO themes (name, description) VALUES ($1, $2) RETURNING id` (or `subthemes`). */
    method InsertEntity(table: EntityTable, name: Option<string>, description: Option<string>) returns (id: Id, err: Option<SqlError>)
      modifies this
      ensures match InsertEntityRow(old(State()), table, name, description)
              case Inserted(t, i) => err == None && id == i && State() == t
              case Refused(e) => err == Some(e) && State() == old(State())
    {
      var m := EntitiesOf(State(), table);
      if name.None? {
        id, err := 0, Some(NotNullViolation);
      } else if exists k :: k in m && m[k].name == name.value {
        id, err := 0, Some(UniqueViolation);
      } else {
        err := None;
        match table
        case ThemesTable =>
          id := serials.theme;
          themes := themes[id := Entity(name.value, description)];
          serials := serials.(theme := id + 1);
        case SubthemesTable =>
          id := serials.subtheme;
          subthemes := subthemes[id := Entity(name.value, description)];
          serials := serials.(subtheme := id + 1);
      }
    }

    /** `INSERT INTO codes (name) VALUES ($1) RETURNING id`. */
    method InsertCode(name: Option<string>) returns (id: Id, err: Option<SqlError>)
      modifies this
      ensures match InsertCodeRow(old(State()), name)
              case Inserted(t, i) => err == None && id == i && State() == t
              case Refused(e) => err == Some(e) && State() == old(State())
    {
      if name.None? {
        id, err := 0, Some(NotNullViolation);
      } else if exists k :: k in codes && codes[k] == name.value {
        id, err := 0, Some(UniqueViolation);
      } else {
        id, err := serials.code, None;
        codes := codes[id := name.value];
        serials := serials.(code := id + 1);
      }
    }

    /** `INSERT INTO theme_subthemes (theme_id, subtheme_id) VALUES ($1, $2)`. */
    method InsertThemeSubtheme(th: Id, st: Id) returns (err: Option<SqlError>)
      modifies this
      ensures match InsertThemeSubthemeRow(old(State()), th, st)
              case Done(t) => err == None && State() == t
              case Failed(e) => err == Some(e) && State() == old(State())
    {
      if th !in themes || st !in subthemes {
        err := Some(ForeignKeyViolation);
      } else if (th, st) in themeSubthemes {
        err := Some(UniqueViolation);
      } else {
        err := None;
        themeSubthemes := themeSubthemes + {(th, st)};
      }
    }

    /** `INSERT INTO article_subthemes (article_id, subtheme_id) VALUES ($1, $2)`. */
    method InsertArticleSubtheme(a: Id, st: Id) returns (err: Option<SqlError>)
      modifies this
      ensures match InsertArticleSubthemeRow(old(State()), a, st)
              case Done(t) => err == None && State() == t
              case Failed(e) => err == Some(e) && State() == old(State())
    {
      if a !in researchResults || st !in subthemes {
        err := Some(ForeignKeyViolation);
      } else if (a, st) in articleSubthemes {
        err := Some(UniqueViolation);
      } else {
        err := None;
        articleSubthemes := articleSubthemes + {(a, st)};
      }
    }

    /** `INSERT INTO article_codes (article_id, code_id, subtheme_id, evidence_quote) VALUES (...)`. */
    method InsertArticleCode(a: Id, c: Id, st: Id, quote: Option<string>) returns (err: Option<SqlError>)
      modifies this
      ensures match InsertArticleCodeRow(old(State()), a, c, st, quote)
              case Done(t) => err == None && State() == t
              case Failed(e) => err == Some(e) && State() == old(State())
    {
      if a !in researchResults || c !in codes || st !in subthemes {
        err := Some(ForeignKeyViolation);
      } else if (a, c, st) in articleCodes {
        err := Some(UniqueViolation);
      } else {
        err := None;
        articleCodes := articleCodes[(a, c, st) := quote];
      }
    }
}
}
