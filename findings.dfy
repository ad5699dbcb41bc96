/**
 * The re-pointing UPDATEs of the consolidation scripts, written with their
 * NOT EXISTS subquery correlated with the row being updated, as their
 * comments intend. As written (the statements the rest of the model uses),
 * the subquery refers to its own row, so links move to the primary only
 * when the primary has no link at all in that table and the DELETE that
 * follows drops the rest. The lemmas here prove the intended behaviour of
 * the correlated statements and exhibit a store where the statements as
 * written lose links the correlated ones keep.
 */
module Findings {
  import opened Wrappers
  import opened Schema
  import opened Statements
  import opened Merge
  import opened MergeProperties

  /** One theme merge with the correlated re-pointing. */
  function MergeOneThemeCorrelated(t: Tables, p: Id, m: Id): Option<Tables> {
    match RepointThemeLinksCorrelated(t, p, m)
    case Failed(_) => None
    case Done(t1) => Some(DeleteTheme(DeleteThemeLinks(t1, m), m))
  }

  /** One subtheme merge with the correlated re-pointing of both link tables. */
  function MergeOneSubthemeCorrelated(t: Tables, p: Id, m: Id): Option<Tables> {
    match RepointSubthemeThemeLinksCorrelated(t, p, m)
    case Failed(_) => None
    case Done(t1) =>
      match RepointSubthemeArticleLinksCorrelated(t1, p, m)
      case Failed(_) => None
      case Done(t2) =>
        Some(DeleteSubtheme(DeleteSubthemeArticleLinks(DeleteSubthemeThemeLinks(t2, m), m), m))
  }

  /**
   * The correlated re-pointing UPDATEs never violate a primary key: no merge
   * can create a duplicate (theme, subtheme) or (article, subtheme) pair.
   */
  lemma RepointCorrelatedNeverCollides(t: Tables, p: Id, m: Id)
    ensures RepointThemeLinksCorrelated(t, p, m) != Failed(UniqueViolation)
    ensures RepointSubthemeThemeLinksCorrelated(t, p, m) != Failed(UniqueViolation)
    ensures RepointSubthemeArticleLinksCorrelated(t, p, m) != Failed(UniqueViolation)
  {
    var ts := t.themeSubthemes;
    var sel1 := set l | l in ts && l.0 == m && (p, l.1) !in ts;
    forall l | l in SetFirst(sel1, p) ensures l !in ts {
      var l' :| l' in sel1 && l == (p, l'.1);
    }
    var sel2 := set l | l in ts && l.1 == m && (l.0, p) !in ts;
    forall l | l in SetSecond(sel2, p) ensures l !in ts {
      var l' :| l' in sel2 && l == (l'.0, p);
    }
    var arts := t.articleSubthemes;
    var sel3 := set l | l in arts && l.1 == m && (l.0, p) !in arts;
    forall l | l in SetSecond(sel3, p) ensures l !in arts {
      var l' :| l' in sel3 && l == (l'.0, p);
    }
  }

  /**
   * A correlated theme merge fails exactly when the primary row does not
   * exist and the merged theme has a subtheme the primary lacks.
   */
  lemma ThemeMergeFailureCorrelated(t: Tables, p: Id, m: Id)
    ensures MergeOneThemeCorrelated(t, p, m).None? <==>
      p !in t.themes && exists s :: (m, s) in t.themeSubthemes && (p, s) !in t.themeSubthemes
  {
    RepointCorrelatedNeverCollides(t, p, m);
    var ts := t.themeSubthemes;
    var sel := set l | l in ts && l.0 == m && (p, l.1) !in ts;
    if exists s :: (m, s) in ts && (p, s) !in ts {
      var s :| (m, s) in ts && (p, s) !in ts;
      assert (m, s) in sel;
    }
    if sel != {} {
      var l :| l in sel;
      assert (m, l.1) in ts && (p, l.1) !in ts;
    }
  }

  /**
   * Merging `m` into `p` with the correlated statement: the primary ends up
   * with the union of both themes' subthemes, the merged theme has no link
   * left, and every other theme's links are untouched.
   */
  lemma ThemeMergeLinksCorrelated(t: Tables, p: Id, m: Id)
    requires p != m && MergeOneThemeCorrelated(t, p, m).Some?
    ensures forall th, s :: (th, s) in MergeOneThemeCorrelated(t, p, m).value.themeSubthemes <==>
      th != m && if th == p then (p, s) in t.themeSubthemes || (m, s) in t.themeSubthemes
                 else (th, s) in t.themeSubthemes
    ensures SubthemesOf(MergeOneThemeCorrelated(t, p, m).value.themeSubthemes, p) ==
      SubthemesOf(t.themeSubthemes, p) + SubthemesOf(t.themeSubthemes, m)
  {
    var ts := t.themeSubthemes;
    var ts2 := MergeOneThemeCorrelated(t, p, m).value.themeSubthemes;
    var sel := set l | l in ts && l.0 == m && (p, l.1) !in ts;
    forall th, s ensures (th, s) in ts2 <==>
      th != m && if th == p then (p, s) in ts || (m, s) in ts else (th, s) in ts
    {
      if th == p && (m, s) in ts && (p, s) !in ts {
        assert (m, s) in sel;
        assert (p, s) in SetFirst(sel, p);
      }
    }
    forall s ensures s in SubthemesOf(ts2, p) <==> s in SubthemesOf(ts, p) || s in SubthemesOf(ts, m) {
      if s in SubthemesOf(ts, p) { assert (p, s) in ts2; }
      if s in SubthemesOf(ts, m) { assert (p, s) in ts2; }
    }
  }

  /** One correlated theme merge keeps every constraint and changes only `themes` and `theme_subthemes`. */
  lemma MergeOneThemeCorrelatedValid(t: Tables, p: Id, m: Id)
    requires Valid(t) && MergeOneThemeCorrelated(t, p, m).Some?
    ensures Valid(MergeOneThemeCorrelated(t, p, m).value)
    ensures MergeOneThemeCorrelated(t, p, m).value ==
      t.(themes := t.themes - {m}, themeSubthemes := MergeOneThemeCorrelated(t, p, m).value.themeSubthemes)
  {
    var t2 := MergeOneThemeCorrelated(t, p, m).value;
    var ts := t.themeSubthemes;
    forall l | l in t2.themeSubthemes ensures l.0 in t2.themes && l.1 in t2.subthemes {
      if l !in ts {
        var sel := set l | l in ts && l.0 == m && (p, l.1) !in ts;
        assert l in SetFirst(sel, p);
        var l' :| l' in sel && l == (p, l'.1);
      }
    }
  }

  /** The correlated guard selects some row exactly when some owner of `m` lacks `p`. */
  lemma SelectsSome(links: set<(Id, Id)>, p: Id, m: Id)
    ensures (set l | l in links && l.1 == m && (l.0, p) !in links) != {} <==>
      exists x :: (x, m) in links && (x, p) !in links
  {
    var sel := set l | l in links && l.1 == m && (l.0, p) !in links;
    if exists x :: (x, m) in links && (x, p) !in links {
      var x :| (x, m) in links && (x, p) !in links;
      assert (x, m) in sel;
    }
    if sel != {} {
      var l :| l in sel;
      assert (l.0, m) in links && (l.0, p) !in links;
    }
  }

  /**
   * A correlated subtheme merge fails exactly when the primary row does not
   * exist and, in one of the two link tables, some theme or article has the
   * merged subtheme but not the primary.
   */
  lemma SubthemeMergeFailureCorrelated(t: Tables, p: Id, m: Id)
    ensures MergeOneSubthemeCorrelated(t, p, m).None? <==>
      p !in t.subthemes &&
      ((exists x :: (x, m) in t.themeSubthemes && (x, p) !in t.themeSubthemes) ||
       (exists x :: (x, m) in t.articleSubthemes && (x, p) !in t.articleSubthemes))
  {
    RepointCorrelatedNeverCollides(t, p, m);
    var ts, arts := t.themeSubthemes, t.articleSubthemes;
    SelectsSome(ts, p, m);
    var t1 := RepointSubthemeThemeLinksCorrelated(t, p, m);
    if t1.Done? {
      RepointCorrelatedNeverCollides(t1.tables, p, m);
      assert t1.tables.articleSubthemes == arts && t1.tables.subthemes == t.subthemes;
      SelectsSome(arts, p, m);
    }
  }

  /**
   * Merging subtheme `m` into `p` with the correlated statements, in each
   * link table independently: every theme (article) that had `m` or `p` now
   * has `p`, no row references `m`, and other rows are untouched.
   */
  lemma SubthemeMergeLinksCorrelated(t: Tables, p: Id, m: Id)
    requires p != m && MergeOneSubthemeCorrelated(t, p, m).Some?
    ensures forall x, s :: (x, s) in MergeOneSubthemeCorrelated(t, p, m).value.themeSubthemes <==>
      s != m && if s == p then (x, p) in t.themeSubthemes || (x, m) in t.themeSubthemes
                else (x, s) in t.themeSubthemes
    ensures forall x, s :: (x, s) in MergeOneSubthemeCorrelated(t, p, m).value.articleSubthemes <==>
      s != m && if s == p then (x, p) in t.articleSubthemes || (x, m) in t.articleSubthemes
                else (x, s) in t.articleSubthemes
  {
    var ts, arts := t.themeSubthemes, t.articleSubthemes;
    var t1 := RepointSubthemeThemeLinksCorrelated(t, p, m).tables;
    var t3 := MergeOneSubthemeCorrelated(t, p, m).value;
    assert t1.articleSubthemes == arts;
    var sel1 := set l | l in ts && l.1 == m && (l.0, p) !in ts;
    var sel2 := set l | l in arts && l.1 == m && (l.0, p) !in arts;
    forall x, s ensures (x, s) in t3.themeSubthemes <==>
      s != m && if s == p then (x, p) in ts || (x, m) in ts else (x, s) in ts
    {
      if s == p && (x, m) in ts && (x, p) !in ts {
        assert (x, m) in sel1;
        assert (x, p) in SetSecond(sel1, p);
      }
    }
    forall x, s ensures (x, s) in t3.articleSubthemes <==>
      s != m && if s == p then (x, p) in arts || (x, m) in arts else (x, s) in arts
    {
      if s == p && (x, m) in arts && (x, p) !in arts {
        assert (x, m) in sel2;
        assert (x, p) in SetSecond(sel2, p);
      }
    }
  }

  /**
   * One correlated subtheme merge keeps every constraint, removes the
   * subtheme row and its evidence rows, and leaves themes, papers and codes alone.
   */
  lemma MergeOneSubthemeCorrelatedValid(t: Tables, p: Id, m: Id)
    requires Valid(t) && MergeOneSubthemeCorrelated(t, p, m).Some?
    ensures Valid(MergeOneSubthemeCorrelated(t, p, m).value)
    ensures MergeOneSubthemeCorrelated(t, p, m).value.subthemes == t.subthemes - {m}
    ensures MergeOneSubthemeCorrelated(t, p, m).value.articleCodes ==
      t.articleCodes - EvidenceOf(t.articleCodes, m)
    ensures MergeOneSubthemeCorrelated(t, p, m).value.themes == t.themes
    ensures MergeOneSubthemeCorrelated(t, p, m).value.researchResults == t.researchResults
    ensures MergeOneSubthemeCorrelated(t, p, m).value.codes == t.codes
  {
    var t1 := RepointSubthemeThemeLinksCorrelated(t, p, m).tables;
    var t2 := RepointSubthemeArticleLinksCorrelated(t1, p, m).tables;
    var t3 := MergeOneSubthemeCorrelated(t, p, m).value;
    var ts, arts := t.themeSubthemes, t.articleSubthemes;
    assert t1.articleSubthemes == arts && t1.subthemes == t.subthemes && t2.themeSubthemes == t1.themeSubthemes;
    forall l | l in t3.themeSubthemes ensures l.0 in t3.themes && l.1 in t3.subthemes {
      if l !in ts {
        var sel := set l | l in ts && l.1 == m && (l.0, p) !in ts;
        assert l in SetSecond(sel, p);
        var l' :| l' in sel && l == (l'.0, p);
      }
    }
    forall l | l in t3.articleSubthemes ensures l.0 in t3.researchResults && l.1 in t3.subthemes {
      if l !in arts {
        var sel := set l | l in arts && l.1 == m && (l.0, p) !in arts;
        assert l in SetSecond(sel, p);
        var l' :| l' in sel && l == (l'.0, p);
      }
    }
  }

  /**
   * Two themes, two subthemes and two papers: theme 1 has subtheme 10, theme
   * 2 has subtheme 11; paper 5 is filed under subtheme 10, paper 6 under 11.
   */
  function Witness(): Tables {
    Tables(
      map[5 := Paper("A", None, None, None, None, None, None, Some(1)),
          6 := Paper("B", None, None, None, None, None, None, Some(2))],
      map[1 := Entity("T1", None), 2 := Entity("T2", None)],
      map[10 := Entity("S10", None), 11 := Entity("S11", None)],
      map[],
      {(1, 10), (2, 11)},
      {(5, 10), (6, 11)},
      map[],
      Serials(7, 3, 12, 1))
  }

  /** The witness store satisfies every constraint of the schema. */
  lemma WitnessValid()
    ensures Valid(Witness())
  {
    var w := Witness();
    assert PapersUnique(w.researchResults) by {
      forall i, j | i in w.researchResults && j in w.researchResults && i != j
        ensures w.researchResults[i].title != w.researchResults[j].title
      {
        assert i == 5 || i == 6;
      }
    }
  }

  /** Theme 1's and theme 2's subthemes in the witness store. */
  lemma WitnessThemeLinks()
    ensures SubthemesOf(Witness().themeSubthemes, 1) == {10}
    ensures SubthemesOf(Witness().themeSubthemes, 2) == {11}
    ensures HasFirst(Witness().themeSubthemes, 1)
    ensures HasSecond(Witness().themeSubthemes, 10) && HasSecond(Witness().articleSubthemes, 10)
  {
    var ts := Witness().themeSubthemes;
    assert (1, 10) in ts && (2, 11) in ts && (5, 10) in Witness().articleSubthemes;
    forall s ensures s in SubthemesOf(ts, 1) <==> s == 10 {
      if s in SubthemesOf(ts, 1) { var l :| l in ts && l.0 == 1 && l.1 == s; }
    }
    forall s ensures s in SubthemesOf(ts, 2) <==> s == 11 {
      if s in SubthemesOf(ts, 2) { var l :| l in ts && l.0 == 2 && l.1 == s; }
    }
  }

  /**
   * Merging theme 2 into theme 1 as written leaves theme 1 with subtheme 10
   * only: the link to subtheme 11 is deleted. The correlated statement gives
   * theme 1 both subthemes.
   */
  lemma ThemeMergeLosesLinks()
    ensures MergeOneTheme(Witness(), 1, 2).Some?
    ensures SubthemesOf(MergeOneTheme(Witness(), 1, 2).value.themeSubthemes, 1) == {10}
    ensures MergeOneThemeCorrelated(Witness(), 1, 2).Some?
    ensures SubthemesOf(MergeOneThemeCorrelated(Witness(), 1, 2).value.themeSubthemes, 1) == {10, 11}
  {
    var w := Witness();
    WitnessThemeLinks();
    ThemeMergeFailure(w, 1, 2);
    ThemeMergeLinks(w, 1, 2);
    ThemeMergeFailureCorrelated(w, 1, 2);
    ThemeMergeLinksCorrelated(w, 1, 2);
  }

  /**
   * Merging subtheme 11 into subtheme 10 as written drops theme 2's and
   * paper 6's links: afterwards only theme 1 and paper 5 have subtheme 10.
   */
  lemma SubthemeMergeLosesLinks()
    ensures MergeOneSubtheme(Witness(), 10, 11).Some?
    ensures MergeOneSubtheme(Witness(), 10, 11).value.themeSubthemes == {(1, 10)}
    ensures MergeOneSubtheme(Witness(), 10, 11).value.articleSubthemes == {(5, 10)}
  {
    var w := Witness();
    WitnessThemeLinks();
    SubthemeMergeFailure(w, 10, 11);
    SubthemeMergeLinks(w, 10, 11);
    var r := MergeOneSubtheme(w, 10, 11).value;
    assert r.themeSubthemes == {(1, 10)} by {
      forall l | l in r.themeSubthemes ensures l == (1, 10) {
        assert (l.0, l.1) in r.themeSubthemes;
      }
      assert (1, 10) in r.themeSubthemes;
    }
    assert r.articleSubthemes == {(5, 10)} by {
      forall l | l in r.articleSubthemes ensures l == (5, 10) {
        assert (l.0, l.1) in r.articleSubthemes;
      }
      assert (5, 10) in r.articleSubthemes;
    }
  }

  /** The same merge with the correlated statements keeps theme 2's and paper 6's links. */
  lemma SubthemeMergeKeepsLinksCorrelated()
    ensures MergeOneSubthemeCorrelated(Witness(), 10, 11).Some?
    ensures MergeOneSubthemeCorrelated(Witness(), 10, 11).value.themeSubthemes == {(1, 10), (2, 10)}
    ensures MergeOneSubthemeCorrelated(Witness(), 10, 11).value.articleSubthemes == {(5, 10), (6, 10)}
  {
    var w := Witness();
    SubthemeMergeFailureCorrelated(w, 10, 11);
    SubthemeMergeLinksCorrelated(w, 10, 11);
    var c := MergeOneSubthemeCorrelated(w, 10, 11).value;
    assert c.themeSubthemes == {(1, 10), (2, 10)} by {
      forall l | l in c.themeSubthemes ensures l == (1, 10) || l == (2, 10) {
        assert (l.0, l.1) in c.themeSubthemes;
      }
      assert (1, 10) in c.themeSubthemes && (2, 10) in c.themeSubthemes;
    }
    assert c.articleSubthemes == {(5, 10), (6, 10)} by {
      forall l | l in c.articleSubthemes ensures l == (5, 10) || l == (6, 10) {
        assert (l.0, l.1) in c.articleSubthemes;
      }
      assert (5, 10) in c.articleSubthemes && (6, 10) in c.articleSubthemes;
    }
  }
}
