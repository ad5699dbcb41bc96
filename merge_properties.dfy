/**
 * What one merge and one merge group do to the store: the links the primary
 * takes over, the absence of primary-key collisions, the
 * preserved schema constraints, and the committed and rolled-back outcomes.
 */
module MergeProperties {
  import opened Wrappers
  import opened Schema
  import opened Statements
  import opened Merge

  // ------------------------------------------------------- single statements

  /**
   * The re-pointing UPDATEs never violate a primary key: rows move only onto
   * a primary that has no row in that table.
   */
  lemma RepointNeverCollides(t: Tables, p: Id, m: Id)
    ensures RepointThemeLinks(t, p, m) != Failed(UniqueViolation)
    ensures RepointSubthemeThemeLinks(t, p, m) != Failed(UniqueViolation)
    ensures RepointSubthemeArticleLinks(t, p, m) != Failed(UniqueViolation)
  {
    var ts, arts := t.themeSubthemes, t.articleSubthemes;
    if !HasFirst(ts, p) {
      forall l | l in SetFirst(RowsWithFirst(ts, m), p) ensures l !in ts {
        var l' :| l' in RowsWithFirst(ts, m) && l == (p, l'.1);
      }
    }
    if !HasSecond(ts, p) {
      forall l | l in SetSecond(RowsWithSecond(ts, m), p) ensures l !in ts {
        var l' :| l' in RowsWithSecond(ts, m) && l == (l'.0, p);
      }
    }
    if !HasSecond(arts, p) {
      forall l | l in SetSecond(RowsWithSecond(arts, m), p) ensures l !in arts {
        var l' :| l' in RowsWithSecond(arts, m) && l == (l'.0, p);
      }
    }
  }

  /**
   * A theme merge fails exactly when the primary has no subtheme, the merged
   * theme has one, and the primary row is missing (the foreign key rejects
   * the moved rows).
   */
  lemma ThemeMergeFailure(t: Tables, p: Id, m: Id)
    ensures MergeOneTheme(t, p, m).None? <==>
      !HasFirst(t.themeSubthemes, p) && HasFirst(t.themeSubthemes, m) && p !in t.themes
  {
    RepointNeverCollides(t, p, m);
    var ts := t.themeSubthemes;
    if HasFirst(ts, m) {
      var l :| l in ts && l.0 == m;
      assert l in RowsWithFirst(ts, m);
    }
  }

  /**
   * Merging `m` into `p`: the primary keeps its own subthemes when it has
   * any and otherwise takes over the merged theme's; the merged theme has no
   * link left, and every other theme's links are untouched.
   */
  lemma ThemeMergeLinks(t: Tables, p: Id, m: Id)
    requires p != m && MergeOneTheme(t, p, m).Some?
    ensures forall th, s :: (th, s) in MergeOneTheme(t, p, m).value.themeSubthemes <==>
      th != m &&
      if th == p then
        (if HasFirst(t.themeSubthemes, p) then (p, s) in t.themeSubthemes else (m, s) in t.themeSubthemes)
      else (th, s) in t.themeSubthemes
    ensures SubthemesOf(MergeOneTheme(t, p, m).value.themeSubthemes, p) ==
      if HasFirst(t.themeSubthemes, p) then SubthemesOf(t.themeSubthemes, p) else SubthemesOf(t.themeSubthemes, m)
  {
    var ts := t.themeSubthemes;
    var ts2 := MergeOneTheme(t, p, m).value.themeSubthemes;
    forall th, s ensures (th, s) in ts2 <==>
      th != m && if th == p then (if HasFirst(ts, p) then (p, s) in ts else (m, s) in ts) else (th, s) in ts
    {
      if !HasFirst(ts, p) && th == p && (m, s) in ts {
        assert (m, s) in RowsWithFirst(ts, m);
        assert (p, s) in SetFirst(RowsWithFirst(ts, m), p);
      }
    }
    var q := if HasFirst(ts, p) then p else m;
    forall s ensures s in SubthemesOf(ts2, p) <==> s in SubthemesOf(ts, q) {
      if s in SubthemesOf(ts, q) { assert (p, s) in ts2; }
      if s in SubthemesOf(ts2, p) { assert (q, s) in ts; }
    }
  }

  /** One theme merge keeps every constraint and changes only `themes` and `theme_subthemes`. */
  lemma MergeOneThemeValid(t: Tables, p: Id, m: Id)
    requires Valid(t) && MergeOneTheme(t, p, m).Some?
    ensures Valid(MergeOneTheme(t, p, m).value)
    ensures MergeOneTheme(t, p, m).value.themes == t.themes - {m}
    ensures MergeOneTheme(t, p, m).value ==
      t.(themes := t.themes - {m}, themeSubthemes := MergeOneTheme(t, p, m).value.themeSubthemes)
  {
    var t2 := MergeOneTheme(t, p, m).value;
    var ts := t.themeSubthemes;
    forall l | l in t2.themeSubthemes ensures l.0 in t2.themes && l.1 in t2.subthemes {
      if l !in ts {
        assert l in SetFirst(RowsWithFirst(ts, m), p);
        var l' :| l' in RowsWithFirst(ts, m) && l == (p, l'.1);
      }
    }
  }

  /**
   * A run of theme merges that fails at index `k` after the first `k`
   * succeeded: nothing to commit, and the `k` merges before it counted.
   */
  lemma {:induction false} ThemeListFailsAt(t: Tables, p: Id, ms: seq<Id>, k: nat)
    requires k < |ms| && MergeThemeList(t, p, ms[..k]).result.Some?
    requires MergeOneTheme(MergeThemeList(t, p, ms[..k]).result.value, p, ms[k]).None?
    ensures MergeThemeList(t, p, ms) == Run(None, k)
    decreases k
  {
    if k > 0 {
      var t1 := MergeOneTheme(t, p, ms[0]).value;
      assert ms[..k][1..] == ms[1..][..k - 1];
      ThemeListFailsAt(t1, p, ms[1..], k - 1);
    }
  }

  /**
   * A theme group whose merge of `mergeIds[k]` fails: the group rolls back
   * to the store before it, yet counts the `k` merges before the failure.
   */
  lemma ThemeGroupFailsAt(t: Tables, g: MergeGroup, k: nat)
    requires !Skipped(g) && k < |g.mergeIds.value|
    requires var t1 := SetThemeDescription(t, g.primaryId, g.primaryDescription);
      MergeThemeList(t1, g.primaryId, g.mergeIds.value[..k]).result.Some?
      && MergeOneTheme(MergeThemeList(t1, g.primaryId, g.mergeIds.value[..k]).result.value,
                       g.primaryId, g.mergeIds.value[k]).None?
    ensures ThemeGroup(t, g) == (t, k)
  {
    ThemeListFailsAt(SetThemeDescription(t, g.primaryId, g.primaryDescription), g.primaryId, g.mergeIds.value, k);
  }

  /**
   * The subthemes of the first theme in `xs` that has any: what the primary
   * holds after merging the rest of `xs` into the first, since a theme keeps
   * its own links and takes over a merged theme's only while it has none.
   */
  function FirstLinked(links: set<(Id, Id)>, xs: seq<Id>): set<Id>
    decreases |xs|
  {
    if xs == [] then {}
    else if HasFirst(links, xs[0]) then SubthemesOf(links, xs[0])
    else FirstLinked(links, xs[1..])
  }

  /** After a committed run of theme merges, the primary holds the subthemes of the first of it and the merged themes that had any. */
  lemma {:induction false} ThemeListLinks(t: Tables, p: Id, ms: seq<Id>)
    requires p !in ms && MergeThemeList(t, p, ms).result.Some?
    ensures SubthemesOf(MergeThemeList(t, p, ms).result.value.themeSubthemes, p) ==
      FirstLinked(t.themeSubthemes, [p] + ms)
    decreases |ms|
  {
    var ts := t.themeSubthemes;
    if ms != [] {
      var m := ms[0];
      var t1 := MergeOneTheme(t, p, m).value;
      var ts1 := t1.themeSubthemes;
      ThemeListLinks(t1, p, ms[1..]);
      ThemeMergeLinks(t, p, m);
      assert ([p] + ms)[1..] == ms && ms[1..] == ([p] + ms[1..])[1..];
      if HasFirst(ts, p) || HasFirst(ts, m) {
        var q := if HasFirst(ts, p) then p else m;
        var l :| l in ts && l.0 == q;
        assert (p, l.1) in ts1;
      } else {
        assert ts1 == ts by {
          forall l | l in ts1 ensures l in ts { assert (l.0, l.1) in ts1; }
          forall l | l in ts ensures l in ts1 { assert (l.0, l.1) in ts; }
        }
        assert FirstLinked(ts, [p] + ms) == FirstLinked(ts, ms[1..]);
      }
    }
  }

  /** A committed run of theme merges: every merged row gone, every other row as before, constraints kept. */
  lemma {:induction false} ThemeListCommitted(t: Tables, p: Id, ms: seq<Id>)
    requires Valid(t) && MergeThemeList(t, p, ms).result.Some?
    ensures Valid(MergeThemeList(t, p, ms).result.value)
    ensures MergeThemeList(t, p, ms).result.value.themes == t.themes - set m | m in ms
    ensures MergeThemeList(t, p, ms).result.value ==
      t.(themes := t.themes - (set m | m in ms),
         themeSubthemes := MergeThemeList(t, p, ms).result.value.themeSubthemes)
    decreases |ms|
  {
    if ms != [] {
      MergeOneThemeValid(t, p, ms[0]);
      var t1 := MergeOneTheme(t, p, ms[0]).value;
      ThemeListCommitted(t1, p, ms[1..]);
      assert (set m | m in ms) == {ms[0]} + set m | m in ms[1..];
    }
  }

  /**
   * After a committed theme group: the merged ids are gone from `themes` and
   * from `theme_subthemes`, the primary (when it exists and is not itself
   * merged) carries the oracle's description, no other theme row changed,
   * only `themes` and `theme_subthemes` changed, every merged id was counted,
   * the constraints still hold, and the primary holds the subthemes of the
   * first of itself and the merged themes that had any.
   */
  lemma ThemeGroupCommitted(t: Tables, g: MergeGroup)
    requires Valid(t) && !Skipped(g)
    requires MergeThemeList(SetThemeDescription(t, g.primaryId, g.primaryDescription),
                            g.primaryId, g.mergeIds.value).result.Some?
    ensures var (t2, count) := ThemeGroup(t, g);
      && Valid(t2)
      && count == |g.mergeIds.value|
      && (forall m :: m in g.mergeIds.value ==> m !in t2.themes && !HasFirst(t2.themeSubthemes, m))
      && (g.primaryId in t.themes && g.primaryId !in g.mergeIds.value ==>
            g.primaryId in t2.themes && t2.themes[g.primaryId].description == g.primaryDescription
            && t2.themes[g.primaryId].name == t.themes[g.primaryId].name)
      && (forall x :: x != g.primaryId && x !in g.mergeIds.value ==>
            (x in t2.themes <==> x in t.themes) && (x in t2.themes ==> t2.themes[x] == t.themes[x]))
      && t2.themes.Keys <= t.themes.Keys
      && t2 == t.(themes := t2.themes, themeSubthemes := t2.themeSubthemes)
      && (g.primaryId !in g.mergeIds.value ==>
            SubthemesOf(t2.themeSubthemes, g.primaryId) ==
            FirstLinked(t.themeSubthemes, [g.primaryId] + g.mergeIds.value))
  {
    var t1 := SetThemeDescription(t, g.primaryId, g.primaryDescription);
    assert Valid(t1) by {
      assert forall i, j :: i in t1.themes && j in t1.themes && t1.themes[i].name == t1.themes[j].name ==>
        t.themes[i].name == t.themes[j].name;
    }
    ThemeListCommitted(t1, g.primaryId, g.mergeIds.value);
    if g.primaryId !in g.mergeIds.value {
      ThemeListLinks(t1, g.primaryId, g.mergeIds.value);
    }
  }

  /** `mergeThemes` keeps every constraint and changes only `themes` and `theme_subthemes`. */
  lemma {:induction false} MergeThemesValid(t: Tables, groups: seq<MergeGroup>)
    requires Valid(t)
    ensures Valid(MergeThemes(t, groups).0)
    ensures MergeThemes(t, groups).0.themes.Keys <= t.themes.Keys
    ensures MergeThemes(t, groups).0 ==
      t.(themes := MergeThemes(t, groups).0.themes, themeSubthemes := MergeThemes(t, groups).0.themeSubthemes)
    decreases |groups|
  {
    if groups != [] {
      var g := groups[0];
      if !Skipped(g) &&
         MergeThemeList(SetThemeDescription(t, g.primaryId, g.primaryDescription),
                        g.primaryId, g.mergeIds.value).result.Some? {
        ThemeGroupCommitted(t, g);
      }
      MergeThemesValid(ThemeGroup(t, g).0, groups[1..]);
    }
  }

  // ---------------------------------------------------------------- subthemes

  /**
   * A subtheme merge fails exactly when the primary row does not exist and,
   * in one of the two link tables, the primary has no row while the merged
   * subtheme has one.
   */
  lemma SubthemeMergeFailure(t: Tables, p: Id, m: Id)
    ensures MergeOneSubtheme(t, p, m).None? <==>
      p !in t.subthemes &&
      ((!HasSecond(t.themeSubthemes, p) && HasSecond(t.themeSubthemes, m)) ||
       (!HasSecond(t.articleSubthemes, p) && HasSecond(t.articleSubthemes, m)))
  {
    RepointNeverCollides(t, p, m);
    var ts, arts := t.themeSubthemes, t.articleSubthemes;
    if HasSecond(ts, m) {
      var l :| l in ts && l.1 == m;
      assert l in RowsWithSecond(ts, m);
    }
    var t1 := RepointSubthemeThemeLinks(t, p, m);
    if t1.Done? {
      RepointNeverCollides(t1.tables, p, m);
      assert t1.tables.articleSubthemes == arts && t1.tables.subthemes == t.subthemes;
      if HasSecond(arts, m) {
        var l :| l in arts && l.1 == m;
        assert l in RowsWithSecond(arts, m);
      }
    }
  }

  /**
   * Merging subtheme `m` into `p`, in each link table independently: the
   * merged subtheme's rows move to the primary only when the primary has no
   * row in that table, no row references `m` afterwards, and other rows are
   * untouched.
   */
  lemma SubthemeMergeLinks(t: Tables, p: Id, m: Id)
    requires p != m && MergeOneSubtheme(t, p, m).Some?
    ensures forall x, s :: (x, s) in MergeOneSubtheme(t, p, m).value.themeSubthemes <==>
      s != m &&
      if s == p then
        (if HasSecond(t.themeSubthemes, p) then (x, p) in t.themeSubthemes else (x, m) in t.themeSubthemes)
      else (x, s) in t.themeSubthemes
    ensures forall x, s :: (x, s) in MergeOneSubtheme(t, p, m).value.articleSubthemes <==>
      s != m &&
      if s == p then
        (if HasSecond(t.articleSubthemes, p) then (x, p) in t.articleSubthemes else (x, m) in t.articleSubthemes)
      else (x, s) in t.articleSubthemes
  {
    var ts, arts := t.themeSubthemes, t.articleSubthemes;
    var t1 := RepointSubthemeThemeLinks(t, p, m).tables;
    var t3 := MergeOneSubtheme(t, p, m).value;
    assert t1.articleSubthemes == arts;
    forall x, s ensures (x, s) in t3.themeSubthemes <==>
      s != m && if s == p then (if HasSecond(ts, p) then (x, p) in ts else (x, m) in ts) else (x, s) in ts
    {
      if !HasSecond(ts, p) && s == p && (x, m) in ts {
        assert (x, m) in RowsWithSecond(ts, m);
        assert (x, p) in SetSecond(RowsWithSecond(ts, m), p);
      }
    }
    forall x, s ensures (x, s) in t3.articleSubthemes <==>
      s != m && if s == p then (if HasSecond(arts, p) then (x, p) in arts else (x, m) in arts) else (x, s) in arts
    {
      if !HasSecond(arts, p) && s == p && (x, m) in arts {
        assert (x, m) in RowsWithSecond(arts, m);
        assert (x, p) in SetSecond(RowsWithSecond(arts, m), p);
      }
    }
  }

  /**
   * One subtheme merge keeps every constraint, removes the subtheme row, and
   * drops its `article_codes` evidence through the cascade instead of
   * re-pointing it; `themes`, papers and codes are untouched.
   */
  lemma MergeOneSubthemeValid(t: Tables, p: Id, m: Id)
    requires Valid(t) && MergeOneSubtheme(t, p, m).Some?
    ensures Valid(MergeOneSubtheme(t, p, m).value)
    ensures MergeOneSubtheme(t, p, m).value.subthemes == t.subthemes - {m}
    ensures MergeOneSubtheme(t, p, m).value.articleCodes == t.articleCodes - EvidenceOf(t.articleCodes, m)
    ensures MergeOneSubtheme(t, p, m).value ==
      t.(subthemes := t.subthemes - {m},
         themeSubthemes := MergeOneSubtheme(t, p, m).value.themeSubthemes,
         articleSubthemes := MergeOneSubtheme(t, p, m).value.articleSubthemes,
         articleCodes := t.articleCodes - EvidenceOf(t.articleCodes, m))
  {
    var t1 := RepointSubthemeThemeLinks(t, p, m).tables;
    var t2 := RepointSubthemeArticleLinks(t1, p, m).tables;
    var t3 := MergeOneSubtheme(t, p, m).value;
    var ts, arts := t.themeSubthemes, t.articleSubthemes;
    assert t1.articleSubthemes == arts && t1.subthemes == t.subthemes && t2.themeSubthemes == t1.themeSubthemes;
    forall l | l in t3.themeSubthemes ensures l.0 in t3.themes && l.1 in t3.subthemes {
      if l !in ts {
        assert l in SetSecond(RowsWithSecond(ts, m), p);
        var l' :| l' in RowsWithSecond(ts, m) && l == (l'.0, p);
      }
    }
    forall l | l in t3.articleSubthemes ensures l.0 in t3.researchResults && l.1 in t3.subthemes {
      if l !in arts {
        assert l in SetSecond(RowsWithSecond(arts, m), p);
        var l' :| l' in RowsWithSecond(arts, m) && l == (l'.0, p);
      }
    }
  }

  /**
   * A run of subtheme merges that fails at index `k` after the first `k`
   * succeeded: nothing to commit, and the `k` merges before it counted.
   */
  lemma {:induction false} SubthemeListFailsAt(t: Tables, p: Id, ms: seq<Id>, k: nat)
    requires k < |ms| && MergeSubthemeList(t, p, ms[..k]).result.Some?
    requires MergeOneSubtheme(MergeSubthemeList(t, p, ms[..k]).result.value, p, ms[k]).None?
    ensures MergeSubthemeList(t, p, ms) == Run(None, k)
    decreases k
  {
    if k > 0 {
      var t1 := MergeOneSubtheme(t, p, ms[0]).value;
      assert ms[..k][1..] == ms[1..][..k - 1];
      SubthemeListFailsAt(t1, p, ms[1..], k - 1);
    }
  }

  /**
   * A subtheme group whose merge of `mergeIds[k]` fails: the group rolls
   * back to the store before it, yet counts the `k` merges before the failure.
   */
  lemma SubthemeGroupFailsAt(t: Tables, g: MergeGroup, k: nat)
    requires !Skipped(g) && k < |g.mergeIds.value|
    requires var t1 := SetSubthemeDescription(t, g.primaryId, g.primaryDescription);
      MergeSubthemeList(t1, g.primaryId, g.mergeIds.value[..k]).result.Some?
      && MergeOneSubtheme(MergeSubthemeList(t1, g.primaryId, g.mergeIds.value[..k]).result.value,
                          g.primaryId, g.mergeIds.value[k]).None?
    ensures SubthemeGroup(t, g) == (t, k)
  {
    SubthemeListFailsAt(SetSubthemeDescription(t, g.primaryId, g.primaryDescription), g.primaryId, g.mergeIds.value, k);
  }

  /** The `article_codes` rows whose subtheme is not among `ms`. */
  function EvidenceKept(codes: map<(Id, Id, Id), Option<string>>, ms: seq<Id>): map<(Id, Id, Id), Option<string>> {
    map k | k in codes && k.2 !in ms :: codes[k]
  }

  /** A committed run of subtheme merges. */
  lemma {:induction false} SubthemeListCommitted(t: Tables, p: Id, ms: seq<Id>)
    requires Valid(t) && MergeSubthemeList(t, p, ms).result.Some?
    ensures Valid(MergeSubthemeList(t, p, ms).result.value)
    ensures MergeSubthemeList(t, p, ms).result.value ==
      t.(subthemes := t.subthemes - (set m | m in ms),
         themeSubthemes := MergeSubthemeList(t, p, ms).result.value.themeSubthemes,
         articleSubthemes := MergeSubthemeList(t, p, ms).result.value.articleSubthemes,
         articleCodes := EvidenceKept(t.articleCodes, ms))
    decreases |ms|
  {
    if ms == [] {
      assert EvidenceKept(t.articleCodes, ms) == t.articleCodes;
    } else {
      MergeOneSubthemeValid(t, p, ms[0]);
      var t1 := MergeOneSubtheme(t, p, ms[0]).value;
      SubthemeListCommitted(t1, p, ms[1..]);
      assert (set m | m in ms) == {ms[0]} + set m | m in ms[1..];
      EvidenceKeptStep(t.articleCodes, ms);
    }
  }

  lemma EvidenceKeptStep(codes: map<(Id, Id, Id), Option<string>>, ms: seq<Id>)
    requires ms != []
    ensures EvidenceKept(codes - EvidenceOf(codes, ms[0]), ms[1..]) == EvidenceKept(codes, ms)
  {
    var c1 := codes - EvidenceOf(codes, ms[0]);
    forall k ensures k in EvidenceKept(c1, ms[1..]) <==> k in EvidenceKept(codes, ms) {
      assert k.2 in ms <==> k.2 == ms[0] || k.2 in ms[1..];
    }
  }

  /**
   * After a committed subtheme group: the merged ids are gone from
   * `subthemes` and no row of either link table or of `article_codes`
   * references them (their evidence rows are deleted, never re-pointed), the
   * primary carries the oracle's description, no other subtheme row changed,
   * `themes` is untouched and the constraints still hold.
   */
  lemma SubthemeGroupCommitted(t: Tables, g: MergeGroup)
    requires Valid(t) && !Skipped(g)
    requires MergeSubthemeList(SetSubthemeDescription(t, g.primaryId, g.primaryDescription),
                               g.primaryId, g.mergeIds.value).result.Some?
    ensures var (t2, count) := SubthemeGroup(t, g);
      && Valid(t2)
      && count == |g.mergeIds.value|
      && (forall m :: m in g.mergeIds.value ==>
            m !in t2.subthemes && !HasSecond(t2.themeSubthemes, m) && !HasSecond(t2.articleSubthemes, m))
      && t2.articleCodes == EvidenceKept(t.articleCodes, g.mergeIds.value)
      && (g.primaryId in t.subthemes && g.primaryId !in g.mergeIds.value ==>
            g.primaryId in t2.subthemes && t2.subthemes[g.primaryId].description == g.primaryDescription
            && t2.subthemes[g.primaryId].name == t.subthemes[g.primaryId].name)
      && (forall x :: x != g.primaryId && x !in g.mergeIds.value ==>
            (x in t2.subthemes <==> x in t.subthemes) && (x in t2.subthemes ==> t2.subthemes[x] == t.subthemes[x]))
      && t2.subthemes.Keys <= t.subthemes.Keys
      && t2.themes == t.themes && t2.researchResults == t.researchResults && t2.codes == t.codes
  {
    var t1 := SetSubthemeDescription(t, g.primaryId, g.primaryDescription);
    assert Valid(t1) by {
      assert forall i, j :: i in t1.subthemes && j in t1.subthemes && t1.subthemes[i].name == t1.subthemes[j].name ==>
        t.subthemes[i].name == t.subthemes[j].name;
    }
    SubthemeListCommitted(t1, g.primaryId, g.mergeIds.value);
  }

  /** `mergeSubthemes` keeps every constraint and never touches `themes`, papers or codes. */
  lemma {:induction false} MergeSubthemesValid(t: Tables, groups: seq<MergeGroup>)
    requires Valid(t)
    ensures Valid(MergeSubthemes(t, groups).0)
    ensures MergeSubthemes(t, groups).0.subthemes.Keys <= t.subthemes.Keys
    ensures MergeSubthemes(t, groups).0.themes == t.themes
    ensures MergeSubthemes(t, groups).0.researchResults == t.researchResults
    ensures MergeSubthemes(t, groups).0.codes == t.codes
    decreases |groups|
  {
    if groups != [] {
      var g := groups[0];
      if !Skipped(g) &&
         MergeSubthemeList(SetSubthemeDescription(t, g.primaryId, g.primaryDescription),
                           g.primaryId, g.mergeIds.value).result.Some? {
        SubthemeGroupCommitted(t, g);
      }
      MergeSubthemesValid(SubthemeGroup(t, g).0, groups[1..]);
    }
  }
}
