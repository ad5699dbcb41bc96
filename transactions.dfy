/**
 * `mergeThemes` and `mergeSubthemes` as the scripts run them against the
 * store: per group BEGIN, the description update, the statements for each
 * merged id with `mergeCount` bumped after each, then COMMIT, or ROLLBACK on
 * the first failing statement. The recursive script returns the count; the
 * single-pass script runs the same statements and ignores it.
 */
module Transactions {
  import opened Wrappers
  import opened Schema
  import opened Statements
  import opened Merge
  import opened Database

  /** The statements for one merged theme; on failure the caller rolls back. */
  method MergeThemeInto(db: Store, p: Id, m: Id) returns (ok: bool)
    modifies db
    ensures ok <==> MergeOneTheme(old(db.State()), p, m).Some?
    ensures ok ==> db.State() == MergeOneTheme(old(db.State()), p, m).value
  {
    var err := db.RepointThemeLinks(p, m);
    ok := err.None?;
    if ok {
      db.DeleteThemeLinks(m);
      db.DeleteTheme(m);
    }
  }

  /** One group of `mergeThemes`, from BEGIN to COMMIT or ROLLBACK. */
  method MergeThemeGroup(db: Store, g: MergeGroup) returns (count: nat)
    requires !Skipped(g)
    modifies db
    ensures (db.State(), count) == ThemeGroup(old(db.State()), g)
  {
    var snapshot := db.Begin();
    db.UpdateThemeDescription(g.primaryId, g.primaryDescription);
    ghost var t1 := db.State();
    var ms := g.mergeIds.value;
    var failed := false;
    count := 0;
    while count < |ms| && !failed
      invariant 0 <= count <= |ms|
      invariant !failed ==>
        MergeThemeList(t1, g.primaryId, ms) ==
          Run(MergeThemeList(db.State(), g.primaryId, ms[count..]).result,
              count + MergeThemeList(db.State(), g.primaryId, ms[count..]).merged)
      invariant failed ==> MergeThemeList(t1, g.primaryId, ms) == Run(None, count)
      decreases |ms| - count, !failed
    {
      assert ms[count..][0] == ms[count] && ms[count..][1..] == ms[count + 1..];
      var ok := MergeThemeInto(db, g.primaryId, ms[count]);
      if ok {
        count := count + 1;
      } else {
        failed := true;
      }
    }
    if failed {
      db.Rollback(snapshot);
    } else {
      assert ms[count..] == [];
    }
  }

  /** `mergeThemes(consolidationGroups)`, returning `mergeCount`. */
  method MergeThemeGroups(db: Store, groups: seq<MergeGroup>) returns (mergeCount: nat)
    modifies db
    ensures (db.State(), mergeCount) == MergeThemes(old(db.State()), groups)
  {
    mergeCount := 0;
    ghost var t0 := db.State();
    for i := 0 to |groups|
      invariant MergeThemes(t0, groups) ==
        (MergeThemes(db.State(), groups[i..]).0, mergeCount + MergeThemes(db.State(), groups[i..]).1)
    {
      MergeThemesStep(db.State(), groups, i);
      var g := groups[i];
      if g.mergeIds.None? || |g.mergeIds.value| == 0 {
        continue;
      }
      var count := MergeThemeGroup(db, g);
      mergeCount := mergeCount + count;
    }
  }

  /** The statements for one merged subtheme; on failure the caller rolls back. */
  method MergeSubthemeInto(db: Store, p: Id, m: Id) returns (ok: bool)
    modifies db
    ensures ok <==> MergeOneSubtheme(old(db.State()), p, m).Some?
    ensures ok ==> db.State() == MergeOneSubtheme(old(db.State()), p, m).value
  {
    var err := db.RepointSubthemeThemeLinks(p, m);
    if err.None? {
      err := db.RepointSubthemeArticleLinks(p, m);
    }
    ok := err.None?;
    if ok {
      db.DeleteSubthemeThemeLinks(m);
      db.DeleteSubthemeArticleLinks(m);
      db.DeleteSubtheme(m);
    }
  }

  /** One group of `mergeSubthemes`, from BEGIN to COMMIT or ROLLBACK. */
  method MergeSubthemeGroup(db: Store, g: MergeGroup) returns (count: nat)
    requires !Skipped(g)
    modifies db
    ensures (db.State(), count) == SubthemeGroup(old(db.State()), g)
  {
    var snapshot := db.Begin();
    db.UpdateSubthemeDescription(g.primaryId, g.primaryDescription);
    ghost var t1 := db.State();
    var ms := g.mergeIds.value;
    var failed := false;
    count := 0;
    while count < |ms| && !failed
      invariant 0 <= count <= |ms|
      invariant !failed ==>
        MergeSubthemeList(t1, g.primaryId, ms) ==
          Run(MergeSubthemeList(db.State(), g.primaryId, ms[count..]).result,
              count + MergeSubthemeList(db.State(), g.primaryId, ms[count..]).merged)
      invariant failed ==> MergeSubthemeList(t1, g.primaryId, ms) == Run(None, count)
      decreases |ms| - count, !failed
    {
      assert ms[count..][0] == ms[count] && ms[count..][1..] == ms[count + 1..];
      var ok := MergeSubthemeInto(db, g.primaryId, ms[count]);
      if ok {
        count := count + 1;
      } else {
        failed := true;
      }
    }
    if failed {
      db.Rollback(snapshot);
    } else {
      assert ms[count..] == [];
    }
  }

  /** `mergeSubthemes(consolidationGroups)`, returning `mergeCount`. */
  method MergeSubthemeGroups(db: Store, groups: seq<MergeGroup>) returns (mergeCount: nat)
    modifies db
    ensures (db.State(), mergeCount) == MergeSubthemes(old(db.State()), groups)
  {
    mergeCount := 0;
    ghost var t0 := db.State();
    for i := 0 to |groups|
      invariant MergeSubthemes(t0, groups) ==
        (MergeSubthemes(db.State(), groups[i..]).0, mergeCount + MergeSubthemes(db.State(), groups[i..]).1)
    {
      MergeSubthemesStep(db.State(), groups, i);
      var g := groups[i];
      if g.mergeIds.None? || |g.mergeIds.value| == 0 {
        continue;
      }
      var count := MergeSubthemeGroup(db, g);
      mergeCount := mergeCount + count;
    }
  }

  /** `mergeThemes` over the groups from `i` on: group `i`, then the rest from its result. */
  lemma MergeThemesStep(t: Tables, groups: seq<MergeGroup>, i: nat)
    requires i < |groups|
    ensures MergeThemes(t, groups[i..]) ==
      (MergeThemes(ThemeGroup(t, groups[i]).0, groups[i + 1..]).0,
       ThemeGroup(t, groups[i]).1 + MergeThemes(ThemeGroup(t, groups[i]).0, groups[i + 1..]).1)
  {
    assert groups[i..][0] == groups[i] && groups[i..][1..] == groups[i + 1..];
  }

  /** `mergeSubthemes` over the groups from `i` on: group `i`, then the rest from its result. */
  lemma MergeSubthemesStep(t: Tables, groups: seq<MergeGroup>, i: nat)
    requires i < |groups|
    ensures MergeSubthemes(t, groups[i..]) ==
      (MergeSubthemes(SubthemeGroup(t, groups[i]).0, groups[i + 1..]).0,
       SubthemeGroup(t, groups[i]).1 + MergeSubthemes(SubthemeGroup(t, groups[i]).0, groups[i + 1..]).1)
  {
    assert groups[i..][0] == groups[i] && groups[i..][1..] == groups[i + 1..];
  }
}
