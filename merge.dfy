/**
 * One merge group applied as one transaction: BEGIN, overwrite the primary's
 * description, for every merged id re-point its links, delete its leftover
 * links and delete its row (counting it), then COMMIT; the first failing
 * statement rolls the whole group back while the count keeps the merged ids
 * already counted. Shared by the recursive and the single-pass scripts.
 */
module Merge {
  import opened Wrappers
  import opened Schema
  import opened Statements

  /**
   * One element of `consolidation_groups`: the primary's id and consolidated
   * description, and the ids listed under `themes_to_merge` or
   * `subthemes_to_merge` (None when the list is missing).
   */
  datatype MergeGroup = MergeGroup(primaryId: Id, primaryDescription: Option<string>, mergeIds: Option<seq<Id>>)

  /** `if (!toMerge || toMerge.length === 0) continue;` */
  predicate Skipped(g: MergeGroup) {
    g.mergeIds.None? || |g.mergeIds.value| == 0
  }

  /** The state inside the transaction (None once a statement failed) and the merged ids counted. */
  datatype Run = Run(result: Option<Tables>, merged: nat)

  // ---------------------------------------------------------------- themes

  /** Re-point, delete the leftover links, delete the row, for one merged theme. */
  function MergeOneTheme(t: Tables, p: Id, m: Id): Option<Tables> {
    match RepointThemeLinks(t, p, m)
    case Failed(_) => None
    case Done(t1) => Some(DeleteTheme(DeleteThemeLinks(t1, m), m))
  }

  /** The inner loop over `themes_to_merge`, stopping at the first failure. */
  function MergeThemeList(t: Tables, p: Id, ms: seq<Id>): (r: Run)
    ensures r.merged <= |ms|
    ensures r.result.Some? <==> r.merged == |ms|
    decreases |ms|
  {
    if ms == [] then Run(Some(t), 0)
    else match MergeOneTheme(t, p, ms[0])
      case None => Run(None, 0)
      case Some(t1) =>
        var rest := MergeThemeList(t1, p, ms[1..]);
        Run(rest.result, rest.merged + 1)
  }

  /** One group of `mergeThemes`: skipped, committed or rolled back to `t`. */
  function ThemeGroup(t: Tables, g: MergeGroup): (r: (Tables, nat))
    ensures Skipped(g) ==> r == (t, 0)
    ensures !Skipped(g) ==> r.1 <= |g.mergeIds.value|
    ensures r.1 == 0 ==> r.0 == t
    ensures !Skipped(g) && r.1 < |g.mergeIds.value| ==> r.0 == t
  {
    if Skipped(g) then (t, 0)
    else
      var run := MergeThemeList(SetThemeDescription(t, g.primaryId, g.primaryDescription),
                                g.primaryId, g.mergeIds.value);
      (if run.result.Some? then run.result.value else t, run.merged)
  }

  /** `mergeThemes(consolidationGroups)`: the final state and `mergeCount`. */
  function MergeThemes(t: Tables, groups: seq<MergeGroup>): (r: (Tables, nat))
    ensures r.1 == 0 ==> r.0 == t
    decreases |groups|
  {
    if groups == [] then (t, 0)
    else
      var (t1, c1) := ThemeGroup(t, groups[0]);
      var (t2, c2) := MergeThemes(t1, groups[1..]);
      (t2, c1 + c2)
  }

  // ------------------------------------------------------------- subthemes

  /** Re-point both link tables, delete the leftovers, delete the row, for one merged subtheme. */
  function MergeOneSubtheme(t: Tables, p: Id, m: Id): Option<Tables> {
    match RepointSubthemeThemeLinks(t, p, m)
    case Failed(_) => None
    case Done(t1) =>
      match RepointSubthemeArticleLinks(t1, p, m)
      case Failed(_) => None
      case Done(t2) =>
        Some(DeleteSubtheme(DeleteSubthemeArticleLinks(DeleteSubthemeThemeLinks(t2, m), m), m))
  }

  /** The inner loop over `subthemes_to_merge`, stopping at the first failure. */
  function MergeSubthemeList(t: Tables, p: Id, ms: seq<Id>): (r: Run)
    ensures r.merged <= |ms|
    ensures r.result.Some? <==> r.merged == |ms|
    decreases |ms|
  {
    if ms == [] then Run(Some(t), 0)
    else match MergeOneSubtheme(t, p, ms[0])
      case None => Run(None, 0)
      case Some(t1) =>
        var rest := MergeSubthemeList(t1, p, ms[1..]);
        Run(rest.result, rest.merged + 1)
  }

  /** One group of `mergeSubthemes`: skipped, committed or rolled back to `t`. */
  function SubthemeGroup(t: Tables, g: MergeGroup): (r: (Tables, nat))
    ensures Skipped(g) ==> r == (t, 0)
    ensures !Skipped(g) ==> r.1 <= |g.mergeIds.value|
    ensures r.1 == 0 ==> r.0 == t
    ensures !Skipped(g) && r.1 < |g.mergeIds.value| ==> r.0 == t
  {
    if Skipped(g) then (t, 0)
    else
      var run := MergeSubthemeList(SetSubthemeDescription(t, g.primaryId, g.primaryDescription),
                                   g.primaryId, g.mergeIds.value);
      (if run.result.Some? then run.result.value else t, run.merged)
  }

  /** `mergeSubthemes(consolidationGroups)`: the final state and `mergeCount`. */
  function MergeSubthemes(t: Tables, groups: seq<MergeGroup>): (r: (Tables, nat))
    ensures r.1 == 0 ==> r.0 == t
    decreases |groups|
  {
    if groups == [] then (t, 0)
    else
      var (t1, c1) := SubthemeGroup(t, groups[0]);
      var (t2, c2) := MergeSubthemes(t1, groups[1..]);
      (t2, c1 + c2)
  }
}
