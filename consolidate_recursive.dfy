/**
 * The recursive consolidation script: for each table, passes over the rows
 * in name order, chunk by chunk, asking the oracle for merge groups and
 * merging them, until a pass merges nothing or one row is left; themes are
 * consolidated before subthemes. The script's `while (true)` is bounded here
 * by `maxPasses`.
 */
module RecursiveConsolidation {
  import opened Wrappers
  import opened Sets
  import opened Statements
  import opened Schema
  import opened NameOrder
  import opened Chunking
  import opened Merge
  import opened MergeProperties
  import opened Database
  import opened Transactions
  import opened Oracle

  const ThemeChunkSize: nat := 30
  const SubthemeChunkSize: nat := 40

  function ChunkSize(table: EntityTable): (size: nat)
    ensures size > 0
  {
    match table
    case ThemesTable => ThemeChunkSize
    case SubthemesTable => SubthemeChunkSize
  }

  /** The chunk number the prompt states: themes only when there are several chunks, subthemes always. */
  function ChunkLabel(table: EntityTable, number: nat, total: nat): Option<nat> {
    match table
    case ThemesTable => if total > 1 then Some(number) else None
    case SubthemesTable => Some(number)
  }

  /** The prompt for the chunk starting at offset `i`. */
  function ChunkRequest(table: EntityTable, rows: seq<Row>, i: nat, iteration: nat): (r: Request)
    requires i < |rows|
    ensures r.rows == ChunkAt(rows, i, ChunkSize(table))
  {
    var size := ChunkSize(table);
    Request(table, Some(iteration), ChunkLabel(table, i / size + 1, CeilDiv(|rows|, size)), ChunkAt(rows, i, size))
  }

  /** The rest of one pass from chunk offset `i`: the state after it and the merges it counted. */
  function PassFrom(t: Tables, table: EntityTable, rows: seq<Row>, i: nat, iteration: nat,
                    apply: Step, oracle: Request -> Reply): (r: (Tables, nat))
    decreases |rows| - i, 1
  {
    if i >= |rows| then (t, 0) else ChunkThenRest(t, table, rows, i, iteration, apply, oracle)
  }

  /** The chunk at offset `i`, then the rest of the pass after it. */
  function ChunkThenRest(t: Tables, table: EntityTable, rows: seq<Row>, i: nat, iteration: nat,
                         apply: Step, oracle: Request -> Reply): (r: (Tables, nat))
    requires i < |rows|
    decreases |rows| - i, 0
  {
    var (t1, c1) := apply(t, table, oracle(ChunkRequest(table, rows, i, iteration)));
    var (t2, c2) := PassFrom(t1, table, rows, i + ChunkSize(table), iteration, apply, oracle);
    (t2, c1 + c2)
  }

  /** What a run of the fixpoint loop ends with. */
  datatype Outcome = Outcome(tables: Tables, merged: nat, iteration: nat, converged: bool)

  /** A pass keeps the constraints and shrinks the table it consolidates. */
  lemma {:induction false} PassShrinks(t: Tables, table: EntityTable, rows: seq<Row>, i: nat, iteration: nat,
                                       apply: Step, oracle: Request -> Reply)
    requires IsApplied(apply) && Valid(t)
    ensures var t2 := PassFrom(t, table, rows, i, iteration, apply, oracle).0; Valid(t2) && Shrinks(t, t2, table)
    decreases |rows| - i
  {
    if i < |rows| {
      var request := ChunkRequest(table, rows, i, iteration);
      StepShrinks(t, table, oracle(request), apply);
      var t1 := apply(t, table, oracle(request)).0;
      PassShrinks(t1, table, rows, i + ChunkSize(table), iteration, apply, oracle);
      ShrinksTransitive(t, t1, PassFrom(t1, table, rows, i + ChunkSize(table), iteration, apply, oracle).0, table);
      assert PassFrom(t, table, rows, i, iteration, apply, oracle) == ChunkThenRest(t, table, rows, i, iteration, apply, oracle);
    }
  }

  /**
   * `consolidateThemesRecursively` / `consolidateSubthemesRecursively` from
   * iteration `iteration`, with `fuel` passes left and `total` merges counted
   * so far: stop when one row or none is left, or after the first pass that
   * counted no merge.
   */
  ghost function Consolidate(t: Tables, table: EntityTable, iteration: nat, fuel: nat, total: nat,
                             list: Lister, apply: Step, oracle: Request -> Reply): Outcome
    decreases fuel
  {
    if fuel == 0 then Outcome(t, total, iteration, false)
    else
      var rows := list(t, table);
      if |rows| <= 1 then Outcome(t, total, iteration, true)
      else
        var (t1, c) := PassFrom(t, table, rows, 0, iteration, apply, oracle);
        if c == 0 then Outcome(t1, total, iteration, true)
        else Consolidate(t1, table, iteration + 1, fuel - 1, total + c, list, apply, oracle)
  }

  /** A run with passes left and one row or none stops at once, converged. */
  lemma FewRowsStop(t: Tables, table: EntityTable, iteration: nat, fuel: nat, total: nat, list: Lister, apply: Step, oracle: Request -> Reply)
    requires fuel > 0 && |list(t, table)| <= 1
    ensures Consolidate(t, table, iteration, fuel, total, list, apply, oracle) == Outcome(t, total, iteration, true)
  {
  }

  /** A run whose next pass over several rows merges nothing stops after it, converged. */
  lemma NoMergeStops(t: Tables, t2: Tables, table: EntityTable, iteration: nat, fuel: nat, total: nat,
                     list: Lister, apply: Step, oracle: Request -> Reply)
    requires fuel > 0 && |list(t, table)| > 1
    requires (t2, 0) == PassFrom(t, table, list(t, table), 0, iteration, apply, oracle)
    ensures Consolidate(t, table, iteration, fuel, total, list, apply, oracle) == Outcome(t2, total, iteration, true)
  {
  }

  /** A run whose next pass over several rows merges something goes on from the next iteration with one pass less. */
  lemma MergeGoesOn(t: Tables, t2: Tables, table: EntityTable, iteration: nat, fuel: nat, total: nat, merges: nat,
                    list: Lister, apply: Step, oracle: Request -> Reply)
    requires fuel > 0 && |list(t, table)| > 1 && merges != 0
    requires (t2, merges) == PassFrom(t, table, list(t, table), 0, iteration, apply, oracle)
    ensures Consolidate(t, table, iteration, fuel, total, list, apply, oracle) ==
            Consolidate(t2, table, iteration + 1, fuel - 1, total + merges, list, apply, oracle)
  {
  }

  /** A run keeps the constraints, shrinks the table it consolidates and only adds to the count. */
  lemma {:induction false} ConsolidateShrinks(t: Tables, table: EntityTable, iteration: nat, fuel: nat, total: nat,
                                              list: Lister, apply: Step, oracle: Request -> Reply)
    requires IsApplied(apply) && Valid(t)
    ensures var r := Consolidate(t, table, iteration, fuel, total, list, apply, oracle);
      Valid(r.tables) && Shrinks(t, r.tables, table) && r.merged >= total
    decreases fuel
  {
    if fuel > 0 && |list(t, table)| > 1 {
      var p := PassFrom(t, table, list(t, table), 0, iteration, apply, oracle);
      PassShrinks(t, table, list(t, table), 0, iteration, apply, oracle);
      if p.1 != 0 {
        ConsolidateShrinks(p.0, table, iteration + 1, fuel - 1, total + p.1, list, apply, oracle);
        ShrinksTransitive(t, p.0, Consolidate(p.0, table, iteration + 1, fuel - 1, total + p.1, list, apply, oracle).tables, table);
      }
    }
  }

  /** A step that counts no merge leaves the store as it was. */
  ghost predicate ZeroMeansUnchanged(apply: Step) {
    forall t, table, reply :: apply(t, table, reply).1 == 0 ==> apply(t, table, reply).0 == t
  }

  /** Both scripts' step: a reply that merges nothing changes nothing. */
  lemma AppliedZeroMeansUnchanged()
    ensures ZeroMeansUnchanged(Applied)
  {
    forall t, table, reply | Applied(t, table, reply).1 == 0 ensures Applied(t, table, reply).0 == t {
      var r := Applied(t, table, reply);
    }
  }

  /** A pass of such steps that counts no merge leaves the store as it was. */
  lemma {:induction false} NoMergeNoChange(t: Tables, table: EntityTable, rows: seq<Row>, i: nat, iteration: nat,
                                           apply: Step, oracle: Request -> Reply)
    requires ZeroMeansUnchanged(apply)
    ensures var r := PassFrom(t, table, rows, i, iteration, apply, oracle); r.1 == 0 ==> r.0 == t
    decreases |rows| - i
  {
    if i < |rows| {
      var t1 := apply(t, table, oracle(ChunkRequest(table, rows, i, iteration))).0;
      NoMergeNoChange(t1, table, rows, i + ChunkSize(table), iteration, apply, oracle);
      assert PassFrom(t, table, rows, i, iteration, apply, oracle) ==
             ChunkThenRest(t, table, rows, i, iteration, apply, oracle);
    }
  }

  /**
   * When the loop stops on its own, the final store is a fixpoint: it has at
   * most one row, or a pass over it merges nothing.
   */
  lemma {:induction false} ConvergedIsStable(t: Tables, table: EntityTable, iteration: nat, fuel: nat, total: nat,
                                             list: Lister, apply: Step, oracle: Request -> Reply)
    requires ZeroMeansUnchanged(apply)
    ensures var r := Consolidate(t, table, iteration, fuel, total, list, apply, oracle);
      r.converged ==>
        |list(r.tables, table)| <= 1 ||
        PassFrom(r.tables, table, list(r.tables, table), 0, r.iteration, apply, oracle) == (r.tables, 0)
    decreases fuel
  {
    if fuel > 0 && |list(t, table)| > 1 {
      var p := PassFrom(t, table, list(t, table), 0, iteration, apply, oracle);
      if p.1 != 0 {
        MergeGoesOn(t, p.0, table, iteration, fuel, total, p.1, list, apply, oracle);
        ConvergedIsStable(p.0, table, iteration + 1, fuel - 1, total + p.1, list, apply, oracle);
      } else {
        NoMergeStops(t, p.0, table, iteration, fuel, total, list, apply, oracle);
        NoMergeNoChange(t, table, list(t, table), 0, iteration, apply, oracle);
      }
    }
  }

  /** A run that does not converge has used every pass it was given, each merging something. */
  lemma {:induction false} UnconvergedUsesAllPasses(t: Tables, table: EntityTable, iteration: nat, fuel: nat,
                                                    total: nat, list: Lister, apply: Step, oracle: Request -> Reply)
    ensures var r := Consolidate(t, table, iteration, fuel, total, list, apply, oracle);
      !r.converged ==> r.iteration == iteration + fuel && r.merged >= total + fuel
    decreases fuel
  {
    if fuel > 0 && |list(t, table)| > 1 {
      var p := PassFrom(t, table, list(t, table), 0, iteration, apply, oracle);
      if p.1 != 0 {
        UnconvergedUsesAllPasses(p.0, table, iteration + 1, fuel - 1, total + p.1, list, apply, oracle);
      }
    }
  }

  /**
   * `mergeCount` counts ids, not rows removed: a group naming a theme that is
   * not in the table commits, counts one merge, and removes nothing.
   */
  lemma MissingThemeStillCounted(t: Tables, p: Id, d: Option<string>, m: Id)
    requires Valid(t) && m !in t.themes
    ensures MergeGroups(t, ThemesTable, [MergeGroup(p, d, Some([m]))]) == (SetThemeDescription(t, p, d), 1)
    ensures SetThemeDescription(t, p, d).themes.Keys == t.themes.Keys
  {
    var t1 := SetThemeDescription(t, p, d);
    if RowsWithFirst(t1.themeSubthemes, m) != {} {
      var l := PickElement(RowsWithFirst(t1.themeSubthemes, m));
      assert false;
    }
    var selected := if HasFirst(t1.themeSubthemes, p) then {} else RowsWithFirst(t1.themeSubthemes, m);
    assert SetFirst(selected, p) == {};
    assert RepointThemeLinks(t1, p, m) == Done(t1);
    assert DeleteThemeLinks(t1, m) == t1;
    assert t1.themes - {m} == t1.themes;
    assert DeleteTheme(t1, m) == t1;
    assert MergeThemeList(t1, p, [m]) == Run(Some(t1), 1);
    var g := MergeGroup(p, d, Some([m]));
    assert ThemeGroup(t, g) == (t1, 1);
    assert [g][1..] == [];
    assert MergeThemes(t, [g]) == (t1, 1);
  }

  /** One pass: every chunk of `rows` in turn, each reply applied before the next chunk is sent. */
  method RunPass(db: Store, table: EntityTable, rows: seq<Row>, iteration: nat, ghost apply: Step,
                 oracle: Request -> Reply)
    returns (iterationMerges: nat)
    requires IsApplied(apply)
    modifies db
    ensures (db.State(), iterationMerges) == PassFrom(old(db.State()), table, rows, 0, iteration, apply, oracle)
  {
    ghost var whole := PassFrom(db.State(), table, rows, 0, iteration, apply, oracle);
    var size := ChunkSize(table);
    iterationMerges := 0;
    var i := 0;
    while i < |rows|
      invariant whole.0 == PassFrom(db.State(), table, rows, i, iteration, apply, oracle).0
      invariant whole.1 == iterationMerges + PassFrom(db.State(), table, rows, i, iteration, apply, oracle).1
      decreases |rows| - i
    {
      var reply := oracle(ChunkRequest(table, rows, i, iteration));
      var merged := ApplyReply(db, table, reply);
      iterationMerges := iterationMerges + merged;
      i := i + size;
    }
  }

  /** A pass leaves the tables valid: `PassShrinks` stated for the tables the pass produced. */
  lemma PassKeepsValid(t: Tables, t2: Tables, table: EntityTable, rows: seq<Row>, iteration: nat, merges: nat,
                       apply: Step, oracle: Request -> Reply)
    requires IsApplied(apply) && (t2, merges) == PassFrom(t, table, rows, 0, iteration, apply, oracle)
    ensures Valid(t) ==> Valid(t2) && Shrinks(t, t2, table)
  {
    if Valid(t) {
      PassShrinks(t, table, rows, 0, iteration, apply, oracle);
    }
  }

  /**
   * The pass half of a turn: run one pass over the selected rows; a pass that
   * merges nothing ends the loop. `merges` is what the pass counted.
   */
  method PassTurn(db: Store, table: EntityTable, rows: seq<Row>, ghost list: Lister, ghost apply: Step, oracle: Request -> Reply,
                  iterationNumber: nat, passesLeft: nat, totalMerged: nat)
    returns (stop: bool, newTotal: nat, ghost merges: nat)
    requires IsApplied(apply) && passesLeft > 0 && rows == list(db.State(), table) && |rows| > 1
    modifies db
    ensures (db.State(), merges) == PassFrom(old(db.State()), table, rows, 0, iterationNumber, apply, oracle)
    ensures stop ==>
      Consolidate(old(db.State()), table, iterationNumber, passesLeft, totalMerged, list, apply, oracle) ==
      Outcome(db.State(), newTotal, iterationNumber, true)
    ensures !stop ==>
      Consolidate(old(db.State()), table, iterationNumber, passesLeft, totalMerged, list, apply, oracle) ==
      Consolidate(db.State(), table, iterationNumber + 1, passesLeft - 1, newTotal, list, apply, oracle)
  {
    ghost var before := db.State();
    var iterationMerges := RunPass(db, table, rows, iterationNumber, apply, oracle);
    if iterationMerges == 0 {
      NoMergeStops(before, db.State(), table, iterationNumber, passesLeft, totalMerged, list, apply, oracle);
    } else {
      MergeGoesOn(before, db.State(), table, iterationNumber, passesLeft, totalMerged, iterationMerges, list, apply, oracle);
    }
    stop, newTotal, merges := iterationMerges == 0, totalMerged + iterationMerges, iterationMerges;
  }

  /** One turn of the fixpoint loop: select the rows, stop on one row or none, else run a pass. */
  method Turn(db: Store, table: EntityTable, ghost list: Lister, ghost apply: Step, oracle: Request -> Reply, iterationNumber: nat,
              passesLeft: nat, totalMerged: nat)
    returns (stop: bool, newTotal: nat)
    requires IsListing(list) && IsApplied(apply) && passesLeft > 0 && db.Consistent()
    modifies db
    ensures db.Consistent()
    ensures stop ==>
      Consolidate(old(db.State()), table, iterationNumber, passesLeft, totalMerged, list, apply, oracle) ==
      Outcome(db.State(), newTotal, iterationNumber, true)
    ensures !stop ==>
      Consolidate(old(db.State()), table, iterationNumber, passesLeft, totalMerged, list, apply, oracle) ==
      Consolidate(db.State(), table, iterationNumber + 1, passesLeft - 1, newTotal, list, apply, oracle)
  {
    var rows := db.SelectRows(table);
    if |rows| <= 1 {
      stop, newTotal := true, totalMerged;
      FewRowsStop(db.State(), table, iterationNumber, passesLeft, newTotal, list, apply, oracle);
    } else {
      ghost var before := db.State();
      ghost var merges;
      stop, newTotal, merges := PassTurn(db, table, rows, list, apply, oracle, iterationNumber, passesLeft, totalMerged);
      PassKeepsValid(before, db.State(), table, rows, iterationNumber, merges, apply, oracle);
    }
  }

  /** The fixpoint loop over one table, for at most `maxPasses` passes. */
  method ConsolidateRecursively(db: Store, table: EntityTable, ghost list: Lister, ghost apply: Step, oracle: Request -> Reply,
                                maxPasses: nat)
    returns (totalMerged: nat, converged: bool)
    requires IsListing(list) && IsApplied(apply) && db.Consistent()
    modifies db
    ensures var r := Consolidate(old(db.State()), table, 1, maxPasses, 0, list, apply, oracle);
      db.State() == r.tables && totalMerged == r.merged && converged == r.converged
  {
    ghost var goal := Consolidate(db.State(), table, 1, maxPasses, 0, list, apply, oracle);
    var iterationNumber: nat := 1;
    totalMerged := 0;
    var passesLeft := maxPasses;
    while passesLeft > 0
      invariant db.Consistent()
      invariant goal == Consolidate(db.State(), table, iterationNumber, passesLeft, totalMerged, list, apply, oracle)
    {
      var stop, newTotal := Turn(db, table, list, apply, oracle, iterationNumber, passesLeft, totalMerged);
      if stop {
        return newTotal, true;
      }
      totalMerged, iterationNumber, passesLeft := newTotal, iterationNumber + 1, passesLeft - 1;
    }
    converged := false;
  }

  /** `consolidateThemesRecursively`. */
  method ConsolidateThemesRecursively(db: Store, oracle: Request -> Reply, maxPasses: nat)
    returns (totalThemesMerged: nat, converged: bool)
    requires db.Consistent()
    modifies db
    ensures var r := Consolidate(old(db.State()), ThemesTable, 1, maxPasses, 0, RowsByName, Applied, oracle);
      db.State() == r.tables && totalThemesMerged == r.merged && converged == r.converged
  {
    totalThemesMerged, converged := ConsolidateRecursively(db, ThemesTable, RowsByName, Applied, oracle, maxPasses);
  }

  /** `consolidateSubthemesRecursively`. */
  method ConsolidateSubthemesRecursively(db: Store, oracle: Request -> Reply, maxPasses: nat)
    returns (totalSubthemesMerged: nat, converged: bool)
    requires db.Consistent()
    modifies db
    ensures var r := Consolidate(old(db.State()), SubthemesTable, 1, maxPasses, 0, RowsByName, Applied, oracle);
      db.State() == r.tables && totalSubthemesMerged == r.merged && converged == r.converged
  {
    totalSubthemesMerged, converged := ConsolidateRecursively(db, SubthemesTable, RowsByName, Applied, oracle, maxPasses);
  }

  /** `recursiveConsolidation`: themes to a fixpoint first, then subthemes. */
  method RunRecursiveConsolidation(db: Store, oracle: Request -> Reply, maxPasses: nat)
    returns (totalThemesMerged: nat, totalSubthemesMerged: nat)
    requires db.Consistent()
    modifies db
    ensures var r1 := Consolidate(old(db.State()), ThemesTable, 1, maxPasses, 0, RowsByName, Applied, oracle);
      Valid(r1.tables) &&
      var r2 := Consolidate(r1.tables, SubthemesTable, 1, maxPasses, 0, RowsByName, Applied, oracle);
      db.State() == r2.tables && totalThemesMerged == r1.merged && totalSubthemesMerged == r2.merged
    ensures db.Consistent()
    ensures db.State().themes.Keys <= old(db.State()).themes.Keys
    ensures db.State().subthemes.Keys <= old(db.State()).subthemes.Keys
  {
    var themesConverged, subthemesConverged;
    ghost var start := db.State();
    ConsolidateShrinks(start, ThemesTable, 1, maxPasses, 0, RowsByName, Applied, oracle);
    totalThemesMerged, themesConverged := ConsolidateThemesRecursively(db, oracle, maxPasses);
    ghost var middle := db.State();
    ConsolidateShrinks(middle, SubthemesTable, 1, maxPasses, 0, RowsByName, Applied, oracle);
    totalSubthemesMerged, subthemesConverged := ConsolidateSubthemesRecursively(db, oracle, maxPasses);
  }
}
