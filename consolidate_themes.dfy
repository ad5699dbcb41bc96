/**
 * The single-pass consolidation script: one oracle call over every theme in
 * name order, then the subthemes in chunks of 50. A failing call ends the
 * whole run (the outer `catch`); groups committed before it stay.
 */
module SinglePassConsolidation {
  import opened Wrappers
  import opened Schema
  import opened NameOrder
  import opened Chunking
  import opened Database
  import opened Oracle

  const SubthemeChunkSize: nat := 50

  /** The store after the run, the requests made in order, and whether the run reached its end. */
  datatype Report = Report(tables: Tables, requests: seq<Request>, completed: bool)

  /** The rows each request listed. */
  function RowsOf(requests: seq<Request>): (rows: seq<seq<Row>>)
    ensures |rows| == |requests|
    ensures forall k :: 0 <= k < |requests| ==> rows[k] == requests[k].rows
  {
    if requests == [] then [] else [requests[0].rows] + RowsOf(requests[1..])
  }

  /** The request for the subtheme chunk at offset `i`. */
  function SubthemeRequest(rows: seq<Row>, i: nat): Request
    requires i <= |rows|
  {
    Request(SubthemesTable, None, None, ChunkAt(rows, i, SubthemeChunkSize))
  }

  /** The subtheme chunk loop from offset `i`. */
  function SubthemeChunksFrom(t: Tables, rows: seq<Row>, i: nat, apply: Step, oracle: Request -> Reply): (r: Report)
    decreases |rows| - i
  {
    if i >= |rows| then Report(t, [], true)
    else
      var request := SubthemeRequest(rows, i);
      var reply := oracle(request);
      if reply.CallFailed? then Report(t, [request], false)
      else
        var rest := SubthemeChunksFrom(apply(t, SubthemesTable, reply).0, rows, i + SubthemeChunkSize, apply, oracle);
        Report(rest.tables, [request] + rest.requests, rest.completed)
  }

  /** The theme step: one request over every theme, skipped when there is none. */
  ghost function ThemeStep(t: Tables, list: Lister, apply: Step, oracle: Request -> Reply): Report {
    var themes := list(t, ThemesTable);
    if |themes| == 0 then Report(t, [], true)
    else
      var request := Request(ThemesTable, None, None, themes);
      var reply := oracle(request);
      if reply.CallFailed? then Report(t, [request], false)
      else Report(apply(t, ThemesTable, reply).0, [request], true)
  }

  /** `consolidateThemesAndSubthemes`: the theme step, then the subtheme chunks of the store it left. */
  ghost function ConsolidateOnce(t: Tables, list: Lister, apply: Step, oracle: Request -> Reply): Report {
    var themeStep := ThemeStep(t, list, apply, oracle);
    if !themeStep.completed then themeStep
    else
      var rest := SubthemeChunksFrom(themeStep.tables, list(themeStep.tables, SubthemesTable), 0, apply, oracle);
      Report(rest.tables, themeStep.requests + rest.requests, rest.completed)
  }

  /** The theme step keeps the constraints, only removes themes, and leaves the subthemes alone. */
  lemma ThemeStepShrinks(t: Tables, list: Lister, apply: Step, oracle: Request -> Reply)
    requires IsApplied(apply) && Valid(t)
    ensures var t2 := ThemeStep(t, list, apply, oracle).tables; Valid(t2) && Shrinks(t, t2, ThemesTable)
  {
    var themes := list(t, ThemesTable);
    if |themes| > 0 {
      StepShrinks(t, ThemesTable, oracle(Request(ThemesTable, None, None, themes)), apply);
    }
  }

  /** The subtheme loop keeps the constraints and only removes subthemes. */
  lemma {:induction false} SubthemeChunksShrink(t: Tables, rows: seq<Row>, i: nat, apply: Step,
                                                oracle: Request -> Reply)
    requires IsApplied(apply) && Valid(t)
    ensures var t2 := SubthemeChunksFrom(t, rows, i, apply, oracle).tables; Valid(t2) && Shrinks(t, t2, SubthemesTable)
    decreases |rows| - i
  {
    if i < |rows| {
      var reply := oracle(SubthemeRequest(rows, i));
      if !reply.CallFailed? {
        StepShrinks(t, SubthemesTable, reply, apply);
        var t1 := apply(t, SubthemesTable, reply).0;
        SubthemeChunksShrink(t1, rows, i + SubthemeChunkSize, apply, oracle);
        ShrinksTransitive(t, t1, SubthemeChunksFrom(t1, rows, i + SubthemeChunkSize, apply, oracle).tables,
                          SubthemesTable);
      }
    }
  }

  /**
   * The subtheme requests from offset `i` on list the chunks of `rows` in
   * order, one request per chunk: all of them when the loop completes,
   * otherwise the first few.
   */
  lemma {:induction false} SubthemeRequestsAreChunks(t: Tables, rows: seq<Row>, i: nat, apply: Step,
                                                     oracle: Request -> Reply)
    requires i <= |rows|
    ensures var r := SubthemeChunksFrom(t, rows, i, apply, oracle);
      var chunks := ChunksFrom(rows, i, SubthemeChunkSize);
      |r.requests| <= |chunks| && (r.completed ==> |r.requests| == |chunks|) &&
      forall k :: 0 <= k < |r.requests| ==> r.requests[k] == Request(SubthemesTable, None, None, chunks[k])
    decreases |rows| - i
  {
    if i < |rows| {
      var r := SubthemeChunksFrom(t, rows, i, apply, oracle);
      var chunks := ChunksFrom(rows, i, SubthemeChunkSize);
      var reply := oracle(SubthemeRequest(rows, i));
      if !reply.CallFailed? {
        var t1 := apply(t, SubthemesTable, reply).0;
        var rest := SubthemeChunksFrom(t1, rows, i + SubthemeChunkSize, apply, oracle);
        var later := ChunksFrom(rows, i + SubthemeChunkSize, SubthemeChunkSize);
        if i + SubthemeChunkSize <= |rows| {
          SubthemeRequestsAreChunks(t1, rows, i + SubthemeChunkSize, apply, oracle);
        }
        forall k | 1 <= k < |r.requests|
          ensures r.requests[k] == Request(SubthemesTable, None, None, chunks[k])
        {
          assert r.requests[k] == rest.requests[k - 1];
          assert chunks[k] == later[k - 1];
        }
      }
    }
  }

  /**
   * The loop stops at the first failed call: a request got the error exactly
   * when the loop did not complete and it was the last request made.
   */
  lemma {:induction false} SubthemeLoopStopsOnFailure(t: Tables, rows: seq<Row>, i: nat, apply: Step,
                                                      oracle: Request -> Reply)
    ensures var r := SubthemeChunksFrom(t, rows, i, apply, oracle);
      (!r.completed ==> |r.requests| > 0) &&
      forall k :: 0 <= k < |r.requests| ==>
        (oracle(r.requests[k]).CallFailed? <==> !r.completed && k == |r.requests| - 1)
    decreases |rows| - i
  {
    if i < |rows| {
      var r := SubthemeChunksFrom(t, rows, i, apply, oracle);
      var reply := oracle(SubthemeRequest(rows, i));
      if !reply.CallFailed? {
        var t1 := apply(t, SubthemesTable, reply).0;
        var rest := SubthemeChunksFrom(t1, rows, i + SubthemeChunkSize, apply, oracle);
        SubthemeLoopStopsOnFailure(t1, rows, i + SubthemeChunkSize, apply, oracle);
        forall k | 1 <= k < |r.requests|
          ensures oracle(r.requests[k]).CallFailed? <==> !r.completed && k == |r.requests| - 1
        {
          assert r.requests[k] == rest.requests[k - 1];
        }
      }
    }
  }

  /** A completed subtheme loop lists every row of `rows`, in order, in chunks of at most 50. */
  lemma SubthemeRequestsCoverRows(t: Tables, rows: seq<Row>, apply: Step, oracle: Request -> Reply)
    ensures var r := SubthemeChunksFrom(t, rows, 0, apply, oracle);
      r.completed ==>
        Flatten(RowsOf(r.requests)) == rows &&
        (forall k :: 0 <= k < |r.requests| ==> 0 < |r.requests[k].rows| <= SubthemeChunkSize)
  {
    var r := SubthemeChunksFrom(t, rows, 0, apply, oracle);
    SubthemeRequestsAreChunks(t, rows, 0, apply, oracle);
    if r.completed {
      var chunks := ChunksFrom(rows, 0, SubthemeChunkSize);
      assert RowsOf(r.requests) == chunks by {
        forall k | 0 <= k < |chunks| ensures RowsOf(r.requests)[k] == chunks[k] {
          assert r.requests[k].rows == chunks[k];
        }
      }
      ChunksCover(rows, 0, SubthemeChunkSize);
      ChunkShape(rows, 0, SubthemeChunkSize);
      forall k | 0 <= k < |r.requests|
        ensures 0 < |r.requests[k].rows| <= SubthemeChunkSize
      {
        assert r.requests[k].rows == chunks[k];
        assert chunks[k] in chunks;
      }
    }
  }

  /** The theme request, when made, lists every theme in name order, and comes first. */
  lemma ThemeRequestListsAllThemes(t: Tables, list: Lister, apply: Step, oracle: Request -> Reply)
    requires IsListing(list) && Valid(t)
    ensures var r := ConsolidateOnce(t, list, apply, oracle);
      (|t.themes| == 0 <==> (r.requests == [] || r.requests[0].table == SubthemesTable)) &&
      (|t.themes| > 0 ==> r.requests[0] == Request(ThemesTable, None, None, Listing(t.themes)))
  {
    var themeStep := ThemeStep(t, list, apply, oracle);
    assert list(t, ThemesTable) == Listing(EntitiesOf(t, ThemesTable));
    ListingSorted(t.themes);
    if themeStep.completed {
      var subthemes := list(themeStep.tables, SubthemesTable);
      SubthemeRequestsAreChunks(themeStep.tables, subthemes, 0, apply, oracle);
    }
  }

  /**
   * When the run completes, the subtheme requests list, chunk after chunk,
   * every subtheme the store held before the run, in name order, at most 50
   * rows each: the theme merges leave the subthemes alone.
   */
  lemma SubthemeRequestsCoverAllSubthemes(t: Tables, list: Lister, apply: Step, oracle: Request -> Reply)
    requires IsListing(list) && IsApplied(apply) && Valid(t)
    ensures var r := ConsolidateOnce(t, list, apply, oracle);
      var subRequests := if |r.requests| > 0 && r.requests[0].table == ThemesTable then r.requests[1..] else r.requests;
      r.completed ==>
        Flatten(RowsOf(subRequests)) == Listing(t.subthemes) &&
        (forall k :: 0 <= k < |subRequests| ==> 0 < |subRequests[k].rows| <= SubthemeChunkSize)
  {
    var r := ConsolidateOnce(t, list, apply, oracle);
    var themeStep := ThemeStep(t, list, apply, oracle);
    if r.completed {
      ThemeStepShrinks(t, list, apply, oracle);
      var rows := list(themeStep.tables, SubthemesTable);
      assert rows == Listing(EntitiesOf(themeStep.tables, SubthemesTable));
      assert themeStep.tables.subthemes == t.subthemes;
      SubthemeRequestsCoverRows(themeStep.tables, rows, apply, oracle);
      SubthemeRequestsAreChunks(themeStep.tables, rows, 0, apply, oracle);
      var rest := SubthemeChunksFrom(themeStep.tables, rows, 0, apply, oracle);
      assert r.requests == themeStep.requests + rest.requests;
      var subRequests := if |r.requests| > 0 && r.requests[0].table == ThemesTable then r.requests[1..] else r.requests;
      assert subRequests == rest.requests;
    }
  }

  /** A failed theme call ends the run before anything changed and before any subtheme request. */
  lemma ThemeFailureStopsEverything(t: Tables, list: Lister, apply: Step, oracle: Request -> Reply)
    requires |list(t, ThemesTable)| > 0
    requires oracle(Request(ThemesTable, None, None, list(t, ThemesTable))).CallFailed?
    ensures ConsolidateOnce(t, list, apply, oracle) ==
            Report(t, [Request(ThemesTable, None, None, list(t, ThemesTable))], false)
  {
  }

  /** The run keeps every constraint, only removes themes and subthemes, and leaves papers and codes alone. */
  lemma ConsolidateOnceShrinks(t: Tables, list: Lister, apply: Step, oracle: Request -> Reply)
    requires IsApplied(apply) && Valid(t)
    ensures var t2 := ConsolidateOnce(t, list, apply, oracle).tables;
      Valid(t2) && t2.themes.Keys <= t.themes.Keys && t2.subthemes.Keys <= t.subthemes.Keys &&
      t2.researchResults == t.researchResults && t2.codes == t.codes
  {
    var themeStep := ThemeStep(t, list, apply, oracle);
    ThemeStepShrinks(t, list, apply, oracle);
    if themeStep.completed {
      SubthemeChunksShrink(themeStep.tables, list(themeStep.tables, SubthemesTable), 0, apply, oracle);
    }
  }

  /** The theme call of `consolidateThemesAndSubthemes`; false when it threw. */
  method ConsolidateThemes(db: Store, ghost list: Lister, ghost apply: Step, oracle: Request -> Reply)
    returns (completed: bool)
    requires IsListing(list) && IsApplied(apply) && db.Consistent()
    modifies db
    ensures var r := ThemeStep(old(db.State()), list, apply, oracle); db.State() == r.tables && completed == r.completed
  {
    var themes := db.SelectRows(ThemesTable);
    if |themes| > 0 {
      var themesResponse := oracle(Request(ThemesTable, None, None, themes));
      if themesResponse.CallFailed? {
        return false;
      }
      var _ := ApplyReply(db, ThemesTable, themesResponse);
    }
    return true;
  }

  /** The subtheme chunk loop of `consolidateThemesAndSubthemes`; false when a call threw. */
  method ConsolidateSubthemeChunks(db: Store, rows: seq<Row>, ghost apply: Step, oracle: Request -> Reply)
    returns (completed: bool)
    requires IsApplied(apply)
    modifies db
    ensures var r := SubthemeChunksFrom(old(db.State()), rows, 0, apply, oracle);
      db.State() == r.tables && completed == r.completed
  {
    ghost var whole := SubthemeChunksFrom(db.State(), rows, 0, apply, oracle);
    var i := 0;
    while i < |rows|
      invariant whole.tables == SubthemeChunksFrom(db.State(), rows, i, apply, oracle).tables
      invariant whole.completed == SubthemeChunksFrom(db.State(), rows, i, apply, oracle).completed
      decreases |rows| - i
    {
      var subthemesResponse := oracle(SubthemeRequest(rows, i));
      if subthemesResponse.CallFailed? {
        return false;
      }
      var _ := ApplyReply(db, SubthemesTable, subthemesResponse);
      i := i + SubthemeChunkSize;
    }
    return true;
  }

  /** `consolidateThemesAndSubthemes`: returns whether it got past the last chunk. */
  method ConsolidateThemesAndSubthemes(db: Store, oracle: Request -> Reply) returns (completed: bool)
    requires db.Consistent()
    modifies db
    ensures db.Consistent()
    ensures var r := ConsolidateOnce(old(db.State()), RowsByName, Applied, oracle);
      db.State() == r.tables && completed == r.completed
  {
    ghost var t0 := db.State();
    ThemeStepShrinks(t0, RowsByName, Applied, oracle);
    completed := ConsolidateThemes(db, RowsByName, Applied, oracle);
    if !completed {
      return;
    }
    var subthemes := db.SelectRows(SubthemesTable);
    ghost var t1 := db.State();
    SubthemeChunksShrink(t1, subthemes, 0, Applied, oracle);
    completed := ConsolidateSubthemeChunks(db, subthemes, Applied, oracle);
  }
}
