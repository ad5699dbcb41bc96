/**
 * The model's stand-in for the Gemini calls of the consolidation scripts, and
 * what both scripts do with a reply. A request names the table, the iteration
 * and chunk numbers the prompt states (when it states them) and the rows
 * listed; the reply is either the error the call threw or the decoded
 * function calls.
 */
module Oracle {
  import opened Wrappers
  import opened Schema
  import opened NameOrder
  import opened Merge
  import opened MergeProperties
  import opened Database
  import opened Transactions

  datatype Request = Request(table: EntityTable, iteration: Option<nat>, chunkNumber: Option<nat>, rows: seq<Row>)

  /** One entry of `response.functionCalls`: its name and `args.consolidation_groups` (None when missing). */
  datatype FunctionCall = FunctionCall(name: string, groups: Option<seq<MergeGroup>>)

  datatype Reply = CallFailed | Replied(calls: seq<FunctionCall>)

  /** The function declaration offered with each table. */
  function DeclaredName(table: EntityTable): string {
    match table
    case ThemesTable => "consolidate_themes"
    case SubthemesTable => "consolidate_subthemes"
  }

  /**
   * The groups a reply makes the script merge: only when the first function
   * call has the declared name and non-empty `consolidation_groups`.
   */
  function GroupsToApply(reply: Reply, table: EntityTable): (r: Option<seq<MergeGroup>>)
    ensures r.Some? <==>
      reply.Replied? && |reply.calls| > 0 && reply.calls[0].name == DeclaredName(table) &&
      reply.calls[0].groups.Some? && |reply.calls[0].groups.value| > 0
    ensures r.Some? ==> r == reply.calls[0].groups
  {
    if reply.Replied? && |reply.calls| > 0 && reply.calls[0].name == DeclaredName(table) &&
       reply.calls[0].groups.Some? && |reply.calls[0].groups.value| > 0
    then reply.calls[0].groups
    else None
  }

  /** `mergeThemes` or `mergeSubthemes` on the table being consolidated. */
  function MergeGroups(t: Tables, table: EntityTable, groups: seq<MergeGroup>): (r: (Tables, nat))
    ensures r.1 == 0 ==> r.0 == t
  {
    match table
    case ThemesTable => MergeThemes(t, groups)
    case SubthemesTable => MergeSubthemes(t, groups)
  }

  /** A reply handled: its groups merged when it has any, otherwise nothing changes. */
  function Applied(t: Tables, table: EntityTable, reply: Reply): (r: (Tables, nat))
    ensures GroupsToApply(reply, table).None? ==> r == (t, 0)
    ensures r.1 == 0 ==> r.0 == t
  {
    match GroupsToApply(reply, table)
    case None => (t, 0)
    case Some(groups) => MergeGroups(t, table, groups)
  }

  /**
   * Merging only removes rows of `table`, leaves the other entity table alone,
   * and never touches papers or codes.
   */
  ghost predicate Shrinks(t: Tables, t2: Tables, table: EntityTable) {
    EntitiesOf(t2, table).Keys <= EntitiesOf(t, table).Keys &&
    (table == ThemesTable ==> t2.subthemes == t.subthemes) &&
    (table == SubthemesTable ==> t2.themes == t.themes) &&
    t2.researchResults == t.researchResults && t2.codes == t.codes
  }

  lemma ShrinksTransitive(t0: Tables, t1: Tables, t2: Tables, table: EntityTable)
    requires Shrinks(t0, t1, table) && Shrinks(t1, t2, table)
    ensures Shrinks(t0, t2, table)
  {
  }

  /** Handling a reply keeps every constraint of the schema and shrinks the table. */
  lemma AppliedShrinks(t: Tables, table: EntityTable, reply: Reply)
    requires Valid(t)
    ensures var t2 := Applied(t, table, reply).0; Valid(t2) && Shrinks(t, t2, table)
  {
    var groups := GroupsToApply(reply, table);
    if groups.Some? {
      if table == ThemesTable {
        MergeThemesValid(t, groups.value);
      } else {
        MergeSubthemesValid(t, groups.value);
      }
    }
  }

  /**
   * How a reply is applied to a table of the store, with the number of merges
   * it counts: `Applied` in both scripts. The scripts' loops are stated for
   * any such step, so that the lemmas about the loops do not depend on how
   * merges are carried out.
   */
  type Step = (Tables, EntityTable, Reply) -> (Tables, nat)

  /**
   * `apply` is the scripts' step: it agrees with `Applied` on every input.
   * The agreement is only drawn on where `Applied` itself appears, so the
   * loops' proofs work with the step as given and leave the merge functions
   * folded.
   */
  ghost predicate IsApplied(apply: Step) {
    forall t, table, reply {:trigger Applied(t, table, reply)} :: apply(t, table, reply) == Applied(t, table, reply)
  }

  /** One step keeps the constraints and shrinks the table it consolidates. */
  lemma StepShrinks(t: Tables, table: EntityTable, reply: Reply, apply: Step)
    requires IsApplied(apply) && Valid(t)
    ensures var t2 := apply(t, table, reply).0; Valid(t2) && Shrinks(t, t2, table)
  {
    AppliedShrinks(t, table, reply);
  }

  /** Hand the groups to `mergeThemes` or `mergeSubthemes`. */
  method ApplyGroups(db: Store, table: EntityTable, groups: seq<MergeGroup>) returns (count: nat)
    modifies db
    ensures (db.State(), count) == MergeGroups(old(db.State()), table, groups)
  {
    match table
    case ThemesTable => count := MergeThemeGroups(db, groups);
    case SubthemesTable => count := MergeSubthemeGroups(db, groups);
  }

  /** The checks on `response.functionCalls` and, when they pass, the merge. */
  method ApplyReply(db: Store, table: EntityTable, reply: Reply) returns (count: nat)
    modifies db
    ensures (db.State(), count) == Applied(old(db.State()), table, reply)
  {
    var groups := GroupsToApply(reply, table);
    count := 0;
    if groups.Some? {
      count := ApplyGroups(db, table, groups.value);
    }
  }
}
