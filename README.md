# ArticleClassifier, modelled in Dafny

ArticleClassifier builds a thematic analysis of a folder of research papers.
`analyze_papers.js` sends each PDF's text to a language model. The model
answers with an `insert_paper` function call. The script stores that answer
in a PostgreSQL schema of seven tables:

- `research_results` holds the papers;
- `themes`, `subthemes` and `codes` hold the entities;
- `theme_subthemes`, `article_subthemes` and `article_codes` hold the links,
  with the evidence quote on `article_codes`.

Two scripts then deduplicate the entities:

- `consolidate_themes.js` makes one pass over the themes and one pass over
  the subthemes, in chunks of 50;
- `consolidate_recursive.js` repeats passes until a pass merges nothing,
  with chunks of 30 themes and 40 subthemes.

Each pass sends the rows of a chunk, in name order, to the model. The model
answers with `consolidation_groups`. Each group is applied in a transaction
that re-points the links of the merged rows to the primary and then deletes
the merged rows. The React dashboard flattens the resulting analysis:

- by theme in `TableView.js`;
- by article in `ArticleView.js`;
- with a theme search in `App.js` and collapsible themes in
  `ThematicAnalysis.js`.

The model has the following parts.

- **Store** (`schema.dfy`, `statements.dfy`, `database.dfy`, `name_order.dfy`):
  - `Schema.Tables` is the seven tables as maps and sets, plus the SERIAL
    counters.
  - `Schema.Valid` is every UNIQUE, primary-key and foreign-key constraint.
  - `Statements` gives the meaning of each SQL statement the scripts issue,
    including the constraint violations that make a statement fail. A failed
    statement changes nothing.
  - `Database.Store` is a class with one field per table. Each of its
    methods is one statement, and its `ensures` ties the new state to the
    `Statements` function. `BEGIN` returns a snapshot and `ROLLBACK`
    restores it.
  - `ORDER BY name` is the unique strictly name-sorted listing of a table.
- **Merging** (`merge.dfy`, `transactions.dfy`, `merge_properties.dfy`,
  `findings.dfy`):
  - `mergeThemes` and `mergeSubthemes` are modelled as pure functions and as
    methods on the store.
  - The re-pointing UPDATEs are written with a `NOT EXISTS` subquery whose
    qualified column names the subquery's own row. So a merged row's links
    move only when the primary has no link at all in that table; otherwise
    the following DELETE drops them. `Statements`, the store, `Merge`,
    `Transactions` and both drivers model these statements as written.
  - `findings.dfy` holds the evidently intended statements, with the guard
    correlated to the updated row (the `*Correlated` functions). It proves
    that with them the primary takes over the union of the links, and it
    exhibits a store where the statements as written lose links (see
    "## Findings").
  - Properties: every constraint is kept; the primary keeps its own links,
    or takes over the first merged row's links when it has none. A failure
    rolls the group back, keeps the count of the merges before it, and the
    loop goes on to the next group.
- **Oracle and chunks** (`oracle.dfy`, `chunks.dfy`):
  - The language model is a function parameter `Request -> Reply`. A thrown
    call is the reply `CallFailed`.
  - `Applied` holds the checks each script makes on `response.functionCalls`.
- **Consolidation drivers** (`consolidate_themes.dfy`,
  `consolidate_recursive.dfy`):
  - The single pass and the fixpoint loop are modelled as specification
    functions plus the methods that run them against the store.
  - The fixpoint loop is bounded by a `maxPasses` argument.
- **Ingestion** (`ingest_statements.dfy`, `ingest_paper.dfy`,
  `ingest_methods.dfy`, `ingest_files.dfy`, `sentences.dfy`):
  - The INSERT and SELECT statements of `insertPaperResult` and
    `getNextReferenceNumber`.
  - The per-file loop of `processPapers` with its counters.
  - `extractSentencesWithKeywords`.
  - Reading PDFs yields a `FileInput` value and the model's answer is a
    function parameter.
- **Dashboard** (`dashboard.dfy`, `text.dfy`, `article_view.dfy`,
  `table_view.dfy`, `app_filter.dfy`, `thematic_analysis.dfy`):
  - The JSON analysis the API serves is modelled as values.
  - JavaScript's `Set`, `filter`, `sort`, `includes`, `toLowerCase`, `trim`
    and `join` are modelled as functions with their properties proved.

`String` order is code-point lexicographic. `toLowerCase` lowers ASCII
letters only. The search for sentences collects at least one sentence, even
when `maxCount` is 0 or less, because the JavaScript pushes before it tests
`found.length >= maxCount`.

## Model

| member | source | states |
|---|---|---|
| Schema.EmptyTablesValid | analyze_papers.js:417-463 | the freshly created schema satisfies every constraint |
| Sets.MaxOf | analyze_papers.js:248 | `MAX` is NULL exactly on no rows, else a member that bounds every member |
| Sets.MaxOfIs | analyze_papers.js:248 | the element every other is at most is the `MAX` |
| Statements.RowsWithFirst | consolidate_recursive.js:194-197 | the rows `WHERE theme_id = $1` selects, exactly |
| Statements.RowsWithSecond | consolidate_recursive.js:250-251 | the rows `WHERE subtheme_id = $1` selects, exactly |
| Statements.UpdateLinks | consolidate_recursive.js:188-191 | a link UPDATE succeeds exactly when no row moves to a missing target and no moved row lands on a row that stays |
| Statements.SetThemeDescription | consolidate_recursive.js:181-184 | only the description of theme `id` changes, and only when the row exists |
| Statements.SetSubthemeDescription | consolidate_recursive.js:231-234 | only the description of subtheme `id` changes, and only when the row exists |
| NameOrder.InsertByName | consolidate_recursive.js:280 | the insertion adds exactly the one row |
| NameOrder.InsertByNameSorted | consolidate_recursive.js:280 | inserting a row with a new name keeps the rows sorted by name |
| NameOrder.ListingSorted | consolidate_recursive.js:280 | with unique names, `ORDER BY name` lists exactly the table's rows, strictly sorted, one per row |
| NameOrder.ListingUnique | consolidate_recursive.js:280 | two sorted listings of one table are the same sequence, so the selection order is determined |
| NameOrder.ListingLength | consolidate_recursive.js:280 | a sorted listing has as many rows as the table |
| Database.Store.constructor | analyze_papers.js:406-477 | `dropAndCreateTables`: every table empty, every sequence at 1, constraints hold |
| Database.Store.Restore | consolidate_recursive.js:207-210 | the store holds exactly the given tables |
| Database.Store.Begin | consolidate_recursive.js:177 | the snapshot is the state at BEGIN |
| Database.Store.Rollback | consolidate_recursive.js:207-210 | ROLLBACK returns to the state at BEGIN |
| Database.Store.SelectRows | consolidate_recursive.js:280 | the rows returned are the table's name-ordered listing |
| Database.Store.UpdateThemeDescription | consolidate_recursive.js:181-184 | the new state is the description UPDATE's result |
| Database.Store.UpdateSubthemeDescription | consolidate_recursive.js:231-234 | the new state is the description UPDATE's result |
| Database.Store.RepointThemeLinks | consolidate_recursive.js:188-191 | the re-pointing UPDATE as written: the merged theme's links move only when the primary has none; a failure leaves the state unchanged |
| Database.Store.DeleteThemeLinks | consolidate_recursive.js:194-197 | the merged theme's links are deleted |
| Database.Store.DeleteTheme | consolidate_recursive.js:200 | the theme row is deleted, with its cascade |
| Database.Store.RepointSubthemeThemeLinks | consolidate_recursive.js:238-241 | the re-pointing UPDATE as written: the merged subtheme's theme links move only when the primary has none; a failure leaves the state unchanged |
| Database.Store.RepointSubthemeArticleLinks | consolidate_recursive.js:244-247 | the re-pointing UPDATE as written: the merged subtheme's article links move only when the primary has none; a failure leaves the state unchanged |
| Database.Store.DeleteSubthemeThemeLinks | consolidate_recursive.js:250 | the merged subtheme's theme links are deleted |
| Database.Store.DeleteSubthemeArticleLinks | consolidate_recursive.js:251 | the merged subtheme's article links are deleted |
| Database.Store.DeleteSubtheme | consolidate_recursive.js:254 | the subtheme row is deleted, cascading to links and evidence |
| Database.Store.SelectPaperByTitle | analyze_papers.js:279-284 | a row is found exactly when the title is non-NULL and stored |
| Database.Store.SelectMaxReference | analyze_papers.js:248 | the result is `MAX(reference_number)` of the table |
| Database.Store.InsertPaper | analyze_papers.js:287-292 | the paper INSERT's outcome: refused on a taken title or number, else the row under the next id |
| Database.Store.SelectEntityId | analyze_papers.js:299 | the id of the row with that name, if any |
| Database.Store.SelectCodeId | analyze_papers.js:369 | the id of the code with that name, if any |
| Database.Store.InsertEntity | analyze_papers.js:304-307 | the theme or subtheme INSERT's outcome |
| Database.Store.InsertCode | analyze_papers.js:374-377 | the code INSERT's outcome |
| Database.Store.InsertThemeSubtheme | analyze_papers.js:340-343 | the `theme_subthemes` INSERT's outcome |
| Database.Store.InsertArticleSubtheme | analyze_papers.js:354-357 | the `article_subthemes` INSERT's outcome |
| Database.Store.InsertArticleCode | analyze_papers.js:391-394 | the `article_codes` INSERT's outcome |
| Transactions.MergeThemeInto | consolidate_recursive.js:186-204 | succeeds exactly when the statements for one merged theme all succeed, and then leaves their result |
| Transactions.MergeThemeGroup | consolidate_recursive.js:177-210 | one group from BEGIN to COMMIT or ROLLBACK: the state and count of `ThemeGroup` |
| Transactions.MergeThemeGroups | consolidate_recursive.js:166-214 | `mergeThemes`: the state and `mergeCount` of `MergeThemes` |
| Transactions.MergeSubthemeInto | consolidate_recursive.js:236-258 | succeeds exactly when the statements for one merged subtheme all succeed, and then leaves their result |
| Transactions.MergeSubthemeGroup | consolidate_recursive.js:227-264 | one group from BEGIN to COMMIT or ROLLBACK: the state and count of `SubthemeGroup` |
| Transactions.MergeSubthemeGroups | consolidate_recursive.js:216-268 | `mergeSubthemes`: the state and `mergeCount` of `MergeSubthemes` |
| Merge.MergeThemeList | consolidate_recursive.js:186-204 | the loop stops at the first failure and reaches the end exactly when all merges succeed |
| Merge.ThemeGroup | consolidate_recursive.js:172-210 | a group without merge ids is skipped and counts 0; a group that stops before its last id is rolled back to the old state, and its count never exceeds its ids |
| Merge.MergeThemes | consolidate_recursive.js:166-214 | a zero `mergeCount` means the tables are unchanged |
| Merge.MergeSubthemeList | consolidate_recursive.js:236-258 | the loop stops at the first failure and reaches the end exactly when all merges succeed |
| Merge.SubthemeGroup | consolidate_recursive.js:222-264 | a group without merge ids is skipped and counts 0; a group that stops before its last id is rolled back to the old state, and its count never exceeds its ids |
| Merge.MergeSubthemes | consolidate_recursive.js:216-268 | a zero `mergeCount` means the tables are unchanged |
| MergeProperties.RepointNeverCollides | consolidate_recursive.js:188-247 | no re-pointing UPDATE ever violates a link table's primary key: rows move only onto a primary with no row in that table |
| MergeProperties.ThemeMergeFailure | consolidate_recursive.js:186-210 | a theme merge fails exactly when the primary has no subtheme, the merged theme has one, and the primary row is missing |
| MergeProperties.ThemeMergeLinks | consolidate_recursive.js:186-200 | after a theme merge the primary keeps its own subthemes when it has any, else takes the merged theme's; the merged theme has none; other themes are untouched |
| MergeProperties.ThemeListFailsAt | consolidate_recursive.js:186-204 | a run whose merge at index `k` fails yields no state and a count of `k` |
| MergeProperties.ThemeGroupFailsAt | consolidate_recursive.js:186-210 | a group whose merge at index `k` fails is rolled back to the old state and still counts `k` (the increments before the failure survive the ROLLBACK) |
| MergeProperties.ThemeListLinks | consolidate_recursive.js:186-204 | after a committed run the primary holds the subthemes of the first of itself and the merged themes that had any |
| MergeProperties.MergeOneThemeValid | consolidate_recursive.js:186-204 | one theme merge keeps every constraint, removes the merged row and touches only `themes` and `theme_subthemes` |
| MergeProperties.ThemeListCommitted | consolidate_recursive.js:186-206 | a committed run removes exactly the merged themes and keeps every constraint |
| MergeProperties.ThemeGroupCommitted | consolidate_recursive.js:177-206 | after a commit the merged ids are gone, the primary carries the new description and the subthemes of the first of itself and the merged themes that had any, and the count is the number of ids |
| MergeProperties.MergeThemesValid | consolidate_recursive.js:166-214 | `mergeThemes` keeps every constraint and only removes themes and changes their links |
| MergeProperties.SubthemeMergeFailure | consolidate_recursive.js:236-264 | a subtheme merge fails exactly when the primary row is missing and, in some link table, the primary has no row while the merged subtheme has one |
| MergeProperties.SubthemeMergeLinks | consolidate_recursive.js:236-254 | in each link table the merged subtheme's rows move to the primary only when the primary has none there; no row references the merged one; other rows are untouched |
| MergeProperties.SubthemeListFailsAt | consolidate_recursive.js:236-258 | a run whose merge at index `k` fails yields no state and a count of `k` |
| MergeProperties.SubthemeGroupFailsAt | consolidate_recursive.js:236-264 | a group whose merge at index `k` fails is rolled back to the old state and still counts `k` |
| MergeProperties.MergeOneSubthemeValid | consolidate_recursive.js:236-257 | one subtheme merge keeps every constraint, and its evidence rows are deleted by the cascade, not re-pointed |
| MergeProperties.SubthemeListCommitted | consolidate_recursive.js:236-258 | a committed run keeps every constraint and removes exactly the merged subtheme rows and their evidence |
| MergeProperties.EvidenceKeptStep | consolidate_recursive.js:254 | dropping one subtheme's evidence and then the rest is dropping all of it |
| MergeProperties.SubthemeGroupCommitted | consolidate_recursive.js:227-258 | after a commit no subtheme row, link or evidence row references a merged id |
| MergeProperties.MergeSubthemesValid | consolidate_recursive.js:216-268 | `mergeSubthemes` keeps every constraint and never touches themes, papers or codes |
| Findings.RepointCorrelatedNeverCollides | consolidate_recursive.js:188-247 | with the guard correlated, no re-pointing UPDATE violates a link table's primary key |
| Findings.ThemeMergeFailureCorrelated | consolidate_recursive.js:186-210 | with the guard correlated, a theme merge fails exactly when the primary is missing and the merged theme has a subtheme the primary lacks |
| Findings.ThemeMergeLinksCorrelated | consolidate_recursive.js:186-200 | with the guard correlated, the primary ends with the union of both themes' subthemes; other themes are untouched |
| Findings.MergeOneThemeCorrelatedValid | consolidate_recursive.js:186-204 | with the guard correlated, one theme merge keeps every constraint and touches only `themes` and `theme_subthemes` |
| Findings.SelectsSome | consolidate_recursive.js:239 | the correlated guard selects a row exactly when some owner of `m` lacks `p` |
| Findings.SubthemeMergeFailureCorrelated | consolidate_recursive.js:236-264 | with the guards correlated, a subtheme merge fails exactly when the primary is missing and some owner has the merged subtheme but not the primary |
| Findings.SubthemeMergeLinksCorrelated | consolidate_recursive.js:236-254 | with the guards correlated, every theme and article that had either subtheme has the primary afterwards |
| Findings.MergeOneSubthemeCorrelatedValid | consolidate_recursive.js:236-257 | with the guards correlated, one subtheme merge keeps every constraint; themes, papers and codes are untouched |
| Findings.WitnessValid | consolidate_recursive.js:166-268 | the counterexample store satisfies every constraint |
| Findings.WitnessThemeLinks | consolidate_recursive.js:188-191 | the witness's themes 1 and 2 have subthemes {10} and {11} |
| Findings.ThemeMergeLosesLinks | consolidate_recursive.js:188-197 | as written, merging theme 2 into 1 leaves theme 1 with {10}; the correlated statement leaves {10, 11} |
| Findings.SubthemeMergeLosesLinks | consolidate_recursive.js:238-251 | as written, merging subtheme 11 into 10 drops theme 2's and paper 6's links |
| Findings.SubthemeMergeKeepsLinksCorrelated | consolidate_recursive.js:238-251 | the correlated statements keep theme 2's and paper 6's links |
| Oracle.GroupsToApply | consolidate_recursive.js:305-316 | groups are merged exactly when the first call has the declared name and non-empty `consolidation_groups` |
| Oracle.MergeGroups | consolidate_recursive.js:309-311 | a zero count means the tables are unchanged |
| Oracle.Applied | consolidate_recursive.js:305-328 | a failed call or a reply without groups changes nothing and counts 0 |
| Oracle.ShrinksTransitive | consolidate_recursive.js:275-343 | shrinking a table composes over several steps |
| Oracle.AppliedShrinks | consolidate_recursive.js:305-319 | handling a reply keeps every constraint and only removes rows of the table it consolidates |
| Oracle.StepShrinks | consolidate_recursive.js:305-319 | the same, for the step a driver is given |
| Oracle.ApplyGroups | consolidate_recursive.js:309-311 | the store ends as `MergeGroups` says |
| Oracle.ApplyReply | consolidate_recursive.js:305-319 | the store ends as `Applied` says |
| Chunking.CeilDivIsCeiling | consolidate_recursive.js:296 | `Math.ceil(n / size)` is the least number of chunks that holds `n` rows |
| Chunking.ChunksCover | consolidate_recursive.js:293-294 | the chunks, concatenated, are the rows in order |
| Chunking.ChunkShape | consolidate_recursive.js:293-296 | there are `ceil(n / size)` chunks, none empty and none larger than `size` |
| SinglePassConsolidation.RowsOf | consolidate_themes.js:298-299 | one row list per request, the one the request carried |
| SinglePassConsolidation.ThemeStepShrinks | consolidate_themes.js:268-288 | the theme step keeps the constraints, only removes themes, and leaves the subthemes alone |
| SinglePassConsolidation.SubthemeChunksShrink | consolidate_themes.js:295-322 | the subtheme loop keeps the constraints and only removes subthemes |
| SinglePassConsolidation.SubthemeRequestsAreChunks | consolidate_themes.js:297-302 | one request per chunk of 50, in order: all of them when the loop completes, a prefix otherwise |
| SinglePassConsolidation.SubthemeLoopStopsOnFailure | consolidate_themes.js:298-333 | the loop stops at the first failed call, which is the last request made |
| SinglePassConsolidation.SubthemeRequestsCoverRows | consolidate_themes.js:297-299 | a completed loop sends every selected row, in order, at most 50 per request |
| SinglePassConsolidation.ThemeRequestListsAllThemes | consolidate_themes.js:268-272 | the theme request comes first and lists every theme in name order |
| SinglePassConsolidation.SubthemeRequestsCoverAllSubthemes | consolidate_themes.js:292-299 | a completed run sends every subtheme the store held before it, in name order |
| SinglePassConsolidation.ThemeFailureStopsEverything | consolidate_themes.js:272-333 | a failed theme call ends the run before any change and before any subtheme request |
| SinglePassConsolidation.ConsolidateOnceShrinks | consolidate_themes.js:255-338 | the run keeps every constraint, only removes themes and subthemes, and leaves papers and codes alone |
| SinglePassConsolidation.ConsolidateThemes | consolidate_themes.js:268-288 | the store and the completion flag are those of the theme step |
| SinglePassConsolidation.ConsolidateSubthemeChunks | consolidate_themes.js:295-322 | the store and the completion flag are those of the subtheme loop |
| SinglePassConsolidation.ConsolidateThemesAndSubthemes | consolidate_themes.js:255-338 | `consolidateThemesAndSubthemes` against the store: the outcome of `ConsolidateOnce`, constraints kept |
| RecursiveConsolidation.ChunkSize | consolidate_recursive.js:273 | the chunk size is positive (30 themes, 40 subthemes) |
| RecursiveConsolidation.ChunkRequest | consolidate_recursive.js:294-303 | the request for offset `i` carries the chunk that starts there |
| RecursiveConsolidation.PassShrinks | consolidate_recursive.js:293-329 | a pass keeps the constraints and shrinks the table it consolidates |
| RecursiveConsolidation.FewRowsStop | consolidate_recursive.js:283-286 | with one row or none the loop stops at once, converged |
| RecursiveConsolidation.NoMergeStops | consolidate_recursive.js:333-336 | a pass that merges nothing ends the loop, converged |
| RecursiveConsolidation.MergeGoesOn | consolidate_recursive.js:331-339 | a pass that merges something is followed by the next iteration |
| RecursiveConsolidation.ConsolidateShrinks | consolidate_recursive.js:275-343 | the loop keeps the constraints, shrinks the table and only adds to the total |
| RecursiveConsolidation.AppliedZeroMeansUnchanged | consolidate_recursive.js:305-319 | a reply that merges nothing changes nothing |
| RecursiveConsolidation.NoMergeNoChange | consolidate_recursive.js:293-329 | a pass that counts no merge leaves the store as it was |
| RecursiveConsolidation.ConvergedIsStable | consolidate_recursive.js:283-336 | a converged result is a fixpoint: one row or none, or a pass over it merges nothing |
| RecursiveConsolidation.UnconvergedUsesAllPasses | consolidate_recursive.js:275-343 | a run that does not converge used every pass it was given |
| RecursiveConsolidation.MissingThemeStillCounted | consolidate_recursive.js:186-204 | a group naming a missing theme commits and counts one merge but removes nothing |
| RecursiveConsolidation.RunPass | consolidate_recursive.js:293-329 | the store and `iterationMerges` after a pass are those of `PassFrom` |
| RecursiveConsolidation.PassKeepsValid | consolidate_recursive.js:293-329 | the tables a pass produces keep every constraint and shrink the table |
| RecursiveConsolidation.PassTurn | consolidate_recursive.js:290-343 | a pass and its stop decision: stop exactly when it merged nothing |
| RecursiveConsolidation.Turn | consolidate_recursive.js:280-343 | one turn of the loop: select, stop on one row or none, else a pass |
| RecursiveConsolidation.ConsolidateRecursively | consolidate_recursive.js:275-343 | the loop against the store ends as `Consolidate` says |
| RecursiveConsolidation.ConsolidateThemesRecursively | consolidate_recursive.js:270-346 | `consolidateThemesRecursively` ends as `Consolidate` on themes says |
| RecursiveConsolidation.ConsolidateSubthemesRecursively | consolidate_recursive.js:348-422 | `consolidateSubthemesRecursively` ends as `Consolidate` on subthemes says |
| RecursiveConsolidation.RunRecursiveConsolidation | consolidate_recursive.js:424-466 | themes to a fixpoint first, then subthemes; constraints kept and both tables only shrink |
| IngestStatements.ExtendsReflexive | analyze_papers.js:275-403 | a state extends itself |
| IngestStatements.ExtendsTransitive | analyze_papers.js:275-403 | row additions compose |
| IngestStatements.MaxReferenceNumber | analyze_papers.js:248 | NULL exactly when no paper has a number, else the largest number |
| IngestStatements.InsertPaperRow | analyze_papers.js:287-292 | refused with a UNIQUE violation exactly when the title or the reference number is taken |
| IngestStatements.FindEntityId | analyze_papers.js:299 | the row with that name; none exactly when the name is NULL or absent |
| IngestStatements.FindCodeId | analyze_papers.js:369 | the code with that name; none exactly when the name is NULL or absent |
| IngestStatements.InsertEntityRow | analyze_papers.js:304-307 | refused on a NULL name (NOT NULL) or a taken name (UNIQUE), else a new row |
| IngestStatements.InsertCodeRow | analyze_papers.js:374-377 | refused on a NULL name (NOT NULL) or a taken name (UNIQUE) |
| IngestStatements.InsertThemeSubthemeRow | analyze_papers.js:340-343 | succeeds exactly when both keys exist and the row is new, and adds exactly that row |
| IngestStatements.InsertArticleSubthemeRow | analyze_papers.js:354-357 | succeeds exactly when both keys exist and the row is new, and adds exactly that row |
| IngestStatements.InsertArticleCodeRow | analyze_papers.js:391-394 | succeeds exactly when the three keys exist and the row is new, and adds it with its quote |
| IngestStatements.InsertPaperRowValid | analyze_papers.js:287-292 | a paper insert keeps every constraint and only adds its row |
| IngestStatements.InsertEntityRowValid | analyze_papers.js:304-307 | an entity insert keeps every constraint and only adds its row |
| IngestStatements.NameIsTaken | analyze_papers.js:299 | a stored row's name counts as taken |
| IngestStatements.InsertCodeRowValid | analyze_papers.js:374-377 | a code insert keeps every constraint and only adds its row |
| IngestStatements.InsertThemeSubthemeRowValid | analyze_papers.js:340-343 | the link insert keeps every constraint and only adds its row |
| IngestStatements.InsertArticleSubthemeRowValid | analyze_papers.js:354-357 | the link insert keeps every constraint and only adds its row |
| IngestStatements.InsertArticleCodeRowValid | analyze_papers.js:391-394 | the evidence insert keeps every constraint and only adds its row |
| PaperRecord.CodesLinkedGrows | analyze_papers.js:362-398 | linked codes stay linked as rows are added |
| PaperRecord.SubthemesLinkedGrows | analyze_papers.js:315-400 | linked subthemes stay linked as rows are added |
| PaperRecord.ThemesLinkedGrows | analyze_papers.js:296-402 | linked themes stay linked as rows are added |
| PaperRecord.FindOrCreateEntityValid | analyze_papers.js:299-312 | find-or-create fails only on a NULL name; a found row is reused untouched, a created one carries the name |
| PaperRecord.FindOrCreateCodeValid | analyze_papers.js:369-382 | the same for codes |
| PaperRecord.InsertCodeValid | analyze_papers.js:363-396 | one code fails exactly on a NULL name, changing nothing; otherwise the paper carries the code under the subtheme, with its quote |
| PaperRecord.InsertCodesValid | analyze_papers.js:362-398 | the codes fail exactly when some name is NULL; a full run links every one |
| PaperRecord.NullCodeSplit | analyze_papers.js:362-398 | a NULL code name is in the first entry or in the rest |
| PaperRecord.LinkedCodesJoin | analyze_papers.js:362-398 | the first code linked and the rest linked is all linked |
| PaperRecord.LinkSubthemeValid | analyze_papers.js:334-359 | the two guarded link inserts of a subtheme never fail |
| PaperRecord.InsertSubthemeValid | analyze_papers.js:316-398 | one subtheme fails exactly when its name or a code name is NULL; a full run links all of it |
| PaperRecord.InsertSubthemesValid | analyze_papers.js:315-400 | a theme's subthemes fail exactly when one carries a NULL name |
| PaperRecord.NullSubthemeSplit | analyze_papers.js:315-400 | a NULL name is in the first subtheme or in the rest |
| PaperRecord.InsertThemeValid | analyze_papers.js:297-400 | one theme fails exactly when its name or a name below it is NULL |
| PaperRecord.InsertThemesValid | analyze_papers.js:296-402 | a paper's themes fail exactly when one carries a NULL name; a full run links them all |
| PaperRecord.NullThemeSplit | analyze_papers.js:296-402 | a NULL name is in the first theme or in the rest |
| PaperRecord.InsertPaperResultValid | analyze_papers.js:275-403 | keeps every constraint and only adds rows; a stored title writes nothing; a NULL title or taken number fails before any write |
| PaperRecord.InsertPaperResultWrites | analyze_papers.js:286-402 | a new title is stored as given under the next id and fails exactly when a name below it is NULL |
| PaperIngestion.FindOrCreate | analyze_papers.js:299-312 | the store ends as `FindOrCreateEntity` says |
| PaperIngestion.FindOrCreateCode | analyze_papers.js:369-382 | the store ends as `FindOrCreateCode` says |
| PaperIngestion.InsertCode | analyze_papers.js:363-397 | the state and error are those of `InsertCode` |
| PaperIngestion.InsertCodes | analyze_papers.js:362-398 | the state and error are those of `InsertCodes` |
| PaperIngestion.InsertSubtheme | analyze_papers.js:316-399 | the state and error are those of `InsertSubtheme` |
| PaperIngestion.InsertSubthemes | analyze_papers.js:315-400 | the state and error are those of `InsertSubthemes` |
| PaperIngestion.InsertTheme | analyze_papers.js:297-401 | the state and error are those of `InsertTheme` |
| PaperIngestion.InsertThemes | analyze_papers.js:296-402 | the state and error are those of `InsertThemes` |
| PaperIngestion.InsertPaperResult | analyze_papers.js:275-403 | the state and error are those of `InsertPaperResult`, constraints kept |
| PaperIngestion.GetNextReferenceNumber | analyze_papers.js:247-251 | `MAX + 1` (1 for NULL or 0), never a stored number |
| PaperIngestion.HandleFile | analyze_papers.js:505-662 | the state and success flag are those of `HandleFile`, constraints kept |
| PaperIngestion.ProcessFiles | analyze_papers.js:499-663 | the state and three counters are those of `ProcessFiles` |
| PaperIngestion.ProcessPapers | analyze_papers.js:488-674 | nothing when the directory cannot be listed, else the loop over its PDF files |
| PaperProcessing.NextReferenceIsFresh | analyze_papers.js:247-251 | the number handed out is never a stored reference number |
| PaperProcessing.PdfFiles | analyze_papers.js:492 | exactly the listed files whose names end in `.pdf` |
| PaperProcessing.Accepted | analyze_papers.js:597-611 | the extraction is kept exactly when the first call is `insert_paper` with title, authors and themes |
| PaperProcessing.Corrected | analyze_papers.js:603-608 | the caller's reference number replaces the analyst's, and nothing else changes |
| PaperProcessing.ProcessFilesCounts | analyze_papers.js:499-663 | every file counts once, as a success or an error; constraints kept and rows only added |
| PaperProcessing.HandleFileValid | analyze_papers.js:505-662 | one file keeps every constraint and only adds rows |
| PaperProcessing.RejectedFileWritesNothing | analyze_papers.js:597-650 | an unreadable file or a reply without a complete `insert_paper` writes nothing and is an error |
| PaperProcessing.StoredTitleCountsAsSuccess | analyze_papers.js:279-284 | a stored title writes nothing yet counts as a success |
| PaperProcessing.NewTitleStoredWithNextReference | analyze_papers.js:603-635 | a new title is stored under the chosen number; the file succeeds exactly when no name below it is NULL |
| PaperProcessing.EmptyTablesDense | analyze_papers.js:417-427 | the fresh table has no reference numbers, trivially 1 .. 0 |
| PaperProcessing.RefSetAdd | analyze_papers.js:287-290 | adding a paper adds exactly its reference number |
| PaperProcessing.NextAfterTop | analyze_papers.js:247-251 | with dense numbers the next number is one past the top |
| PaperProcessing.DenseAfterInsert | analyze_papers.js:287-290 | a paper numbered `MAX + 1` keeps the numbers 1 .. MAX |
| PaperProcessing.HandleFileKeepsDense | analyze_papers.js:532-635 | one file keeps the numbers dense |
| PaperProcessing.ProcessFilesKeepsDense | analyze_papers.js:503-663 | after any files the reference numbers are exactly 1 .. MAX |
| PaperProcessing.AnalysisRun | analyze_papers.js:677-702 | from fresh tables every file counts once, numbers are dense and every constraint holds |
| SentenceFilter.Unwrap | analyze_papers.js:137 | every line break becomes a space and nothing else changes |
| SentenceFilter.RunEnd | analyze_papers.js:138 | the end of the white-space run the split consumes |
| SentenceFilter.ConsPieceEndsSentences | analyze_papers.js:138 | a piece ending in a mark before pieces that do, keeps the property |
| SentenceFilter.SplitFromEndsSentences | analyze_papers.js:138 | every piece but the last is non-empty and ends with `.`, `!` or `?` |
| SentenceFilter.SplitFrom | analyze_papers.js:138 | from scan position `i` at least one piece and at most one per remaining character |
| SentenceFilter.SplitFromRebuilds | analyze_papers.js:138 | the pieces joined with the removed white-space runs give back the rest of the text |
| SentenceFilter.SplitFromGaps | analyze_papers.js:138 | every removed run is non-empty white space and is maximal: the next piece does not start with white space |
| SentenceFilter.SplitFromTakesEverySplit | analyze_papers.js:138 | no piece still holds a sentence mark followed by white space: every split point is taken |
| SentenceFilter.Split | analyze_papers.js:138 | the pieces and the runs between them rebuild the unwrapped text; every run is maximal white space; every split point is taken; all pieces but the last end a sentence |
| SentenceFilter.Sentences | analyze_papers.js:136-140 | each sentence is trimmed and is the trim of a piece of the split, never more sentences than pieces |
| SentenceFilter.Limit | analyze_papers.js:147 | at least one sentence is collected, exactly `maxCount` when it is positive |
| SentenceFilter.Clean | analyze_papers.js:139-140 | trimmed, blank pieces dropped, never more than the pieces |
| SentenceFilter.CleanTrimsPieces | analyze_papers.js:139 | every sentence is some trimmed piece |
| SentenceFilter.LowerAll | analyze_papers.js:142 | each keyword lowered, in order |
| SentenceFilter.Mentioning | analyze_papers.js:143-149 | exactly the sentences that mention a keyword, in order |
| SentenceFilter.MentioningAppend | analyze_papers.js:143-149 | matching distributes over concatenation |
| SentenceFilter.Take | analyze_papers.js:147 | a prefix of length `n`, or the whole list |
| SentenceFilter.CollectedSentences | analyze_papers.js:135-151 | at most `maxCount` sentences (at least one allowed), each trimmed, non-empty and mentioning a keyword, in text order |
| SentenceFilter.MentioningStep | analyze_papers.js:143-146 | one more sentence is pushed exactly when it mentions a keyword |
| SentenceFilter.StopEarly | analyze_papers.js:147 | breaking once `maxCount` are found gives the same result as the whole scan, truncated |
| SentenceFilter.Collect | analyze_papers.js:143-149 | the loop returns the first `Limit(maxCount)` mentioning sentences |
| SentenceFilter.ExtractSentencesWithKeywords | analyze_papers.js:135-151 | the first `Limit(maxCount)` sentences that mention a keyword, ignoring case, in order |
| Text.LowerChar | analyze_papers.js:144 | upper-case ASCII letters move to lower case, every other character stays |
| Text.Lower | analyze_papers.js:144 | same length, every character lowered |
| Text.ContainsEmptyAndSelf | analyze_papers.js:145 | `includes` finds the empty string and the string itself |
| Text.ContainsAt | analyze_papers.js:145 | an occurrence at any offset is found |
| Text.ContainsInConcat | frontend/src/components/TableView.js:50-52 | a string found in a part is found in the whole |
| Text.OffsetExists | analyze_papers.js:145 | a found string sits at some offset |
| Text.OffsetOf | analyze_papers.js:145 | the offset of an occurrence |
| Text.LowerConcat | frontend/src/components/TableView.js:50-52 | lowering distributes over concatenation |
| Text.LexLessIrreflexive | frontend/src/components/TableView.js:64-70 | string `<` is irreflexive |
| Text.LexLessTransitive | frontend/src/components/TableView.js:64-70 | string `<` is transitive |
| Text.LexLessTotal | frontend/src/components/TableView.js:64-70 | two different strings are ordered one way or the other |
| Text.LexLessAsymmetric | frontend/src/components/TableView.js:64-70 | string `<` is asymmetric |
| Text.TrimStart | analyze_papers.js:139 | a suffix of the input starting with no white space, all dropped characters white space |
| Text.TrimEnd | analyze_papers.js:139 | a prefix of the input ending with no white space, all dropped characters white space |
| Text.Trim | analyze_papers.js:139 | no white space at either end, and a part of the input |
| Text.TrimEmptyIffBlank | frontend/src/components/ArticleView.js:50 | `trim()` is empty exactly when every character is white space |
| Text.Join | frontend/src/components/ArticleView.js:76 | joining nothing is empty, joining one element is that element |
| Text.JoinContainsEach | frontend/src/components/ArticleView.js:76 | every joined element occurs in the result |
| Dashboard.SubsequenceReflexive | frontend/src/components/ArticleView.js:56 | a list is a subsequence of itself |
| Dashboard.Filter | frontend/src/components/ArticleView.js:58-64 | exactly the elements that pass, as a subsequence |
| Dashboard.AppendNew | frontend/src/components/ArticleView.js:28-29 | adding to a `Set`: the element is there afterwards, nothing is lost, no duplicate is made |
| Dashboard.AppendAll | frontend/src/components/ArticleView.js:17-25 | adding several elements: the union, without duplicates |
| Dashboard.AppendAllConcat | frontend/src/components/ArticleView.js:16-25 | adding `a` then `b` is adding `a + b` |
| Dashboard.Dedup | frontend/src/components/ArticleView.js:47 | `[...new Set(xs)]` has the same elements, each once |
| Dashboard.DedupKeepsFirstOccurrences | frontend/src/components/ArticleView.js:47 | it keeps the first occurrence of every element, in order |
| Dashboard.LessIrreflexive | frontend/src/components/ArticleView.js:85-90 | the cell comparison is irreflexive |
| Dashboard.LessTransitive | frontend/src/components/ArticleView.js:85-90 | the cell comparison is transitive |
| Dashboard.LessTotal | frontend/src/components/ArticleView.js:85-90 | two different cells are ordered |
| Dashboard.PrecedesAsymmetric | frontend/src/components/ArticleView.js:85-90 | the comparator in either direction is asymmetric |
| Dashboard.NotPrecedesTransitive | frontend/src/components/ArticleView.js:85-90 | "not before" is transitive, so the comparator is a consistent order |
| Dashboard.Insert | frontend/src/components/ArticleView.js:71-92 | the insertion adds exactly one copy of `x` |
| Dashboard.InsertSorted | frontend/src/components/ArticleView.js:71-92 | inserting into a sorted list keeps it sorted |
| Dashboard.SortBy | frontend/src/components/ArticleView.js:71-92 | `sort(compare)` is a sorted permutation |
| Dashboard.HandleSort | frontend/src/components/ArticleView.js:95-101 | the clicked column becomes the key; descending exactly on a second click of an ascending column |
| Dashboard.HandleSortAlternates | frontend/src/components/ArticleView.js:95-101 | repeated clicks on one column alternate the direction |
| Dashboard.Sorted | frontend/src/components/ArticleView.js:68-93 | no key: the list as it is; a key: a permutation sorted on that column |
| ThemeSearch.FilteredData | frontend/src/App.js:35-46 | no data or no term: the data as it is; else the same response with exactly the themes whose name, a subtheme's name or a code's name contains the term ignoring case, in order, each kept whole |
| ArticleIndex.CodeNames | frontend/src/components/ArticleView.js:33-34 | exactly the names of the codes |
| ArticleIndex.QuotesOf | frontend/src/components/ArticleView.js:35-37 | exactly the quotes of the codes |
| ArticleIndex.Entries | frontend/src/components/ArticleView.js:45-51 | one cleaned entry per paper, in map insertion order |
| ArticleIndex.ArticleData | frontend/src/components/ArticleView.js:8-52 | nothing without data or themes |
| ArticleIndex.AddRefValid | frontend/src/components/ArticleView.js:17-29 | citing a paper keeps the map and its key order in step |
| ArticleIndex.CiteCodes | frontend/src/components/ArticleView.js:32-39 | the code names and then their quotes are appended to the entry |
| ArticleIndex.CiteReference | frontend/src/components/ArticleView.js:16-39 | one reference creates its entry when missing, then cites it |
| ArticleIndex.CiteReferences | frontend/src/components/ArticleView.js:16-40 | the loop over a subtheme's references |
| ArticleIndex.CiteSubthemes | frontend/src/components/ArticleView.js:14-41 | the loop over a theme's subthemes |
| ArticleIndex.BuildArticleData | frontend/src/components/ArticleView.js:8-52 | the nested loops compute `ArticleData` |
| ArticleIndex.SubthemeRefs | frontend/src/components/ArticleView.js:14-16 | exactly the numbers some subtheme cites |
| ArticleIndex.AllRefs | frontend/src/components/ArticleView.js:13-16 | exactly the numbers some subtheme of some theme cites |
| ArticleIndex.RefsOrder | frontend/src/components/ArticleView.js:16-25 | references enter the map in order, once each |
| ArticleIndex.SubthemesOrder | frontend/src/components/ArticleView.js:14-25 | the same over a theme's subthemes |
| ArticleIndex.ThemesOrder | frontend/src/components/ArticleView.js:13-25 | the same over all themes |
| ArticleIndex.ArticleOrder | frontend/src/components/ArticleView.js:13-45 | one entry per cited paper, without repeats, in order of first citation |
| ArticleIndex.RefsValid | frontend/src/components/ArticleView.js:16-40 | the loop keeps the map and its key order in step |
| ArticleIndex.SubthemesValid | frontend/src/components/ArticleView.js:14-41 | the same for the subtheme loop |
| ArticleIndex.ThemesValid | frontend/src/components/ArticleView.js:13-42 | the same for the theme loop |
| ArticleIndex.UnionAssociative | frontend/src/components/ArticleView.js:27-39 | contributions combine associatively |
| ArticleIndex.UnionNone | frontend/src/components/ArticleView.js:27-39 | the empty contribution adds nothing |
| ArticleIndex.CiteAdds | frontend/src/components/ArticleView.js:27-39 | one citation adds the theme, subtheme, codes and quotes of the subtheme |
| ArticleIndex.RefsAdd | frontend/src/components/ArticleView.js:16-40 | the reference loop adds the subtheme's contribution to each cited paper |
| ArticleIndex.SubthemesAdd | frontend/src/components/ArticleView.js:14-41 | the subtheme loop adds each citing subtheme's contribution |
| ArticleIndex.ThemesAdd | frontend/src/components/ArticleView.js:13-42 | the theme loop adds each citing theme's contribution |
| ArticleIndex.SplitLastSubtheme | frontend/src/components/ArticleView.js:14-41 | a subtheme list cites a paper exactly when its prefix or its last subtheme does |
| ArticleIndex.FromSubthemesMeaning | frontend/src/components/ArticleView.js:14-41 | what a theme's subthemes add to a paper, described without the loop |
| ArticleIndex.SplitLastTheme | frontend/src/components/ArticleView.js:13-42 | a theme list cites a paper exactly when its prefix or its last theme does |
| ArticleIndex.FromThemesMeaning | frontend/src/components/ArticleView.js:13-42 | what the analysis adds to a paper, described without the loop |
| ArticleIndex.EntryMembers | frontend/src/components/ArticleView.js:45-51 | each entry holds, once each, what the analysis adds to its paper, blank quotes dropped |
| ArticleIndex.ArticleContents | frontend/src/components/ArticleView.js:13-51 | a paper's entry lists the citing themes and subthemes, their codes, and the codes' non-blank quotes |
| ArticleIndex.Digits | frontend/src/components/ArticleView.js:59 | `toString` gives a non-empty string of decimal digits |
| ArticleIndex.DigitsRoundTrip | frontend/src/components/ArticleView.js:80-82 | reading the digits back gives the number |
| ArticleIndex.DecimalRoundTrip | frontend/src/components/ArticleView.js:80-83 | `parseInt` undoes `toString`, so sorting the references is numeric |
| ArticleIndex.FilteredArticles | frontend/src/components/ArticleView.js:55-65 | no text: every entry; else exactly the matching entries, in order |
| ArticleIndex.SortedArticles | frontend/src/components/ArticleView.js:68-93 | no key: the entries as they are; a key: a permutation sorted on that column |
| ThemeTable.QuotedNames | frontend/src/components/TableView.js:28 | every code name, in double quotes, in order |
| ThemeTable.CodesCell | frontend/src/components/TableView.js:27-29 | empty without codes; one quoted name for one code |
| ThemeTable.CodesCellHasEachCode | frontend/src/components/TableView.js:27-29 | each code's quoted name occurs in the cell |
| ThemeTable.SubthemeRows | frontend/src/components/TableView.js:25-40 | one row per subtheme, in order |
| ThemeTable.ThemeRowsShape | frontend/src/components/TableView.js:14-40 | a block is the theme's header row followed by a row per subtheme |
| ThemeTable.RowCount | frontend/src/components/TableView.js:12-41 | one row per theme and one per subtheme |
| ThemeTable.ThemeBlock | frontend/src/components/TableView.js:12-41 | each theme's block follows the blocks of the themes before it |
| ThemeTable.BuildTableData | frontend/src/components/TableView.js:8-43 | the loops compute `TableData` |
| ThemeTable.FilteredRows | frontend/src/components/TableView.js:46-54 | no text: every row; else exactly the matching rows, in order |
| ThemeTable.SortedRows | frontend/src/components/TableView.js:57-72 | no key: the rows as they are; a key: a permutation sorted on that column |
| ThemeCollapse.ToggleTheme | frontend/src/components/ThematicAnalysis.js:6-14 | the theme's membership flips and every other theme's stays |
| ThemeCollapse.ToggleTwice | frontend/src/components/ThematicAnalysis.js:6-14 | toggling twice restores the set |
| ThemeCollapse.TogglesCommute | frontend/src/components/ThematicAnalysis.js:6-14 | toggles of two themes commute |

## Left out

- The language model is a function parameter. The prompts' wording, the
  Gemini client and the rate-limit sleeps are not modelled.
- The `while (true)` loops of `consolidate_recursive.js` are bounded by a
  `maxPasses` argument. A run that uses every pass stops unconverged. Both
  outcomes are stated (`ConvergedIsStable`, `UnconvergedUsesAllPasses`).
- PostgreSQL sequences advance even when an INSERT fails. The model draws an
  id only for a row that is stored. Ids are opaque, so no stated property
  depends on this.
- Reading the directory and the PDFs, and parsing PDF text, are modelled as
  a listing and a `FileInput` value per file.
- Logging, `COUNT(*)` reports, the success percentage and the database
  connection errors of the scripts' entry points are not modelled.
- Text.LowerChar: `toLowerCase` is modelled on ASCII letters only. Other
  letters are left unchanged.
- Text.TrimStart: white space is space, tab, line feed, carriage return,
  vertical tab and form feed. This is a subset of what JavaScript's `trim`
  and `\s` accept.
- Text.LexLessTotal: string `<` is modelled on code points. JavaScript
  compares UTF-16 code units, which differs only for characters outside the
  Basic Multilingual Plane.
- NameOrder.ListingSorted: `ORDER BY name` is modelled as code-point order
  (`Text.LexLess`). PostgreSQL orders by the column's collation, which under
  a locale collation can differ (case, accents). Only the order of the rows
  sent to the model, and so the chunk boundaries, depend on it.
- Findings.MergeOneThemeCorrelated and Findings.MergeOneSubthemeCorrelated:
  the corrected statements are proved for one merge only. The lists,
  groups, store methods and drivers use the statements as written.
- Dashboard.SortBy: states a sorted permutation. It does not state that
  ties keep their order, which is how `Array.prototype.sort` behaves.
- ThemeSearch.FilteredData: requires `themes` when a search term is
  present. The JavaScript throws a TypeError there.
- JSON fields that the JavaScript guards with `||` or `&&` are always
  present in the model, possibly empty. These are `codes`, `quotes` and
  `references`, and a quote is never `null`.
- The model's answer fields are typed. JavaScript's truthiness checks on
  `paper_title`, `authors` and `themes` become "present" (or non-empty for
  a string).
- A group whose primary or merge ids are `null`, and a reply whose
  `primary_theme` is missing, are not modelled. Ids are always integers.
- `mockGeminiAnalyze`, React rendering, `getSortIcon`, the fetch/loading
  state of `App.js`, and the scripts outside the core are not part of this
  model.
- The count `mergeThemes` returns in `consolidate_themes.js` is not used by
  that script, and the model ignores it too.

## Findings

| source | as written | input that shows it | evidently intended | confidence | as-written member | corrected member |
|---|---|---|---|---|---|---|
| consolidate_recursive.js:188-191 | The `NOT EXISTS` subquery's `theme_subthemes.subtheme_id` names the subquery's own row. The guard therefore holds only when the primary theme has no subtheme at all. Any other primary keeps only its own subthemes, and the merged theme's links are then deleted. The same statement is at consolidate_themes.js:182. | Theme 1 has subtheme 10 and theme 2 has subtheme 11. Merge theme 2 into theme 1. | Theme 1 has subthemes {10, 11}: each link moves unless the primary already has that subtheme. | not executed | Findings.ThemeMergeLosesLinks | Findings.ThemeMergeLinksCorrelated |
| consolidate_recursive.js:238-247 | Both subtheme re-pointing guards are uncorrelated. The merged subtheme's rows move only when the primary has no row in that table. The same statements are at consolidate_themes.js:227 and 233. | Same store, with paper 5 under subtheme 10 and paper 6 under subtheme 11. Merge subtheme 11 into subtheme 10. | Every theme and article that had subtheme 11 now has subtheme 10: {(1,10),(2,10)} and {(5,10),(6,10)}. | not executed | Findings.SubthemeMergeLosesLinks | Findings.SubthemeMergeLinksCorrelated |
