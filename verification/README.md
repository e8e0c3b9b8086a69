# PipelineIQ: verified models

This project models the parts of PipelineIQ whose correctness spans several
functions, and proves what they promise over every input, run or reachable state.

- **Running a pipeline** (`Pipeline.dfy`, `Parser.dfy`, `Runner.dfy`, `Sandbox.dfy`).
  The parser accepts a step list; the runner and the sandbox execute it while
  dropping tables nobody will read again. Tables are values of any type, and the step
  executor is any function of a step and the tables it looks up, which may fail.
- **Column lineage** (`Digraph.dfy`, `LineageIds.dfy`, `Lineage.dfy`,
  `LineageRuns.dfy`, `LineageRecorder.dfy`, `LineageQueries.dfy`,
  `LineageAncestry.dfy`, `LineageImpact.dfy`). Recording builds a graph; ancestry,
  impact and layout queries read it.
- **The Arrow bus** (`Glob.dfy`, `ArrowKeys.dfy`, `ArrowBus.dfy`, `ArrowManifest.dfy`,
  `ArrowDataBus.dfy`). A store with three tiers, a location map and persisted
  manifests, shown to be a plain last-writer map.
- **SQL scanning and building** (`SqlScanner.dfy`, `SqlBuilder.dfy`, `SqlReading.dfy`,
  `SqlOrder.dfy`). The lexer loop that masks literals and comments, the builders whose
  output it must read correctly, and a reader that recovers what the built texts say.
- **Caches and row loops** (`Lru.dfy`, `PipelineCache.dfy`, `Wasm.dfy`).
- **Contracts and healing** (`Contract.dfy`, `Patch.dfy`, `Healing.dfy`).

`Basics.dfy` holds what these share.

Each component has a specification (a function, a declarative predicate or an
abstract map) and a method or class in the form of the source that is proved to meet it.
`dafny verify dfyconfig.toml` checks the whole project.

## Where the code does other than one might expect

- Eviction in the runner is invisible for *every* step list and executor, not only
  for validated ones; validation is what makes `NoInputMissing` true.
- The identifier pattern of step names ends in `$`, so a name with a trailing newline
  passes; the model keeps that.
- The sandbox stores nothing for a save step, so a pipeline in which a step other than
  a save reads a save step is accepted by the parser and always fails in the sandbox
  (`Sandbox.FeedableExactly`); a save that reads a save is skipped over.
- A run called `manifest` writes its tables over other runs' manifests
  (`ArrowKeys.RunNamedManifestCollides`).
- The shared-memory sweep hands the run identifier to the file system as part of a
  pattern. It takes a file of another run exactly when the identifier, read as a pattern,
  matches that run or a part of it that ends before an underscore
  (`ArrowKeys.SweepIsExact`): a run called `*` takes every run's files
  (`ArrowKeys.StarSweepsAll`), `[ab]` leaves its own (`ArrowKeys.BracketsMissTheirOwn`),
  and with underscores one run takes the files of another
  (`ArrowKeys.SweepTakesLongerRun`). UUIDs are in none of these cases.
- A `put` deletes the old table first, so when the upload to spill storage fails the key
  is lost.
- The sweep for orphaned spill files looks at the top level of the storage directory,
  while the bus nests its spill files, so it never finds them
  (`ArrowKeys.SpillNeverSwept`).
- If a deletion in Redis fails, a later demotion can bring an overwritten table back
  (`ArrowManifest.FailedDeleteResurrects`). If a write to Redis raises after taking
  effect, `put` falls back to another tier and leaves the table in Redis; it can come
  back as a stale table exactly when it is at least half the small threshold and its
  run is not called `shm` (`ArrowManifest.LeakReturnsExactly`).
- A column that a WASM step passes along is an ancestor of its copy exactly when it is
  also an argument (`LineageRuns.PassedColumnTraced`), and a step that gives columns
  but was recorded with nothing it read leaves them without a source file
  (`LineageRuns.TracedExactlyWhenFed`).
- A WASM step that writes its result over the only column of a table returns two
  entries per row (`Wasm.OnlyColumnDoubles`); `Wasm.AlignedExactly` gives the exact
  condition.
- After an exhausted quota the healing result reports three attempts however many were
  made; `Healing.AttemptHeal` states exactly when the number is right.
- The null rate is computed in doubles: 7 nulls among 25 cells are reported against a
  threshold of 28 percent (`Contract.SevenOfTwentyFive`). For integer thresholds and up to
  10^12 rows the rule errs exactly when the rate is the threshold itself and its computed
  percentage is above it, and never overlooks a rate that is too high
  (`Contract.RateErrsExactly`).
- A source file called `unknown` is passed over by the ancestry query as if there were
  no file (`LineageQueries.FirstFileFacts`).
- A patch compares as Python does, so it replaces a true or a 1.0 by naming 1
  (`Patch.TrueIsOne`); the round-trip results state what that takes.
- Restoring a patched field by the inverse patch fails for a sort field that held no list
  and was given one, and for a step's name unless nothing changed; `Patch.UndoneExactly`
  states when a patch of one item is undone.
- The filters `contains`, `starts_with` and `ends_with` keep the texts their names promise
  exactly when the value has neither `%` nor `_`, which the database takes as wildcards
  (`SqlOrder.PatternsMeanTextExactly`).
- A null breaks `allowed_values` unless the text `None` is allowed
  (`Contract.HasDisallowed`), and a boolean passes as a patch's confidence
  (`Healing.ConfidenceOk`).

## What the surroundings are taken to do

- **Bus:** one bus owns its Redis keys, and deletions in Redis, in shared memory and of
  spill files succeed, as do reads of what is there. Writes to Redis may fail, also after
  taking effect as long as what they leave is never demoted; writes to manifests, to
  shared memory and to spill storage may fail, leaving nothing the bus refers to; Redis
  and shared-memory entries may vanish at any time. Run identifiers contain none of `:`,
  `_`, `/`, `*`, `?` and `[` and are not `manifest`, and the disk prefix has no `/`; the
  shared-memory digest is sixteen hexadecimal digits without collisions on the texts in
  use; the UUID in a spill name is new. The order in which Redis and dictionaries list
  keys is arbitrary.
- **Caches:** the hash has no collisions on the texts (or module bytes) in use; Redis calls may be skipped by the back-off,
  succeed, or fail with or without having taken effect.
- **WASM:** the guest may keep memory between calls, and the timeout may fire at any row.
- **Healing:** replies, JSON and YAML reading and writing, and trial runs are arbitrary
  functions; replies and trials may differ between attempts.

## Model

| member | source | states |
|---|---|---|
| `Parser.IdentifierFacts` | backend/utils/string_utils.py:10-49 | A name the identifier pattern accepts is not blank and has no colon |
| `Parser.IdentifierExactly` | backend/utils/string_utils.py:10-49 | The pattern accepts exactly the words over the lower and upper case letters, the digits and the underscore that do not start with a digit, and the same with one final newline |
| `Parser.CountNames` | backend/pipeline/parser.py:791-805 | The counting loop yields each name once, in order of first appearance, with its number of occurrences |
| `Parser.RepeatErrorsExact` | backend/pipeline/parser.py:791-805 | Reports exactly the repeated names, each with its count |
| `Parser.DuplicatesSilent` | backend/pipeline/parser.py:791-805 | No duplicate report exactly when all names differ |
| `Parser.CheckDuplicateStepNames` | backend/pipeline/parser.py:791-805 | Appends exactly the duplicate reports |
| `Parser.CheckEachStep` | backend/pipeline/parser.py:807-871 | A per-step check appends its reports in step order |
| `Parser.StepSilent` | backend/pipeline/parser.py:807-871 | A step passes name, type and required-field checks exactly when it is well formed and the fields its type requires, taken as a parameter, are filled |
| `Parser.CheckReference` | backend/pipeline/parser.py:1124-1151 | One step's references are checked against the names seen so far |
| `Parser.CheckStepReferences` | backend/pipeline/parser.py:1112-1151 | Appends exactly the reports of references that name no earlier step |
| `Parser.ReferencesSilent` | backend/pipeline/parser.py:1112-1151 | No reference report exactly when every input names an earlier step |
| `Parser.SilenceMeansWellFormed` | backend/pipeline/parser.py:395-430 | The five structural checks are silent exactly on well-formed step lists with filled fields |
| `Parser.ReportsExact` | backend/pipeline/parser.py:791-1151 | What the five checks report is exactly what is wrong: each repeated name with its count, each non-empty name outside the pattern, each unknown type, each blank reference field and each filled one that names no earlier step, besides the reports on other required fields |
| `Parser.Validate` | backend/pipeline/parser.py:395-430 | The validator accepts exactly the well-formed step lists on which the other checks, taken as parameters, are silent, and reports exactly what these and the five structural checks find |
| `Runner.ComputeConsumerCounts` | backend/pipeline/runner.py:104-110 | Every name that is read is counted as often as the whole pipeline reads it |
| `Runner.CountInputs` | backend/pipeline/runner.py:106-109 | One step's inputs are counted as often as it names them |
| `Runner.EvictEffect` | backend/pipeline/runner.py:113-132 | A pass lowers counts by the reads made and drops a table exactly when its count is spent, self-joins included |
| `Runner.TableRegistry.StoreAndEvict` | backend/pipeline/runner.py:113-132 | The in-place update of registry and counts |
| `Runner.RemainingIsReadsLeft` | backend/pipeline/runner.py:104-132 | At every turn the counts are the reads left in the rest of the pipeline |
| `Runner.SameTurns` | backend/pipeline/runner.py:176-239 | At every turn, for every step list and executor, the evicting loop shows the same results, events, outcome and rows as one that keeps every table |
| `Runner.NoInputMissing` | backend/pipeline/runner.py:186-210 | With references to earlier steps, no step finds an input missing |
| `Runner.KeptHasEveryOutput` | backend/pipeline/runner.py:176-239 | The keeping loop holds exactly the outputs of the steps it has run |
| `Runner.RegistryIsLiveTables` | backend/pipeline/runner.py:104-132 | After k steps the registry holds exactly the outputs still to be read and those never read |
| `Runner.OnlyLaterStepsRead` | backend/pipeline/parser.py:1112-1151 | In an accepted pipeline a step's output is read only after it |
| `Runner.SummaryShape` | backend/pipeline/runner.py:212-239 | At every turn there is one result per completed step in order, the row total is the sum of their inputs, and the events are two per completed step followed by those of the step that stopped the run |
| `Runner.StoppedStays` | backend/pipeline/runner.py:186-239 | After a failure nothing more happens |
| `Runner.ResultsSolvePipeline` | backend/pipeline/runner.py:241-349 | At every turn, for every step list and executor, each result is the executor's answer to the results of the steps it names, left before right |
| `Runner.StoppedByAnswer` | backend/pipeline/runner.py:284-300 | At every turn a run that has stopped is failed with the step error, or raised with the other error, that the executor answers for the first step without a result |
| `Runner.FailedEventExactly` | backend/pipeline/runner.py:289-300 | The failed event is emitted exactly when the run ends in a step error, for the first step without a result |
| `Runner.ReportIsUnique` | backend/pipeline/runner.py:156-239 | Exactly one summary fits an executor: results, row total, status and events are settled by its answers alone |
| `Runner.RunLoop` | backend/pipeline/runner.py:176-239 | The imperative loop computes the evicting run |
| `Runner.Execute` | backend/pipeline/runner.py:156-239 | Execution equals execution without eviction, and reports results, row total, status and events as the executor's answers settle them: completed without a refusal, failed after a step error, raised after any other error |
| `Sandbox.CountsAreReadsLeft` | backend/execution/sandbox.py:169-197 | At every turn the counts are the reads left |
| `Sandbox.RegistryHolds` | backend/execution/sandbox.py:89-167 | Every earlier output that is still to be read, other than a save's, is held |
| `Sandbox.NeverUnavailable` | backend/execution/sandbox.py:89-207 | With every file sampled and no step starved by a save step, no input is reported unavailable |
| `Sandbox.UnfeedableFails` | backend/execution/sandbox.py:89-207 | A step that reads a save step makes the run fail, for every executor |
| `Sandbox.FeedableExactly` | backend/execution/sandbox.py:89-207 | With an executor that always answers, a non-empty accepted pipeline yields a table exactly when every step is feedable; an empty one ends in the no-output error |
| `Sandbox.SandboxIsValue` | backend/execution/sandbox.py:89-207 | Without reads of save steps, the run agrees at every turn with a meaning that keeps every table and lets a save store its input |
| `Sandbox.ValueIsAnswer` | backend/execution/sandbox.py:98-161 | A load yields its file's sample, a save or validate the table of the step it names, and every other step the executor's answer to the tables of the steps it names, left before right; otherwise the error says which sample or input is missing |
| `Sandbox.RunAnswers` | backend/execution/sandbox.py:89-167 | For every accepted pipeline, reads of save steps included, the run shows what the last step leaves or the error of the first step that yields one, each step answered on the tables that the steps it names stored, whatever was released |
| `Sandbox.AnswerIsUnique` | backend/execution/sandbox.py:89-167 | Sampled files and executor settle that answer |
| `Sandbox.SandboxRun.ReleaseDependencies` | backend/execution/sandbox.py:190-197 | The in-place release of one step's inputs |
| `Sandbox.SandboxRun.TakeTurn` | backend/execution/sandbox.py:98-161 | One iteration of the step loop on the object's state |
| `Sandbox.RunLoop` | backend/execution/sandbox.py:89-167 | The imperative loop computes the evicting run |
| `Sandbox.RunPipelineInSandbox` | backend/execution/sandbox.py:89-167 | On every accepted pipeline the answer is the one that sampled files and executor settle kind by kind; without reads of save steps it is also the pipeline's value |
| `SqlScanner.StripLiteralsAndComments` | backend/execution/sql_builder.py:33-116 | The six-state loop computes the masking of the whole text or raises |
| `SqlScanner.DelimiterExactly` | backend/execution/sql_builder.py:31 | A dollar quote opens with `$$` or with a tag of letters, digits and underscores between dollars that does not start with a digit, and the delimiter found is that text |
| `SqlScanner.LexedIsMasked` | backend/execution/sql_builder.py:33-116 | A text made of complete tokens is masked token by token: code kept, literals and comments blanked at their length, line ends kept |
| `SqlScanner.TokensOf` | backend/execution/sql_builder.py:33-116 | Whenever the scanner accepts, the text is a sequence of complete tokens |
| `SqlScanner.MaskIsTokenwise` | backend/execution/sql_builder.py:33-116 | It raises exactly when a quote, block comment or dollar quote is left open, and otherwise masks tokenwise |
| `SqlScanner.ScanSplit` | backend/execution/sql_builder.py:33-116 | Text may be scanned piece by piece at every boundary that splits no two-character marker or dollar tag |
| `SqlBuilder.DoubledRoundTrip` | backend/execution/sql_builder.py:142-164 | Doubling quotes pairs them all and is undone by halving |
| `SqlBuilder.QuoteRoundTrip` | backend/execution/sql_builder.py:142-164 | Unquoting a quoted name or value gives it back |
| `SqlBuilder.QuotedMasks` | backend/execution/sql_builder.py:142-164 | A quoted piece is masked to blanks of its own length |
| `SqlBuilder.QuotingComposes` | backend/execution/sql_builder.py:142-164 | Anywhere in code, a quoted piece is blanked and both sides are scanned as if they stood alone |
| `SqlBuilder.LiteralMasks` | backend/execution/sql_builder.py:149-164 | Every literal, lists included, has a mask fixed by its shape |
| `SqlBuilder.FilterKeepsSkeleton` | backend/execution/sql_builder.py:211-251 | Filter SQL shows the scanner the operator's skeleton for every column and value |
| `SqlBuilder.SortKeepsSkeleton` | backend/execution/sql_builder.py:266-291 | Sort SQL shows only its column count and directions |
| `SqlBuilder.BuildAggregateSql` | backend/execution/sql_builder.py:294-347 | The appending loops build the specified aggregate SQL or fail as specified |
| `SqlBuilder.AggregateKeepsSkeleton` | backend/execution/sql_builder.py:294-347 | Aggregate SQL shows only its functions and the number of grouping columns |
| `SqlReading.QuotedReads` | backend/execution/sql_builder.py:142-164 | A quoted name or value followed by anything but its quote is read back and what follows is left |
| `SqlReading.LiteralReads` | backend/execution/sql_builder.py:149-164 | Every literal, nested lists included, reads back as the value it was built from |
| `SqlReading.LiteralRefused` | backend/execution/sql_builder.py:149-164 | A value has no literal exactly when it is or holds a float that is not a number or infinite |
| `SqlReading.FilterReadsBack` | backend/execution/sql_builder.py:211-251 | The built filter reads back as the column, the comparison or pattern the operator names, and the value |
| `SqlReading.FilterRefused` | backend/execution/sql_builder.py:211-251 | A filter is refused exactly for an empty column, an unknown operator, or a comparison with a value that is or holds a float that is no finite number |
| `SqlOrder.PatternsMeanTextExactly` | backend/execution/sql_builder.py:235-243 | The patterns of contains, starts_with and ends_with match the texts that contain, start with or end with the value exactly when it has neither % nor _ |
| `SqlOrder.SortReadsBack` | backend/execution/sql_builder.py:266-291 | The built sort reads back as its columns in order, each with its direction; it is refused exactly without a column or with a number of flags that is neither one nor that of the columns |
| `SqlOrder.AggregateReadsBack` | backend/execution/sql_builder.py:294-347 | The built aggregation reads back as the grouping columns, then each function of its column under its alias, grouped by those columns |
| `SqlOrder.AggregateRefused` | backend/execution/sql_builder.py:294-347 | It is refused exactly without an aggregation, with an empty name, or with an unknown function |
| `Digraph.SearchBackward` | backend/pipeline/lineage.py:516-544 | The search visits exactly the nodes that reach the target, each once |
| `Digraph.VisitPredecessors` | backend/pipeline/lineage.py:540-544 | The inner loop marks and queues exactly the unseen predecessors |
| `Digraph.RankedIsAcyclic` | backend/pipeline/lineage.py:547-553 | A graph whose edges climb a ranking has no cycle |
| `LineageIds.DecodeColumn` | backend/pipeline/lineage.py:28-30 | Column ids read back exactly, even with separators in the column name |
| `LineageIds.DecodeFile` | backend/pipeline/lineage.py:23-25 | File ids read back exactly |
| `LineageIds.DecodeStep` | backend/pipeline/lineage.py:33-35 | Step ids read back exactly |
| `LineageIds.DecodeOutput` | backend/pipeline/lineage.py:38-40 | Output ids read back exactly |
| `LineageIds.ColumnIdsMeet` | backend/pipeline/lineage.py:28-30 | Two step names share a column id exactly when one with its separator starts the other |
| `LineageIds.SeparatorInNameCollides` | backend/pipeline/lineage.py:28-30 | A separator inside a step name makes two columns meet |
| `Lineage.RecordAddsEdges` | backend/pipeline/lineage.py:127-492 | Every record call adds exactly the edges it stands for |
| `Lineage.RunEdges` | backend/pipeline/lineage.py:127-492 | The graph of a run has exactly the edges its records stand for |
| `LineageRuns.AcceptedPipelineRecordsWell` | backend/pipeline/parser.py:807-822 | A pipeline the parser accepts, recorded step by step, is a run of the kind the other results need |
| `LineageRuns.RunIsRanked` | backend/pipeline/lineage.py:127-492 | Every edge of a recorded run climbs in step order |
| `LineageRuns.RunIsAcyclic` | backend/pipeline/lineage.py:547-553 | No recorded run has a cycle, so the cyclic fallback of the queries is never taken |
| `LineageRuns.ChainReaches` | backend/pipeline/lineage.py:127-445 | A column reaches whatever it flows into through any number of records |
| `LineageRuns.PathIsChain` | backend/pipeline/lineage.py:127-445 | A path between columns is a chain of recorded flows |
| `LineageRuns.ReachIsFlow` | backend/pipeline/lineage.py:127-445 | Reachability between columns is exactly recorded flow |
| `LineageRuns.DerivedIsAncestor` | backend/pipeline/lineage.py:127-445 | Every column another derives from, through renames, joins and aggregates, is its ancestor |
| `LineageRuns.PassedColumnTraced` | backend/pipeline/lineage.py:998-1050 | Through a WASM, pivot or SQL record a column is traced to its copy exactly when it is among the recorded inputs |
| `LineageRuns.TracedExactlyWhenFed` | backend/pipeline/lineage.py:127-445 | Every column reaches a source file exactly when every step that gives columns was recorded with something it read |
| `LineageRecorder.Recorder.RecordLoad` | backend/pipeline/lineage.py:127-178 | The graph object stays the graph of its records after a load, and the node of the step carries the type load |
| `LineageRecorder.Recorder.RecordPassthrough` | backend/pipeline/lineage.py:180-219 | The same for a passthrough, as deduplicate, fill and sample also record, with the type given |
| `LineageRecorder.Recorder.RecordProjection` | backend/pipeline/lineage.py:221-269 | The same for a projection, dropped columns included |
| `LineageRecorder.Recorder.RecordRename` | backend/pipeline/lineage.py:271-315 | The same for a rename, whose columns carry their new names |
| `LineageRecorder.Recorder.RecordJoin` | backend/pipeline/lineage.py:317-366 | The same for a join |
| `LineageRecorder.Recorder.RecordAggregate` | backend/pipeline/lineage.py:368-445 | The same for an aggregation |
| `LineageRecorder.Recorder.RecordSave` | backend/pipeline/lineage.py:447-492 | The same for a save |
| `LineageRecorder.Recorder.RecordReshape` | backend/pipeline/lineage.py:736-826 | The same for pivot, unpivot, SQL and WASM records |
| `LineageQueries.RunHasOrder` | backend/pipeline/lineage.py:546-553 | Every recorded run has a topological order |
| `LineageQueries.GetColumnAncestry` | backend/pipeline/lineage.py:494-565 | Lists each ancestor step once in topological order and names the first source file met, or none when none is reached |
| `LineageQueries.FirstFileFacts` | backend/pipeline/lineage.py:529-530 | The file named is the first one met that is not called unknown |
| `LineageAncestry.RunAttrs` | backend/pipeline/lineage.py:127-492 | In the graph of a run the step nodes are exactly the recorded steps with their types and the file nodes exactly the loaded files with a name they were loaded under |
| `LineageAncestry.RecordNames` | backend/pipeline/lineage.py:127-492 | A record call sets exactly the nodes it names: its step with its type, the file it loads, the columns it gives under their own names, as source columns exactly for loads, and the file it saves |
| `LineageAncestry.RunSays` | backend/pipeline/lineage.py:127-492 | In the graph of a run a node has attributes exactly when a record names it, and then those under which one does |
| `LineageAncestry.ColumnSays` | backend/pipeline/lineage.py:127-492 | Every column a record gives carries its step and its name, as a source column exactly for loads |
| `LineageAncestry.SavedSays` | backend/pipeline/lineage.py:447-492 | Every saved file carries its name |
| `LineageAncestry.StepReaches` | backend/pipeline/lineage.py:516-544 | A step node reaches a column exactly when the column flows from what the step gives |
| `LineageAncestry.FileReaches` | backend/pipeline/lineage.py:516-544 | A file reaches a column exactly when the column flows from what a load of it gives |
| `LineageAncestry.AncestryOfRun` | backend/pipeline/lineage.py:494-565 | For an output column of a run the query lists exactly the recorded steps on a flow into it, names a file on such a flow, and always names one when every giving step read something |
| `LineageQueries.GetImpactAnalysis` | backend/pipeline/lineage.py:609-640 | Lists exactly the nodes downstream, dual to the ancestry search; an unknown column is an error |
| `LineageImpact.ColumnReachesStep` | backend/pipeline/lineage.py:609-640 | A column reaches a step exactly when it flows into what the step reads |
| `LineageImpact.ColumnReachesOutput` | backend/pipeline/lineage.py:609-640 | A column reaches a saved file exactly when it flows into what was saved |
| `LineageImpact.ImpactOfRun` | backend/pipeline/lineage.py:609-640 | For a column of a run the query lists exactly the recorded steps it flows into, with their types, and exactly the names of the columns that steps other than loads derive from it and of the files saved from them |
| `LineageQueries.LongestGrows` | backend/pipeline/lineage.py:668-684 | One more than the greatest predecessor layer is the longest path |
| `LineageQueries.AssignLayers` | backend/pipeline/lineage.py:668-684 | For every topological order each layer is the length of the longest path from a source |
| `LineageQueries.EdgesGoRight` | backend/pipeline/lineage.py:668-684 | Every edge goes to a strictly larger layer |
| `LineageQueries.PositionNodes` | backend/pipeline/lineage.py:686-716 | Every node is placed exactly once, in the column of its layer and below exactly the nodes of that layer that come before it in topological order, and no two share a position |
| `ArrowKeys.DataKeyRoundTrip` | backend/execution/arrow_bus.py:659-671 | A data key parses back to its run and key, colons in the key included |
| `ArrowKeys.DataKeysApart` | backend/execution/arrow_bus.py:153-154 | Different runs or keys have different data keys |
| `ArrowKeys.DataIsNotManifest` | backend/execution/arrow_bus.py:153-157 | A data key is no manifest key unless the run is called manifest |
| `ArrowKeys.RunNamedManifestCollides` | backend/execution/arrow_bus.py:153-157 | In that case it is one |
| `ArrowKeys.ShmPathsApart` | backend/execution/shm_store.py:41-49 | Different runs or keys have different shared-memory files |
| `Glob.ClassMeans` | backend/execution/shm_store.py:83-96 | In a sweep pattern a bracketed class matches the characters it lists, a negated one all others, a range those between its ends, and a question mark any one character |
| `ArrowKeys.SweepIsExact` | backend/execution/shm_store.py:83-96 | The sweep of a run takes a bus file exactly when the run, read as a pattern with its wildcards, matches the file's run or a part of it that ends before an underscore |
| `ArrowKeys.SweepOfPlain` | backend/execution/shm_store.py:83-96 | Without wildcards in the swept run these are the runs that start with it and an underscore, and itself |
| `ArrowKeys.SweepIsOwn` | backend/execution/shm_store.py:83-96 | Without wildcards and underscores it takes exactly its own run's files |
| `ArrowKeys.SweepTakesLongerRun` | backend/execution/shm_store.py:83-96 | A run without wildcards takes the files of every run whose identifier continues its own after an underscore |
| `ArrowKeys.StarSweepsAll` | backend/execution/shm_store.py:83-96 | The sweep of a run called * takes the files of every run |
| `ArrowKeys.BracketsMissTheirOwn` | backend/execution/shm_store.py:83-96 | The sweep of a run called [ab] leaves its own files |
| `ArrowKeys.SpillMissedByFolder` | backend/execution/arrow_bus.py:300-313 | The file at the end of every spill name is one the sweep for orphaned spill files would take if it lay at the top level (prefix and run without wildcards) |
| `ArrowKeys.SpillNeverSwept` | backend/execution/arrow_bus.py:300-313 | The sweep for orphaned spill files matches no name the bus gives |
| `ArrowBus.GetIsLastPut` | backend/execution/arrow_bus.py:406-465 | In a good state whatever is returned is the table last put under that key |
| `ArrowBus.PutKeepsInv` | backend/execution/arrow_bus.py:315-400 | A put keeps the state good, whichever writes fail: it updates the map at its key, or deletes the key when the upload to spill storage fails; a Redis write may fail after taking effect if no demotion picks up what it left |
| `ArrowBus.AttemptLeaves` | backend/execution/arrow_bus.py:329-355 | A failed attempt leaves the table in Redis exactly when its size is at most the small threshold and the write took effect before it raised |
| `ArrowBus.AttemptReadies` | backend/execution/arrow_bus.py:329-355 | A failed attempt to write to Redis disturbs no other key, whatever it leaves that is never demoted |
| `ArrowBus.DeleteKeepsInv` | backend/execution/arrow_bus.py:471-477 | A deletion keeps the state good and removes its key from the map |
| `ArrowBus.DeleteReadies` | backend/execution/arrow_bus.py:266-293 | A deletion leaves no payload or manifest entry of its key and every other payload as it was |
| `ArrowBus.DemoteKeepsInv` | backend/execution/arrow_bus.py:524-597 | Demoting an entry keeps the state good and the map unchanged, whether or not the manifest write goes through |
| `ArrowBus.DemoteScanKeepsInv` | backend/execution/arrow_bus.py:524-597 | So does a whole scan in any order, whichever writes fail |
| `ArrowBus.ExpiryKeepsInv` | backend/execution/arrow_bus.py:412-448 | Losing any Redis or shared-memory entry keeps the state good |
| `ArrowBus.CleanupIsExact` | backend/execution/arrow_bus.py:479-517 | A cleanup leaves no location, manifest or recorded payload of the run and changes no other run's result |
| `ArrowBus.TallyIsCount` | backend/execution/arrow_bus.py:479-517 | The loop's tally of a tier is the number of the run's entries in it |
| `ArrowBus.StepKeepsInv` | backend/execution/arrow_bus.py:315-597 | Every operation refines its step on the plain map |
| `ArrowBus.BusRefinesMap` | backend/execution/arrow_bus.py:315-597 | Over any run of puts, deletions, demotions, cleanups and expiries under write failures, a get returns the last put table of its key or fails, never a stale or foreign one |
| `ArrowManifest.ManifestsMirror` | backend/execution/arrow_bus.py:177-220 | Without lost manifest writes the manifest of each run lists exactly its locations with tier, pointer and size |
| `ArrowManifest.BusIsMap` | backend/execution/arrow_bus.py:315-597 | As long as nothing expires every get succeeds with the last table, or is a key error for a key not held, whichever writes fail |
| `ArrowManifest.RestartedCleanup` | backend/execution/arrow_bus.py:222-254 | A restarted worker removes all payloads of a run from its manifest alone, and none of another run |
| `ArrowManifest.FailedDeleteResurrects` | backend/execution/arrow_bus.py:266-276 | If a Redis deletion fails, demotion can bring an overwritten table back |
| `ArrowManifest.LeakReturnsExactly` | backend/execution/arrow_bus.py:326-355 | What a Redis write leaves that raised after taking effect comes back as a stale table in some later run exactly when it is at least half the small threshold and its run is not called shm |
| `ArrowDataBus.Bus.RecordAt` | backend/execution/arrow_bus.py:177-203 | The object's location and manifest update is the specified one |
| `ArrowDataBus.Bus.DeleteLocationPayload` | backend/execution/arrow_bus.py:266-293 | The payload disappears from its tier and nothing else changes |
| `ArrowDataBus.Bus.RemoveManifestEntry` | backend/execution/arrow_bus.py:205-220 | The entry leaves the manifest, and an empty manifest leaves Redis |
| `ArrowDataBus.Bus.DeleteKey` | backend/execution/arrow_bus.py:471-477 | The object's deletion is the state machine's |
| `ArrowDataBus.Bus.PutTable` | backend/execution/arrow_bus.py:315-400 | The object's put is the state machine's: the table goes to Redis exactly when its size is at most the small threshold and that write goes through, else to shared memory exactly when it is at most the medium one and that write goes through, else to spill storage or the upload fails; the location recorded has that tier's pointer and the size, at least one |
| `ArrowDataBus.Bus.GetTable` | backend/execution/arrow_bus.py:406-465 | The object's get is the state machine's: the table of the recorded tier, or the error for a key not held or a payload gone |
| `ArrowDataBus.Bus.MaybeEvictHotToWarm` | backend/execution/arrow_bus.py:524-597 | Under memory pressure the scan is the state machine's, otherwise nothing happens; the number returned is that of the candidates listed, or five if there are more |
| `ArrowDataBus.ScanDemotes` | backend/execution/arrow_bus.py:548-597 | A scan demotes as many of the listed candidates as it may, in order, and nothing else |
| `ArrowDataBus.Bus.DemoteUpToFive` | backend/execution/arrow_bus.py:548-597 | The scan loop is the state machine's scan |
| `ArrowDataBus.Bus.DemoteIfQualified` | backend/execution/arrow_bus.py:550-592 | One scanned key is demoted exactly when it qualifies and its shared-memory write goes through |
| `ArrowDataBus.Bus.Cleanup` | backend/execution/arrow_bus.py:479-517 | The cleanup loops are the state machine's, with a tally per tier |
| `ArrowDataBus.Bus.SweepRun` | backend/execution/arrow_bus.py:295-313 | The sweeps and the manifest's removal are the state machine's |
| `ArrowDataBus.EntryTallyIsCount` | backend/execution/arrow_bus.py:496-517 | What a cleanup counts of entries only the manifest knows is their number in each tier |
| `ArrowDataBus.CleanupCounts` | backend/execution/arrow_bus.py:479-517 | In a good state each tally counts each of the run's entries once, by tier |
| `Lru.StoredFacts` | backend/pipeline/cache.py:60-64 | A store into a bounded cache holds its key, changes no other value, and loses at most the least recently used key of a full cache |
| `Lru.HeldExplained` | backend/pipeline/cache.py:52-64 | After any history the order is by last use, and a live key that is missing was pushed out by a full cache of later ones |
| `Lru.HeldExactly` | backend/pipeline/cache.py:52-64 | A key is held exactly when fewer distinct keys than the capacity were used since; with invalidations such a key is still held |
| `PipelineCache.Cache.LocalGet` | backend/pipeline/cache.py:52-57 | A lookup makes its key the most recent |
| `PipelineCache.Cache.LocalSet` | backend/pipeline/cache.py:60-64 | Stays within 256 entries and evicts only the least recently used |
| `PipelineCache.Cache.RedisGet` | backend/pipeline/cache.py:79-97 | A call is skipped during the back-off, clears it on success and renews it on failure |
| `PipelineCache.BackOff` | backend/pipeline/cache.py:79-97 | For five seconds after a failure no call is made, whatever it would have done; from then on, and at once after a success, calls are made |
| `PipelineCache.Cache.RedisSet` | backend/pipeline/cache.py:79-97 | The same for a write, which may have taken effect although it failed |
| `PipelineCache.Cache.RedisDelete` | backend/pipeline/cache.py:79-97 | The same for a deletion |
| `PipelineCache.Cache.GetParsedPipeline` | backend/pipeline/cache.py:100-165 | In every reachable state and under every Redis failure the result is the parse of the given text or its error |
| `PipelineCache.Cache.InvalidatePipelineCache` | backend/pipeline/cache.py:168-180 | The text leaves the local level, and Redis when it can be reached |
| `PipelineCache.Cache.LocalHit` | backend/pipeline/cache.py:52-64 | The local level holds a text, under its own hash, exactly while fewer than 256 others were used since |
| `Wasm.ErrorsCount` | backend/execution/wasm_executor.py:159-182 | The error counter is the number of rows on which the call failed |
| `Wasm.AppendRow` | backend/execution/wasm_executor.py:147-149 | Appending a row's cells list by list |
| `Wasm.CallRow` | backend/execution/wasm_executor.py:142-182 | One row: unconverted, computed or failed, with the guest's memory carried on |
| `Wasm.RowMeans` | backend/execution/wasm_executor.py:142-182 | A row whose inputs repeat or hold no number is left unconverted without a call; every other row calls the guest once on its numbers and the memory the row before left, and its answer decides: a value, a null, or a failure |
| `Wasm.RunRows` | backend/execution/wasm_executor.py:129-191 | The row loop fills the lists as specified, or stops at the alarm or at too many errors |
| `Wasm.ListsCell` | backend/execution/wasm_executor.py:141-182 | With distinct columns, row r of each list is row r's cell |
| `Wasm.AlignedExactly` | backend/execution/wasm_executor.py:129-193 | Every list has one entry per row exactly when the inputs are distinct and exclude the output, or there is no row |
| `Wasm.StepIsFilled` | backend/execution/wasm_executor.py:129-197 | Then the output has the guest's value or a null in each row, inputs the shown cells or nulls, and other columns are unchanged |
| `Wasm.OnlyColumnDoubles` | backend/execution/wasm_executor.py:129-197 | Writing over the only column doubles the rows |
| `Wasm.RunStep` | backend/execution/wasm_executor.py:129-197 | The rows and the assembly of their lists: exactly when the step completes, with what table, and otherwise which failure |
| `Wasm.WasmExecutor.GetOrCompile` | backend/execution/wasm_executor.py:245-262 | Always the compilation of the given bytes, within 100 entries, evicting only the least recently used |
| `Wasm.WasmExecutor.Execute` | backend/execution/wasm_executor.py:70-197 | Exactly when the step completes, with what table, and at most max(10, n div 10) failed rows; otherwise which failure, a module that cannot be instantiated included |
| `Contract.NullCountIsNulls` | backend/contracts/validator.py:246-250 | The null count is the number of null cells |
| `Contract.DistinctCountExact` | backend/contracts/validator.py:314-322 | Fewer distinct values than non-null cells exactly when a non-null value repeats |
| `Contract.CheckSpec` | backend/contracts/validator.py:227-331 | Reports for a present column exactly the broken rules of its specification |
| `Contract.FitsExactly` | backend/contracts/validator.py:133-147 | The table of categories accepts a promised name for a type exactly when it spells that type, and for a type outside the five kinds when it is its own name or shares a kind with it |
| `Contract.CheckColumns` | backend/contracts/validator.py:210-331 | Reports exactly the broken column promises, missing columns included |
| `Contract.CheckNullRates` | backend/contracts/validator.py:333-355 | Reports exactly the columns whose computed null percentage is above the threshold |
| `Contract.CheckRows` | backend/contracts/validator.py:357-380 | Reports exactly the broken row bounds |
| `Contract.MeetsExactly` | backend/contracts/validator.py:162-396 | No rule is broken exactly when the table keeps every promise: presence, type, nulls, range, allowed values, uniqueness, null rate, row bounds, no extra columns |
| `Contract.DoublePercentIsNear` | backend/contracts/validator.py:344-345 | The percentage computed in doubles is within 10^-13 of the true one |
| `Contract.RateErrsExactly` | backend/contracts/validator.py:344-345 | For an integer threshold and at most 10^12 rows the rule misjudges the true null rate exactly when 100 times the nulls are the threshold times the rows and the computed percentage is above it, and never in the lenient direction |
| `Contract.RateSettled` | backend/contracts/validator.py:344-345 | For any threshold further than 10^-13 from the true rate the rule is right |
| `Contract.VerdictErrsExactly` | backend/contracts/validator.py:333-396 | With integer thresholds a table is misjudged exactly when it keeps every promise and some null rate is a threshold whose computed percentage is above it |
| `Contract.SevenOfTwentyFive` | backend/contracts/validator.py:344-345 | In doubles 7 nulls of 25 break a threshold of 28 percent although the rate is 28 |
| `Contract.ValidateAgainstContract` | backend/contracts/validator.py:162-396 | Reports exactly the broken rules and passes exactly when there is none |
| `Contract.CheckRun` | backend/contracts/validator.py:80-130 | Blocks exactly when the severity is block and a rule other than null rate and unexpected column is broken |
| `Patch.OthersKept` | backend/execution/patch_applier.py:13-80 | Every field no item names is as before |
| `Patch.InParallel` | backend/execution/patch_applier.py:33-80 | Items on different fields are accepted exactly when each alone is, and each field becomes what its item makes of the original |
| `Patch.OrderDoesNotMatter` | backend/execution/patch_applier.py:33-80 | In any order such items are accepted alike and give the same document |
| `Patch.EqIsPythons` | backend/execution/patch_applier.py:104-176 | The comparison of values is Python's: numbers and booleans by value, lists item by item, mappings by their entries in any order |
| `Patch.OneItemMeans` | backend/execution/patch_applier.py:46-176 | An item is rejected exactly when no step had the name or its field does not take it; otherwise that field becomes what its name says and every other is as before: columns and grouping, and a sort field that holds a list, a list of the same length with the equal items replaced; a mapping the pairs with equal keys and values replaced, the last of equal keys winning; aggregations a list in which matching columns change; any other field the new value |
| `Patch.LocateIsLast` | backend/execution/patch_applier.py:27-31 | A name stands for the last step that bears it |
| `Patch.UndoneExactly` | backend/execution/patch_applier.py:46-176 | On the document an item is undone by its inverse exactly when the field it names is restorable: every item, entry or aggregation column, or the old value itself for a scalar field; a sort field given a list and a changed name are not |
| `Patch.PatchList` | backend/execution/patch_applier.py:104-116 | Lists keep length and order; matching items are replaced |
| `Patch.ListRoundTrip` | backend/execution/patch_applier.py:104-139 | There and back restores a list exactly when every item equal to the old value is that value and no other item equals the new one |
| `Patch.TrueIsOne` | backend/execution/patch_applier.py:115-116 | A true or a 1.0 is replaced by a patch that names 1, and comes back as 1 |
| `Patch.BuildFacts` | backend/execution/patch_applier.py:153-158 | Rebuilding a mapping loses an entry exactly when two keys become equal |
| `Patch.PatchMappingField` | backend/execution/patch_applier.py:142-158 | The loop computes the specified mapping |
| `Patch.MappingRoundTrip` | backend/execution/patch_applier.py:142-158 | The same for the keys and values of a mapping |
| `Patch.MappingFieldRoundTrip` | backend/execution/patch_applier.py:142-158 | The handler restores a mapping exactly when it accepts the patch, which it refuses for an unhashable new key, and every entry is restorable |
| `Patch.AggregationFacts` | backend/execution/patch_applier.py:161-176 | Only the column of a matching aggregation changes |
| `Patch.AggregationRoundTrip` | backend/execution/patch_applier.py:161-176 | The same for the columns of aggregations, nulls and missing columns included |
| `Patch.PatchSteps` | backend/execution/patch_applier.py:13-44 | The loop applies the items one after another, each by what its field name says and on what those before it left, to the steps found by name before the first; one rejected item rejects the patch |
| `Healing.ValidateHealingPatch` | backend/ai/healing_prompts.py:107-134 | Accepts exactly the well-formed patches |
| `Healing.OneStatus` | backend/execution/healing_agent.py:108-289 | Every attempt deserves exactly one of the four statuses |
| `Healing.TryOnce` | backend/execution/healing_agent.py:109-282 | One attempt gets the status it deserves; an applied one is the original with a well-formed, non-empty patch applied that passed its trial |
| `Healing.AttemptHeal` | backend/execution/healing_agent.py:108-289 | Attempts are numbered 1 to k with k at most 3; applied occurs only last and exactly on success; an exhausted quota ends the run there; the reported number is right exactly when the quota did not end the run before the third attempt |
| `Healing.HealWithoutQuota` | backend/execution/healing_agent.py:140-147 | With the quota gone at once, one attempt is recorded and three reported |

## Left out

- HTTP routes, authentication, ORM models, Celery wiring, telemetry and the frontend: plumbing without deep invariants.
- The step executor, DuckDB and pandas: any function of a step and its tables stands for them. An executor that reads other tables than the step's inputs is not covered.
- The lineage of steps routed to DuckDB: that path never calls the recorder.
- Node attributes other than type, title and step type, join-key edge styling, and the choice of a source column by name similarity.
- The planner and its cost estimates.
- YAML and JSON text, regular-expression keyword scans, model prompts and replies.
- Threads and locks: bus, cache and recorder operations are atomic.
- Several processes sharing one bus's Redis keys, and failing Redis deletions beyond the counterexample.
- The content of stored bytes: writing and reading a table through any tier is lossless.
- Parser.Validate: of the seventeen checks the five on names, types, required fields and references are modelled; the others, the file registry, the fields that only some step types require and the warnings are parameters or left out.
- Parser.StepSilent: the fields that only some step types require are a parameter.
- Parser.SilenceMeansWellFormed: speaks of the five structural checks only.
- Contract violations attached to a run summary by the runner.
- The builders for select, join, deduplicate, sample, fill, pivot and unpivot, and lower-casing beyond ASCII.
- Contract checks on values that cannot be compared, and column types given as something other than text.
- Contract.ValidateAgainstContract: the order of the violations and their wording are not stated.
- Wasm.WasmExecutor.Execute: fuel and memory limits are part of the guest's reply, and how a data frame shows a cell is a parameter.
- Patch.OthersKept: the order of a step's own fields and YAML aliases between steps are not modelled.
- LineageImpact.ImpactOfRun: the order and repetition of what is listed; steps come with their types, of which the report shows the names.
- LineageQueries.GetColumnAncestry: the source column the query names is left out.
- ArrowDataBus.Bus.MaybeEvictHotToWarm: whether Redis is pressed for memory is a parameter.
- Healing: an exception raised by the trial run itself.
