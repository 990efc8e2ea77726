# Verified models of the benchmark tools, the setup wizard and the OpenClaw plugin

This project models the self-contained algorithms and protocols of the repository in Dafny
and proves what they keep over every input, every interleaving and every failure. The
whole project is one unit for `dafny verify dfyconfig.toml`.

| file | what it models |
|---|---|
| `JsonDecoder.dfy` | the value decoder behind the streaming reader, and its prefix stability |
| `JsonGrammar.dfy` | the grammar of RFC 8259 as syntax trees; the decoder recognises exactly it |
| `JsonEscapes.dfy`, `JsonDenotation.dfy` | writing a string with any escapes, and what a text denotes, said without the decoder |
| `JsonArrayReader.dfy` | the streaming array reader: sliding buffer, refill, mode flags, limit |
| `JsonArrayText.dfy` | the reader with that decoder: chunk independence and the grammar of array texts |
| `BoundedMap.dfy` | `map_bounded_as_completed` as a transition system |
| `RequestSet.dfy` | `run_request_set`: start barrier, semaphore, gathered report |
| `ConfigStore.dfy` | the crash-safe save of the configuration with rotating backups |
| `PathScope.dfy`, `CommonScope.dfy` | path normal forms, the scope test, lowest common ancestors |
| `ResourceUris.dfy` | the URIs of records and scopes, and the prefix test on them |
| `SyntheticPaths.dfy` | mixed-radix paths and the selectivity of their scopes |
| `FilterBuckets.dfy`, `UniqueWindows.dfy` | bucket, path and window filters and their exact counts |
| `TaskLedger.dfy`, `LedgerRun.dfy`, `LedgerRace.dfy` | the background-task ledger, its whole run, and what joining the workers first protects |
| `TurnWindow.dfy` | the bounded idempotency window of `commitTurn` |
| `RecallLines.dfy`, `RecallInjection.dfy` | the budgeted recall lines and their injection |
| `OrderStatistics.dfy`, `RunSummary.dfy`, `RunReport.dfy` | percentiles, median and MAD, aggregation of runs, the report |
| `Fvecs.dfy` | the fvecs reader and counter |
| `Arith.dfy`, `Counting.dfy`, `SortedSets.dfy`, `Numerals.dfy`, `PyText.dfy`, `Wrappers.dfy` | shared arithmetic, counting, sorting and text |

## Findings

The code is modelled as it is. Where a property one might expect does not hold, the exact
condition under which it does is proved.

- A save can return `False` although the new content is in place: exactly when the `chmod`
  behind the last rename raised an `OSError` and nothing else failed
  (`ConfigStore.WriteConfig`; `ConfigStore.SaveWithChmodFailing` is such a run for every
  disk and every content).
- A derived scope misses every path it was derived from when the last common directory name
  ends in white space without being all white space (`CommonScope.ScopeCovers`, with
  `CommonScope.SpacedScopeMisses` as the example).
- `synthetic_path` clamps the fanout at one and `filter_segments` at two, and a small depth
  cuts the scope short. A scope selects at most the share asked for, on every number of rows,
  if and only if everything is asked for, or the fanout is at least two and the paths are
  deep enough (`SyntheticPaths.SelectivityIff`). With a fanout below two every scope selects
  every row (`SyntheticPaths.FanoutOneSelectsAll`).
- Filter windows of nearby requests differ if and only if 997 does not divide the span, and
  they lie inside the collection if and only if it has ten rows (`UniqueWindows`).
- `run_request_set` passes the concurrency to the semaphore unclamped; with zero permits and
  at least one request no run ever reports (`RequestSet.ReportsIff`). The command line
  refuses a concurrency of zero, so this concerns other callers.
- A task registered while a drain round is polling would be lost; the ledger is exact if and
  only if that never happens (`LedgerRace.ConservedIff`). It cannot happen in the benchmark,
  which joins the workers of a phase before it drains (`LedgerRace.JoinConserves`).
- `count_fvecs` looks at the first dimension only. A file that is read to its end is counted
  right if and only if its dimensions are on average the first one (`Fvecs.CountIff`); with
  dimensions 1 and 3 it is accepted and miscounted, with 2, 1 and 3 it is counted right
  (`Fvecs.CountCanBeWrong`).

## Modelling decisions

- Text is `string`; a decoded JSON string is a sequence of code points, since an escape can
  denote a lone surrogate. The JSON decoder is Python's `json` module, which is not part of
  the repository: its grammar is that of RFC 8259 with `NaN`, `Infinity` and `-Infinity`,
  control characters in strings refused, surrogate pairs joined. Numbers are kept as lexemes.
- `handle.read` is a list of non-empty chunks followed by the empty string; every list of
  chunks is allowed, and a chunk size is one way to make such a list.
- The answers of the server to the polls of the ledger are an input: any function of the
  ledger entry and of the number of the polling round. An entry carries the time at which it
  was registered, by which entries with the same task id are told apart. How many rounds
  begin before the deadline of a drain is an input too; a round that a drain does not need,
  since nothing is pending, is counted and not polled.
- Clocks, the network and random choices are parameters or unconstrained choices. `asyncio` is modelled by its contract: a semaphore with a count, tasks that take
  steps in any order, cancellation that is requested and then takes effect at a later step.
- A disk is a map from names to contents. An arbitrary environment decides of every call
  whether it raises, and whether an `OSError` or another exception; the failures are logged
  in order, and every state in between is recorded as one a crash can leave.
- Arithmetic on floats is over exact reals; a float in an fvecs file is its four bytes.
- Strings of the plugin are sequences of Dafny characters, which are Unicode scalar values.
  JavaScript counts code units, two for a character beyond U+FFFF, so lengths agree on text
  without such characters.

## Model

| member | source | states |
|---|---|---|
| JsonDecoder.ValueStable | benchmark/vectordb_perf/run.py:414-421 | a value decoded on a partial buffer, other than a number the buffer may have cut, decodes to the same value with the same rest when any text is appended |
| JsonDecoder.EarlyDecode | benchmark/vectordb_perf/run.py:414-426 | an object decoded early is final, and an early non-object stays a decodable non-object, so even the reason of the rejection cannot change |
| JsonGrammar.ValueComplete | benchmark/vectordb_perf/run.py:415 | every spelling of a value by the RFC 8259 grammar, with any blanks and escapes, decodes to that value and leaves exactly what follows |
| JsonGrammar.ValueSound | benchmark/vectordb_perf/run.py:415 | whatever decodes is spelled by a syntax tree with that meaning |
| JsonGrammar.DecoderIsGrammar | benchmark/vectordb_perf/run.py:415 | a text is one value exactly when the grammar spells it so |
| JsonEscapes.WrittenRead | benchmark/vectordb_perf/run.py:415 | every list of code points, each written raw, by its letter escape or by hexadecimal digits of either case, with a surrogate pair beyond U+FFFF, decodes to exactly that list |
| JsonDenotation.Alphabets | benchmark/vectordb_perf/run.py:415 | the character classes of the grammar, listed |
| JsonDenotation.DenotesIff | benchmark/vectordb_perf/run.py:415 | the meaning of a syntax tree is the value it denotes by the writing of its words, digits and code points |
| JsonDenotation.DecoderDenotes | benchmark/vectordb_perf/run.py:415 | a text decodes to a value exactly when it is a spelling that denotes it |
| JsonDenotation.ReaderDenotes | benchmark/vectordb_perf/run.py:332-429 | a text is read to its end as a list of records exactly when it is an array text that denotes them |
| JsonArrayReader.Reader.Refill | benchmark/vectordb_perf/run.py:354-363 | refilling drops the consumed part, appends the next chunk or sets `eof`, and never changes the unread text |
| JsonArrayReader.Reader.SkipSpaces | benchmark/vectordb_perf/run.py:368-369 | skipping stops at the first character that is not `isspace` and skips nothing else |
| JsonArrayReader.Reader.ReadToEnd | benchmark/vectordb_perf/run.py:389-412 | after the closing bracket only space may follow, over however many chunks |
| JsonArrayReader.Reader.Decode | benchmark/vectordb_perf/run.py:414-426 | one decode attempt agrees with decoding the whole unread text, or asks for another chunk |
| JsonArrayReader.Reader.Dispatch | benchmark/vectordb_perf/run.py:376-426 | one look at the next character does what the whole-text scan does in that mode |
| JsonArrayReader.Reader.Round | benchmark/vectordb_perf/run.py:365-426 | each round keeps the remaining reading, or splits one record off it, or ends it, and makes lexicographic progress |
| JsonArrayReader.Reader.Read | benchmark/vectordb_perf/run.py:341-429 | the generator ends on every input with the reading of the whole text cut off at the limit |
| JsonArrayReader.Cut | benchmark/vectordb_perf/run.py:359 | reading by a chunk size gives non-empty chunks of at most that size that make up the text |
| JsonArrayText.ReadChunks | benchmark/vectordb_perf/run.py:332-429 | for every list of non-empty chunks and every limit, the records and the ending (with its reason) are a function of the text alone, and a limit shows the first records of the unlimited run |
| JsonArrayText.IterJsonArrayRecords | benchmark/vectordb_perf/run.py:332-429 | refused exactly for a chunk size that is not positive; otherwise independent of it |
| JsonArrayText.EntriesRead | benchmark/vectordb_perf/run.py:383-426 | a list of objects with any space between them yields exactly those objects and goes on behind them |
| JsonArrayText.DocumentRead | benchmark/vectordb_perf/run.py:365-429 | printing any list of objects as an array, with any space and any spelling, and reading it gives that list back |
| JsonArrayText.ReaderIsGrammar | benchmark/vectordb_perf/run.py:365-429 | the texts read to the end are exactly the array texts of objects, and the records are their elements |
| JsonArrayText.TrailingCommaRejected | benchmark/vectordb_perf/run.py:401-403 | a trailing comma is rejected after the records before it |
| JsonArrayText.MissingCommaRejected | benchmark/vectordb_perf/run.py:383-399 | a missing comma is rejected after the records before it |
| JsonArrayText.ContentAfterRejected | benchmark/vectordb_perf/run.py:389-412 | content after the array is rejected after all its records, also after an empty array |
| JsonArrayText.NotAnArrayRejected | benchmark/vectordb_perf/run.py:376-381 | a text that does not begin with a bracket is rejected at once |
| JsonArrayText.TruncatedRejected | benchmark/vectordb_perf/run.py:370-374 | a text that stops before its array, at its beginning, behind an element or behind a comma is rejected as truncated, after the records before |
| JsonArrayText.ElementRejected | benchmark/vectordb_perf/run.py:414-426 | an element that is not an object is rejected as one if it is another JSON value and as invalid if it is none, after the records before |
| BoundedMap.ApplyInv | benchmark/vectordb_perf/async_utils.py:23-38 | every step of every party keeps the invariant on permits, ended tasks, deliveries and cancellation requests |
| BoundedMap.InFlightBounded | benchmark/vectordb_perf/async_utils.py:23-27 | in every reachable state at most `max(1, concurrency)` calls are in flight and the free permits are the difference |
| BoundedMap.ClosedRun | benchmark/vectordb_perf/async_utils.py:29-38 | when the generator is over every task has ended and all permits are back, no result was delivered twice, and a drained loop delivered every item |
| BoundedMap.DeliveredInOrder | benchmark/vectordb_perf/async_utils.py:25-32 | each task that ends holds the result, the failure or the cancellation of its own call, the tasks are awaited in the order of their ends, and each wait but a failing one delivers a result |
| BoundedMap.ExitIff | benchmark/vectordb_perf/async_utils.py:29-38 | the loop ends by a failure exactly when the consumer awaits a task that ended without a result, which is then the next one; by leaving exactly when the consumer leaves; and drained exactly when it is exhausted |
| BoundedMap.RunsEndClosed | benchmark/vectordb_perf/async_utils.py:29-38 | every run has at most `4 * items + 3` steps, and a run that cannot go on by itself is one whose generator is over |
| BoundedMap.QuietRunDrains | benchmark/vectordb_perf/async_utils.py:31-32 | if no call raises and the consumer stays, exactly one result per item is delivered |
| RequestSet.QueriesBounded | benchmark/cuvs/run_service_concurrency_benchmark.py:164-191 | at every moment at most `concurrency` queries are in flight, and none before the start event |
| RequestSet.RepliesAre | benchmark/cuvs/run_service_concurrency_benchmark.py:172-188 | a request has an answer exactly if its own query ended with it |
| RequestSet.ReportIsExact | benchmark/cuvs/run_service_concurrency_benchmark.py:172-204 | the report counts as successes exactly the requests that got `k` records and the others as errors, and lists the first ten errors in request order |
| RequestSet.ReportsIff | benchmark/cuvs/run_service_concurrency_benchmark.py:164-192 | some run reports if and only if there is a permit or no request |
| RequestSet.RunsEndReported | benchmark/cuvs/run_service_concurrency_benchmark.py:164-192 | with a permit every run is finite and can only stop at the report |
| ConfigStore.CandidatesDiffer | openviking_cli/setup_wizard.py:1058-1063 | the backup names tried are pairwise different |
| ConfigStore.BackupNames | openviking_cli/setup_wizard.py:1058-1063 | the backups of `stem.suffix` are `stem.conf.bak`, `stem.conf.bak.1`, `stem.conf.bak.2` and so on |
| ConfigStore.BackupNamesPlain | openviking_cli/setup_wizard.py:1058-1063 | the same for a name without a suffix |
| Numerals.DecimalValue | openviking_cli/setup_wizard.py:1063 | a numeral stands for its number and has no leading zero |
| ConfigStore.NextBackupPath | openviking_cli/setup_wizard.py:1056-1066 | the search ends on every finite disk and returns the first free name |
| ConfigStore.TempIsNoBackup | openviking_cli/setup_wizard.py:1056-1091 | the temporary file of a save never has a backup name, whatever the configuration is called |
| ConfigStore.Disk.Write | openviking_cli/setup_wizard.py:1092-1095 | writing a new file may leave any part of it and touches no other file |
| ConfigStore.WriteSecureBackup | openviking_cli/setup_wizard.py:1069-1082 | the backup holds the whole old content or its name stays free, all other files are left alone throughout, and nothing is left behind unless the removal of the temporary file failed |
| ConfigStore.BackUp | openviking_cli/setup_wizard.py:1097-1101 | an existing configuration is copied to the first free name and nothing else changes; a failure leaves that copy or nothing, unless the removal of the temporary file failed |
| ConfigStore.PrepareSave | openviking_cli/setup_wizard.py:1088-1101 | before the last rename the configuration is untouched in every state, and the rename is all that is missing to the saved disk |
| ConfigStore.TryWriteConfig | openviking_cli/setup_wizard.py:1088-1105 | every state on the way is safe, and the disk is the saved one exactly when nothing failed or the last `chmod` was the first call to fail |
| ConfigStore.Settle | openviking_cli/setup_wizard.py:1106-1111 | `except` and `finally`: which failure decides what the caller gets, and what is removed |
| ConfigStore.WriteConfig | openviking_cli/setup_wizard.py:1085-1111 | wherever the run is cut off the configuration is wholly old or wholly new with a backup of the old and no other old file is changed; `True` exactly when no call failed, `False` exactly when the last failure was an `OSError` of the save itself; the new content is in place, beside a backup under the first free name, exactly when nothing failed or the last `chmod` was the first to fail, and a new content shows in the file exactly then; a failed save leaves no temporary file unless a removal failed |
| ConfigStore.SaveWithChmodFailing | openviking_cli/setup_wizard.py:1102-1108 | with only the last `chmod` failing, every save returns `False` and is in place |
| ConfigStore.VersionsKept | openviking_cli/setup_wizard.py:1085-1111 | after any sequence of saves, also failed or interrupted ones, every content the configuration ever had is in a file of its own |
| ConfigStore.SaveAll | openviking_cli/setup_wizard.py:1085-1111 | saving again and again on any disk and with any failures, every version put in place is in a file of its own at the end; without a failure every save returns `True` |
| ConfigStore.AllVersions | openviking_cli/setup_wizard.py:1085-1111 | without a failed save the versions are the first content and everything saved |
| PathScope.NormalRender | benchmark/vectordb_perf/run.py:479-493 | `normalize_path` of a path removes the white space at its end, and the last segment if nothing else is left of it |
| PathScope.BodyPrefix | benchmark/vectordb_perf/run.py:577 | the string prefix test with a slash is the prefix test on segments |
| PathScope.MatchesIff | benchmark/vectordb_perf/run.py:572-579 | `path_matches` on any two paths holds exactly when the trimmed scope segments are a prefix of the trimmed path segments |
| PathScope.CleanMatchesIff | benchmark/vectordb_perf/run.py:572-579 | on clean paths it holds exactly when the scope's segments are a prefix of the path's |
| CommonScope.PathPartsRender | benchmark/vectordb_perf/run.py:582-583 | `path_parts` undoes joining, up to white space at the end |
| CommonScope.CommonPartsIff | benchmark/vectordb_perf/run.py:589-598 | the prefixes of the common prefix are exactly the prefixes of all the paths |
| CommonScope.CommonPartsOrder | benchmark/vectordb_perf/run.py:586-598 | the common prefix does not depend on the order of the paths |
| CommonScope.CommonPrefix | benchmark/vectordb_perf/run.py:589-597 | the loop that cuts the list, with its early return, computes the common prefix |
| CommonScope.CommonPathPrefix | benchmark/vectordb_perf/run.py:586-598 | the result is the root for no path and otherwise the rendered common prefix |
| CommonScope.ScopeCovers | benchmark/vectordb_perf/run.py:572-598 | the common scope matches a path it came from if and only if its last segment does not end in white space or is all white space |
| CommonScope.ScopeDeepest | benchmark/vectordb_perf/run.py:572-598 | no scope that matches all the paths is deeper |
| CommonScope.CleanScope | benchmark/vectordb_perf/run.py:572-598 | on clean paths the scopes that match all the paths are exactly the ancestors of the common one |
| CommonScope.CleanPathsCovered | benchmark/vectordb_perf/run.py:572-598 | the common scope of clean paths matches each of them |
| CommonScope.SpacedScopeMisses | benchmark/vectordb_perf/run.py:572-598 | a scope that misses both paths it was derived from |
| CommonScope.DerivedScope | benchmark/vectordb_perf/run.py:633-638 | the derived scope is the common one of exactly the best-scored items, an error exactly when one of them has no path, and on clean paths it keeps every best-scored item |
| SyntheticPaths.SyntheticPath | benchmark/vectordb_perf/run.py:645-652 | the dividing loop spells the digits of the row in base `fanout`, lowest first |
| SyntheticPaths.SharedSegmentsIff | benchmark/vectordb_perf/run.py:645-652 | two rows share their first `k` segments exactly when they are congruent modulo the `k`-th power of the fanout |
| SyntheticPaths.DistinctPaths | benchmark/vectordb_perf/run.py:645-652 | rows below the number of leaves have different paths |
| SyntheticPaths.PathPrefixRender | benchmark/vectordb_perf/run.py:564-569 | `path_prefix` of a path is the path of its first segments |
| ResourceUris.UriIs | benchmark/vectordb_perf/run.py:655-668 | the URI of a clean path spells the dataset prefix, the segments and the id, for every dataset and id |
| ResourceUris.SafeKeeps | benchmark/vectordb_perf/run.py:655-657 | a name of safe characters is kept; otherwise the unsafe characters, and only these, become underscores, and nothing becomes "item" |
| ResourceUris.ScopeUriIff | benchmark/vectordb_perf/run.py:572-579 | `path_matches` on the URI of a record and the URI of a scope holds exactly when the scope's segments are a prefix of the record's, its id included |
| SyntheticPaths.ScopeSelects | benchmark/vectordb_perf/run.py:722-754 | by their URIs, a row is in the scope of a query exactly when it is congruent to the queried row |
| SyntheticPaths.SelectedExactly | benchmark/vectordb_perf/run.py:741-754 | the scope selects exactly `ceil((rows - r mod m) / m)` rows |
| SyntheticPaths.OwnRowSelected | benchmark/vectordb_perf/run.py:741-754 | the queried row is selected |
| SyntheticPaths.CeilLogExists | benchmark/vectordb_perf/run.py:708-710 | the exact ceiling of the logarithm exists for every clamped selectivity |
| SyntheticPaths.BoundedIff | benchmark/vectordb_perf/run.py:717-754 | scopes of `k` segments select at most `ceil(rows * s)` rows, for all rows and queries, if and only if the `k`-th power of the fanout times `s` is at least one |
| SyntheticPaths.SelectivityIff | benchmark/vectordb_perf/run.py:707-721 | on the options: if and only if everything is asked for, or the fanout is at least two and the logarithm is at most the number of levels |
| SyntheticPaths.FanoutOneSelectsAll | benchmark/vectordb_perf/run.py:646 | with a fanout below two every scope selects every row |
| FilterBuckets.UniformSelected | benchmark/cuvs/run_collection_benchmark.py:120-123 | the exact number of rows of a uniform filter, for every number of rows |
| FilterBuckets.ClusterSelects | benchmark/cuvs/run_collection_benchmark.py:120-123 | a clustered filter selects exactly the rows before `ceil(count * u / 1000)` |
| FilterBuckets.ClusteredSelected | benchmark/cuvs/run_collection_benchmark.py:120-123 | a clustered filter selects exactly `ceil(count * u / 1000)` rows, for every number of rows |
| FilterBuckets.UnderSelected | benchmark/cuvs/run_collection_benchmark.py:126-141 | a path filter selects exactly every tenth, hundredth or thousandth row |
| FilterBuckets.FilterScenarios | benchmark/cuvs/run_collection_benchmark.py:66-103 | the ten scenarios with their names, filters and shares, in order; on every multiple of 1000 rows each filter selects exactly its share |
| FilterBuckets.UnfilteredSelected | benchmark/cuvs/run_collection_benchmark.py:66-67 | without a filter every row is selected |
| FilterBuckets.PrebuildSelective | benchmark/cuvs/run_collection_benchmark.py:106-117 | the eligible count is the number of rows in bucket 0, the scenario is made exactly when it is within a positive threshold, and its selectivity is exact |
| UniqueWindows.UniqueFilter | benchmark/cuvs/run_service_concurrency_benchmark.py:212-221 | the window starts within the span at the residue of `997 * (request + salt)`, has 100 rows or all of them but at least ten, and lies inside the collection if and only if that has ten rows |
| UniqueWindows.Euclid | benchmark/cuvs/run_service_concurrency_benchmark.py:214-215 | a span that 997 does not divide divides a multiple of 997 only if it divides the other factor |
| UniqueWindows.DistinctIff | benchmark/cuvs/run_service_concurrency_benchmark.py:212-221 | requests less than a span apart get different windows if and only if 997 does not divide the span |
| TaskLedger.Runner.Register | benchmark/custom/session_contention_benchmark.py:1056-1079 | a task is appended exactly when the request succeeded and carries a task id |
| TaskLedger.Runner.Round | benchmark/custom/session_contention_benchmark.py:1086-1112 | one round polls every pending task: those the server ends get an event with its status, in order, the others stay, and nothing is lost or made up |
| TaskLedger.Runner.FinalizeIncomplete | benchmark/custom/session_contention_benchmark.py:1118-1136 | each pending task gets one incomplete event, in order, and nothing stays pending |
| TaskLedger.Runner.Drain | benchmark/custom/session_contention_benchmark.py:1081-1116 | pending tasks plus event tasks are conserved; with a timeout the tasks that some round ends have an event with the first such status and the others stay pending, or are given up by the final drain; without one all are given up |
| TaskLedger.DrainedTask | benchmark/custom/session_contention_benchmark.py:1081-1116 | for one task: an event with the status of the first answer that ends it, under that scenario; pending, or given up, exactly when no answer does |
| LedgerRun.RunAdapter | benchmark/custom/session_contention_benchmark.py:587-612 | over all its phases an adapter adds the tasks its requests started, and each gets the event that the answers of the rounds foretell |
| LedgerRun.Run | benchmark/custom/session_contention_benchmark.py:458-467 | at the end of a normal run nothing is pending, and the events are, one for each started task, those that the answers of the server foretell |
| LedgerRun.FateIs | benchmark/custom/session_contention_benchmark.py:458-467 | what is foretold of a task: the status of the first answer that ends it and the drain it comes in, or incomplete, in the final drain, when there is none |
| LedgerRace.ConservedIff | benchmark/custom/session_contention_benchmark.py:1086-1112 | between rounds the registered tasks are the pending plus the recorded ones if and only if no registration overlapped a round; each poll that ends a task gives one event |
| LedgerRace.JoinConserves | benchmark/custom/session_contention_benchmark.py:587-612 | in every schedule that joins the workers of a phase before it drains, no registration overlaps a round, and between rounds the ledger is exact |
| TurnWindow.ContextEngine.CommitTurn | examples/openclaw-plugin/context-engine.ts:394-405 | "duplicate", with the keys unchanged, exactly for the last 1024 commits of all time; otherwise the key is logged; the keys remembered stay those commits and distinct |
| TurnWindow.KeysAreRecent | examples/openclaw-plugin/context-engine.ts:335-405 | any list of calls gets the answers defined by the last 1024 commits, and the keys are exactly those commits, or all of them, and distinct |
| TurnWindow.RetryIsDuplicate | examples/openclaw-plugin/context-engine.ts:394-405 | after any calls, a key just committed is answered "duplicate" after any 1023 or fewer other calls, and the retry commits nothing |
| TurnWindow.CommitsFarApart | examples/openclaw-plugin/context-engine.ts:394-405 | two commits of one key have at least 1024 others between them |
| TurnWindow.WindowIsTight | examples/openclaw-plugin/context-engine.ts:400-402 | after 1024 other commits the key commits again |
| RecallLines.BuildMemoryLines | examples/openclaw-plugin/auto-recall.ts:152-163 | one line per memory, in order |
| RecallLines.SpaceTables | examples/openclaw-plugin/auto-recall.ts:98-100 | what is trimmed is the white space of Python but for five control characters, and the byte order mark |
| RecallLines.ContentIs | examples/openclaw-plugin/auto-recall.ts:126-150 | a memory shows its trimmed abstract when that is preferred or nothing else was read, the trimmed text read for level 2, and its address when there is neither |
| RecallLines.LineShows | examples/openclaw-plugin/auto-recall.ts:98-125 | a line shows the trimmed category, or "memory", and the content; with the address, each on lines of their own and the content line by line behind two blanks |
| RecallLines.BreakIsSafe | examples/openclaw-plugin/auto-recall.ts:188-190 | once the budget is used up a scan of the other memories would add nothing |
| RecallLines.SelectLines | examples/openclaw-plugin/auto-recall.ts:182-206 | the loop, with `break` and `continue`, chooses what the full greedy pass chooses, and sums its tokens |
| RecallLines.BuildMemoryLinesWithBudget | examples/openclaw-plugin/auto-recall.ts:177-209 | the lines that the greedy pass chooses by the character limit, or else the token budget, or none, and their token estimate |
| RecallLines.ChosenInOrder | examples/openclaw-plugin/auto-recall.ts:187-206 | the chosen lines are whole lines of the unbudgeted list, in its order |
| RecallLines.ChosenFits | examples/openclaw-plugin/auto-recall.ts:194-199 | joined with newlines they stay within the budget |
| RecallLines.ChosenMaximal | examples/openclaw-plugin/auto-recall.ts:194-199 | no line left out fits at the end of the chosen ones |
| RecallInjection.BlockHasMarker | examples/openclaw-plugin/auto-recall.ts:211-219 | every recall block contains the marker |
| RecallInjection.BlockLines | examples/openclaw-plugin/auto-recall.ts:211-219 | split into lines, a block is the opening tag, the marker, the sentence, exactly the given lines and the closing tag |
| RecallInjection.PrependShows | examples/openclaw-plugin/context-engine.ts:164-220 | after prepending such a block every content shape shows the marker |
| RecallInjection.InjectTwice | examples/openclaw-plugin/context-engine.ts:222-234 | injecting twice, even two different blocks, is injecting once |
| RecallInjection.InjectKeeps | examples/openclaw-plugin/context-engine.ts:222-234 | message count, earlier messages, roles and other properties are kept, the latest changes exactly when it is a user message without a block, and a user message has one afterwards |
| RecallInjection.TextKept | examples/openclaw-plugin/context-engine.ts:194-220 | the text is the block, newlines and the old text, and nothing else, with one empty line between for a text at the beginning; the blocks that are not text are kept, and so are the properties of a text block that was extended |
| RecallInjection.InjectShows | examples/openclaw-plugin/context-engine.ts:222-234 | after the injection into a user message without a block, its text is the block with all the lines and then the old text |
| OrderStatistics.PercentilesAgree | benchmark/custom/session_contention_benchmark.py:1397-1409 | the two interpolating percentiles are equal |
| OrderStatistics.BothAreBlend | benchmark/cuvs/run_index_benchmark.py:74-84 | both ways to interpolate give the blend of two neighbours |
| OrderStatistics.PercentileInterpolates | benchmark/custom/session_contention_benchmark.py:1397-1409 | at `100 * (k + w) / (n - 1)` the percentile is `o[k] + (o[k + 1] - o[k]) * w` for every sorted order `o` of the sample |
| OrderStatistics.QuantileInterpolates | benchmark/cuvs/run_index_benchmark.py:74-84 | the same for the percentile of the index benchmark |
| OrderStatistics.SmallSamples | benchmark/custom/session_contention_benchmark.py:1397-1409 | the percentiles of no value and of one value |
| OrderStatistics.PercentileBounds | benchmark/custom/session_contention_benchmark.py:1397-1409 | a percentile lies between the least and the greatest value |
| OrderStatistics.PercentileOrder | benchmark/custom/session_contention_benchmark.py:1398 | percentiles do not depend on the order of the sample |
| OrderStatistics.PercentileMonotone | benchmark/custom/session_contention_benchmark.py:1397-1409 | a percentile never decreases as the percentage grows |
| OrderStatistics.NearestIsNeighbour | benchmark/vectordb_perf/run.py:1546-1551 | the nearest-rank percentile is one of the two samples the others blend |
| OrderStatistics.NearestAt | benchmark/vectordb_perf/run.py:1546-1551 | the nearest-rank percentile at each rank of every sorted order of the sample |
| OrderStatistics.NearestIsRank | benchmark/vectordb_perf/run.py:1546-1551 | at least that share of the sample is no greater, and less than that share is smaller unless it is the least value |
| RunSummary.HalfWithinMad | benchmark/cuvs/summarize_index_runs.py:71-76 | at least half of the values lie within the deviation of the median |
| RunSummary.MadRange | benchmark/cuvs/summarize_index_runs.py:71-78 | the deviation is at least zero and at most half the range |
| RunSummary.SummaryIs | benchmark/cuvs/summarize_index_runs.py:67-79 | a metric summary has the number of the present values, their least and greatest, their middle value or the mean of the two middle ones, and the same of the distances to it |
| RunSummary.HalfOnEachSide | benchmark/cuvs/summarize_index_runs.py:71-76 | at least half of the values lie on each side of the median |
| RunSummary.SummaryOrder | benchmark/cuvs/summarize_index_runs.py:67-79 | a metric summary depends on the multiset of its values only |
| RunSummary.GroupDocument | benchmark/cuvs/summarize_index_runs.py:143-149 | a document is refused exactly for a missing backend or a repeated variant, and otherwise each of its results is appended to its group |
| RunSummary.TryDocument | benchmark/cuvs/summarize_index_runs.py:138-161 | a file passes exactly when it is usable, agrees with the first and has a new timestamp |
| RunSummary.SummarizeFiles | benchmark/cuvs/summarize_index_runs.py:123-161 | success exactly on consistent files, and then each group has one result per file, in file order |
| RunSummary.ColumnIsOnePerFile | benchmark/cuvs/summarize_index_runs.py:144-149 | a variant group has exactly one entry per file: a result of that file with that variant, the only one when no variant is repeated |
| RunReport.KeysOrdered | benchmark/cuvs/summarize_index_runs.py:90-99 | the sort keys of the variants are totally ordered |
| RunReport.OrderIs | benchmark/cuvs/summarize_index_runs.py:90-99 | which of two variants comes first |
| RunReport.RowsInOrder | benchmark/cuvs/summarize_index_runs.py:175-188 | the report has one row for each variant, strictly increasing in the order of the sort keys |
| RunReport.Summarize | benchmark/cuvs/summarize_index_runs.py:123-205 | a report exactly for consistent files: one row for each variant in the order of the sort keys, with the summaries of the metrics of its results, one from each file, and the sorted values of each runtime field |
| RunReport.SummaryIgnoresOrder | benchmark/cuvs/summarize_index_runs.py:123-205 | files in another order are accepted alike and give the same dataset, parameters, runtime values and rows |
| Fvecs.IterFvecs | benchmark/vectordb_perf/run.py:313-329 | the vectors and the error of the whole reading, cut off at the limit |
| Fvecs.CountFvecs | benchmark/vectordb_perf/run.py:294-310 | the count is `n` exactly when `n` records of the first dimension fill the file, and for a file read to its end it is right exactly when the dimensions are on average the first one |
| Fvecs.CountIff | benchmark/vectordb_perf/run.py:302-329 | the exact condition for a right count of a file that is read to its end |
| Fvecs.RoundTrip | benchmark/vectordb_perf/run.py:313-329 | writing vectors and reading the file gives them back |
| Fvecs.ReaderIsInverse | benchmark/vectordb_perf/run.py:313-329 | a file is read to its end as a list of vectors if and only if it is the encoding of that list |
| Fvecs.FailsIff | benchmark/vectordb_perf/run.py:317-328 | a reading fails with some vectors and a problem exactly if the file is the encoding of these vectors and then a rest that cannot be read, for that reason: less than four bytes, a dimension that is zero or has the sign bit set, or missing floats |
| Fvecs.CountAgrees | benchmark/vectordb_perf/run.py:302-329 | a file of one dimension that is read to its end is counted right |
| Fvecs.CountCanBeWrong | benchmark/vectordb_perf/run.py:302-310 | mixed dimensions that are accepted and miscounted, and mixed dimensions that are counted right |

## Left out

- The vector engine, its bindings and the server: they are not part of this model.
- Menus, prompts, environment probes, HTTP and subprocess adapters, report tables, dataset download: I/O and flat decision trees.
- `iter_json_records` for `.jsonl` files and whole-file JSON: line loops around the same decoder.
- Duplicate keys in a decoded object: the pairs are kept in the order of the text; the last one winning is a function of that list.
- `safe_uri_segment` outside ASCII, where `isalnum` needs the Unicode tables; the names of the synthetic workload are ASCII.
- Plugin text with characters beyond U+FFFF or lone surrogates: JavaScript counts it in code units.
- Conversion of number lexemes to int or float, its digit limit, and recursion limits of the decoder.
- `normalize_path` on lists and values that are not strings, paths with doubled slashes or `;` lists: the results are stated for paths made of non-empty segments.
- Cancelling the generator a second time while its `finally` block gathers: the block is then left early.
- Wall-clock time, floating-point rounding, file permissions, fsync durability and other writers on the disk.
- The logarithm in `filter_segments` is its exact ceiling; rounding of `math.log` is not modelled.
- Runs of the contention benchmark that end in a fatal error: pending tasks then get no event.
- The token estimate of a line and the content behind a `uri` are parameters; the server call of the automatic recall and its regular expressions are left out.
- `load_result` and the reading of values from a result document: a document is given with its variants, numeric metrics and runtime values, and the sizes that search parameters ask for are a parameter. The list of runs, which is in the order of the files, is left out of the report.
- Percentages outside 0 to 100.
