# Verified model of the Cynos fast paths

Cynos is an in-memory relational engine that answers every question twice: a slow, obvious answer
defines what is meant, and a fast path is supposed to give the same one. This project models the fast
paths and proves what they have to do with the obvious answers: the backtracking matchers against a
declarative reading of patterns, the patched window of a live query against a full re-query, the
compiled dataflow (also when it runs on tuples that are only materialized at the end) against the
meaning of the plan, the flush lanes against the list of reported deltas, the binary reader against the
encoded rows, and the patched result list against the new list.

`dafny verify dfyconfig.toml` checks everything.

| module | models |
|---|---|
| `PatternMatch`, `RegexSyntax` | LIKE and regular expressions, and what the text of a regular expression says |
| `Values`, `RowOrder`, `ExecutorOrder` | the cross-type order of values, the comparator of ORDER BY rows, and the executor's sort by the keys only |
| `OrderedWindow`, `SnapshotRefresh`, `StaleWindows` | sorted windows; live ORDER BY / LIMIT queries and their partial refresh; the runs that spoil a patched window |
| `DependencyGraph`, `AffectedRoots`, `JoinRefresh`, `LeftJoins`, `ShortcutJoin` | the table graph of a query, the worklist for affected root rows, both applied to chains of inner and left joins over changing tables, and the chains for which they are enough |
| `LiveRegistry` | the registry of live queries: pending deltas and ids, both flush lanes, garbage collection |
| `ChangeNotification` | what a mutation reports to the registry, and what its deltas and ids say about the tables |
| `JsonReader`, `JsonTexts` | the hand-written JSON reader, and the texts it reads |
| `Expressions`, `ExecutorExpressions`, `Layouts`, `Joins`, `Plans`, `PlanCompiler`, `IndexScans`, `IgnoredConjuncts`, `KeylessJoins` | row expressions and compiled predicates, where these agree with the query executor, column layouts, joins of lists, plans, the compiler from plans to dataflows, the scans it refuses, and the join conditions it does not keep |
| `TraceTuples`, `TracedDataflow` | tuples made of stretches of stored rows, and dataflows run on them |
| `SourceBindings`, `SourceBootstrap` | the list of source bindings beside a compiled plan, and the first rows they load |
| `Encodings`, `BinaryFormat`, `BinaryReader` | IEEE 754 doubles and UTF-8 as bytes, the binary row format and its encoder, and the two TypeScript readers |
| `RootListPatch`, `CachePrune` | patching the root list of a response, and pruning the encoder caches |

## How to read it

A plan means a list of environments, each mapping table names to tuples; a dataflow works on flat rows.
`Layouts` says how an environment is laid out flat, and `PlanCompiler.CompilePreserves` that the rows
of the compiled dataflow are the environments of the plan laid out by the computed layout. A limited, offset
or reversed index scan means the slice of its rows in index order; the compiler refuses it, and
`IndexScans.SlicedScanExactly` says when a filter of the table would have answered it.

A live query is a sequence of changes, each with the affected roots the worklist collected (or none,
if it gave up) and the result rows after it. `SnapshotRefresh` proves what holds after every such run.
`JoinRefresh` replaces its hypothesis about the affected roots by the worklist itself, for chains of
inner and left joins in which every table leads to the root, and `ChangeNotification` its hypothesis
about the recorded changes by the reports of the mutation. `LeftJoins` proves that no other chain is
refreshed rightly. What the joins of a query yield is defined by the columns their conditions name, without
the edges of the dependency graph; `JoinRefresh.BuiltIsGraphOf` puts the graph the builder yields in its place.

The registry is a state machine over registrations, subscriptions, change notifications and flushes.
Its class is proved to take exactly the steps of that machine; the results over runs are about the
machine.

Where the code does not do what it is for, the model keeps the code; a lemma states the exact
condition under which it does, and another gives an input on which it does not:

- The guard on a patched window (crates/database/src/reactive_bridge.rs:598-605) looks at its length
  only. `SnapshotRefresh.RefreshExactly` gives the condition it should look at. For every OFFSET and
  every LIMIT of at least 1, the window the query builder asks for goes stale in a run of one-row changes
  one longer than the budget of `VisibleMatchesFullQuery`: `StaleWindows.SourceWindowsGoStale`.
- The delta lane of the release build (crates/database/src/live_runtime.rs:1804-1811) skips the first
  of several queries and serves the last twice when no snapshot query is active:
  `LiveRegistry.FlushServesExactly`, `ReleaseSkipsFirst`.
- Conjuncts of a join condition that are not column equalities across the two sides are dropped
  (crates/database/src/dataflow_compiler.rs:1502-1504). The rows of the join are right exactly when no
  two input tuples with equal keys fail such a conjunct: `IgnoredConjuncts.JoinsRightlyExactly`,
  `IgnoredConjunctLetsRowsIn`. Without any equality whole rows are the keys (lines 1442-1447): the rows
  of the join are right exactly when the condition holds of the input tuples with equal rows and of no
  others: `KeylessJoins.KeylessJoinsRightlyExactly`, `WholeRowKeysLoseRows`.
- Dataflow predicates compare NULL with NULL as equal and an `Int32` with an equal `Int64` as different;
  the executor does neither: `Expressions.ComparesLikeExecutor`, `EqualsLikeExecutor`,
  `DataflowAndExecutorDiffer`. `ExecutorExpressions` models the executor's evaluator
  (crates/query/src/executor/runner.rs:6221-6333, 6387-6616) and says of every operator on which operands the
  two agree (`BinaryAgreesExactly`, `TestAgreesExactly`); a compiled filter accepts the rows the executor's
  accepts wherever its operators do (`CompiledLikeExecutor`). `NotLetsNullIn` and `SumIsNoInteger` are filters
  on which they differ.
- The order of values is not transitive where two 64-bit integers round to the same float:
  `Values.TransitiveExactly`, `OrderBreaksAbove53Bits`.
- The example decoder ignores the null mask (example/src/binary-decoder.ts:44-60):
  `BinaryReader.DecodesExactly`, `DecoderReadsNullAsZero`.
- An empty plan leaf gets a source but no binding: `SourceBindings.AlignedExactly`,
  `EmptyShiftsBindings`.
- While a join or an aggregate is built, the filter directly over a source is skipped if the binding's access
  path covers it (crates/incremental/src/materialize.rs:2817-2828). The binding of a whole index says so too,
  where the filter is one it knows nothing of. Joins and aggregates start with the right rows exactly when
  such filters reject nothing, and a GIN index finds nothing its leaf rejects: `SourceBootstrap.StatesExactly`,
  `SkippedFilterLetsRowsIn`. The optimizer puts filters over whole index scans for ORDER BY
  (crates/query/src/optimizer/order_by_index.rs:267-277), where nothing above keeps state.
- Projecting a column a trace tuple lacks moves the values behind it once the tuple is materialized:
  `TraceTuples.LooksLikeRowExactly`, `MissingColumnMovesValues`. Compiled plans never do so:
  `TracedDataflow.CompiledFits`.
- Rows that tie under ORDER BY are put into an order of their own by the refresh, and the executor sorts
  by the keys only. The clause decides the visible rows exactly when none of them ties with a different
  row (`ExecutorOrder.VisibleDecidedExactly`). Without ties every run shows the executor's answer
  (`TieFreeRunsShowTheAnswer`); with a tie at the visible rows some executor that keeps to the clause shows
  other rows than the patched window (`TiedRunsDisagree`). `TiedRowsSwap` is a run in which a change that
  touches neither of two tied rows replaces the visible one by the other.
- A `$` behind an escaped backslash is not read as an anchor (crates/core/src/pattern_match.rs:112-122).
  `PatternMatch.AnchorAgreesExactly` counts the backslashes for which it is read rightly,
  `RegexMeansExactly` says for which patterns some text is answered wrongly, and
  `EscapedBackslashIsMisread` shows two such texts.
- Above a projection of several tables a join does not find the columns of its other side:
  `PlanCompiler.JoinOverProjectionExactly`. The query builders put projections on top of joins only.
- The dependency graph keeps the edges that lead strictly closer to the root
  (crates/database/src/database.rs:1892-1910), and the query builder also lets left joins through
  (crates/database/src/query_builder.rs:1040-1046). With inner joins no affected root is lost by that
  (`JoinRefresh.InnerJoinsLead`). With left joins none is lost exactly when every table leads to the root
  over tables that are present whenever it is: `LeftJoins.RefreshesRightlyExactly`. On the chain
  `a JOIN b JOIN c JOIN d LEFT JOIN e`, with `e` compared to both `d` and `a`, a deletion from `d` leaves a
  result standing: `ShortcutJoin.ShortcutMissesRoot`.

An update that moved a row to another id would be reported under the old id only
(`ChangeNotification.ReportsExactly`, `MovedRowIsMissed`). The mutations in
crates/gql/src/execute.rs:315-341 never build such an update.

## Model

| member | source | states |
|---|---|---|
| PatternMatch.LikeRecursive | crates/core/src/pattern_match.rs:51-71 | From any two positions the backtracking LIKE search answers exactly whether the rest of the text can be cut as the rest of the pattern asks |
| PatternMatch.Like | crates/core/src/pattern_match.rs:45-49 | True if and only if the text is a concatenation of pieces, one per pattern character, each accepted by its character |
| PatternMatch.HoldsSplits | crates/core/src/pattern_match.rs:51-71 | Every text the recursive reading accepts has a piecewise split |
| PatternMatch.SplitsHolds | crates/core/src/pattern_match.rs:51-71 | Every piecewise split is accepted by the recursive reading |
| PatternMatch.LikeConcat | crates/core/src/pattern_match.rs:45-71 | A text matches a concatenated pattern if and only if it can be cut into a match of each half |
| PatternMatch.BracketMatches | crates/core/src/pattern_match.rs:208-247 | The class scan accepts a character if and only if it lies in one of the ranges, negated when the class is |
| PatternMatch.FindClassEnd | crates/core/src/pattern_match.rs:208-247 | The scan stops at the first closing bracket, or at the end of the pattern |
| PatternMatch.ParseAnchors | crates/core/src/pattern_match.rs:112-122 | Pattern equals anchors and body put together; `^` is read exactly at the front, `$` exactly at the end and not behind a backslash |
| PatternMatch.AnchorAgreesExactly | crates/core/src/pattern_match.rs:112-122 | For all patterns: reading the trailing `$` as an anchor agrees with its being a token of its own if and only if the backslashes before it are none or odd in number, or at least one inside a class never closed |
| PatternMatch.DollarItems | crates/core/src/pattern_match.rs:181-247 | Read token by token from any token boundary, a `$` behind an even number of backslashes adds one item to the pattern before it, and behind an odd number none |
| PatternMatch.RegexMatchAt | crates/core/src/pattern_match.rs:126-159 | Returns the longest end position that a match of the pieces the pattern spells can reach from here (single characters, dot, the six escape classes, escaped characters, bracket classes with ranges and negation, and the three quantifiers), and None exactly when there is no match or the pattern spells nothing; the mutual recursion terminates |
| PatternMatch.SpelledIsRead | crates/core/src/pattern_match.rs:184-247 | Read token by token, a text that spells a list of pieces gives one item per piece, which accepts the characters the piece stands for and repeats as its quantifier says |
| PatternMatch.ReadIsSpelled | crates/core/src/pattern_match.rs:184-247 | Every pattern that can be read spells a list of pieces |
| PatternMatch.TokensReachPattern | crates/core/src/pattern_match.rs:126-247 | What the tokens of a pattern reach is what the pieces it spells reach |
| PatternMatch.PartsMean | crates/core/src/pattern_match.rs:208-247 | The ranges scanned from the body of a bracket class hold exactly the characters of its single characters and ranges |
| PatternMatch.RegexMatchOptional | crates/core/src/pattern_match.rs:126-159 | The branch for an optional item reaches as far as any way through it |
| PatternMatch.RegexMatchStar | crates/core/src/pattern_match.rs:161-179 | Greedy repetition with backtracking returns an end some number of repetitions reaches, and none reaches farther |
| PatternMatch.CrossingSteps | crates/core/src/pattern_match.rs:126-179 | If one item steps from `a` past where it steps from a later `b`, it also steps from `b` as far |
| PatternMatch.LaterStartReachesAsFar | crates/core/src/pattern_match.rs:126-179 | Of two starts from which the items match, the later one reaches at least as far: the exchange argument behind greedy-first |
| PatternMatch.LatestStartIsLongest | crates/core/src/pattern_match.rs:161-179 | The longest end from the latest viable start bounds the ends from all earlier starts |
| PatternMatch.StepThenRest | crates/core/src/pattern_match.rs:126-159 | The farthest end over all steps of the first item is the farthest end of the pattern |
| PatternMatch.Regex | crates/core/src/pattern_match.rs:91-110 | True if and only if some substring matches the pieces the pattern spells under whichever anchors are present |
| PatternMatch.RegexMeansExactly | crates/core/src/pattern_match.rs:91-122 | Every text is answered as the tokens of the pattern mean it, unless the `$` stands behind an even, positive number of backslashes in a pattern without open class and some text matches what precedes it; then some text is answered wrongly |
| PatternMatch.EscapedBackslashIsMisread | crates/core/src/pattern_match.rs:91-122 | On the pattern of two backslashes and a dollar sign one text that should match does not, and one that should not does |
| Values.CompareMirror | crates/core/src/value.rs:228-289 | Swapping the arguments mirrors the answer; the order is total, and equal values compare equal |
| Values.CompareEqualSameVariant | crates/core/src/value.rs:179-201 | Within one type comparing equal is being equal |
| Values.SqlEqVersusCompare | crates/core/src/value.rs:150-156 | SQL equality implies comparing equal; the converse fails only between a float and an integer |
| Values.ToDoubleMonotone | crates/core/src/value.rs:228-289 | The cast of a 64-bit integer to a float never reorders |
| Values.ToDoubleExact | crates/core/src/value.rs:228-289 | The cast is exact up to 2^53 |
| Values.CodesInOrder | crates/core/src/value.rs:281-284 | Texts and byte strings compare lexically: the first position that differs decides, or the end of the shorter one |
| Values.ComparesAsDescribed | crates/core/src/value.rs:228-305 | For integers within 2^53 the comparison puts numbers by size whatever their type with NaN last, other values of one type by size or lexically, and values of different types by type |
| Values.TransitiveExactly | crates/core/src/value.rs:228-289 | The order is transitive on a set of values if and only if no float of the set equals two different 64-bit integers of the set |
| Values.SafeTotalPreorder | crates/core/src/value.rs:228-305 | For values whose Int64 lies within 2^53 the order is a total preorder over all nine variants, NaN and infinities included |
| Values.OrderBreaksAbove53Bits | crates/core/src/value.rs:228-289 | The failing input: 2^53 + 1 and 2^53 both equal the float 2^53, and differ |
| RowOrder.RowOrderLinear | crates/database/src/reactive_bridge/snapshot_refresh.rs:344-364 | Over rows with typed columns the comparator is total, transitive and antisymmetric, for every ORDER BY clause |
| RowOrder.KeysInOrder | crates/database/src/reactive_bridge/snapshot_refresh.rs:326-357 | The first ORDER BY key on which two rows differ decides, in its direction; a missing column sorts first when ascending |
| RowOrder.ValuesInOrder | crates/database/src/reactive_bridge/snapshot_refresh.rs:344-364 | Of two lists of values the one with the smaller value at the first position that differs comes first, or the shorter one |
| RowOrder.RowsInOrder | crates/database/src/reactive_bridge/snapshot_refresh.rs:344-364 | The comparator puts a row first if and only if the clause does, or leaves it open and the row has the smaller root row, then the smaller values, then the older version |
| RowOrder.OrderByDecides | crates/database/src/reactive_bridge/snapshot_refresh.rs:344-364 | When no two different rows tie, every arrangement ordered by the ORDER BY keys is the one the comparator sorts to |
| RowOrder.OrderByDecidesExactly | crates/database/src/reactive_bridge/snapshot_refresh.rs:359-363 | Every arrangement the ORDER BY clause allows is the comparator's if and only if no two different rows tie |
| RowOrder.PositionsTie | crates/query/src/executor/sort.rs:21-48 | Two arrangements of the same rows ordered by the keys hold tied rows at every position |
| RowOrder.SortArranges | crates/database/src/reactive_bridge/snapshot_refresh.rs:344-364 | The comparator's arrangement is one of those the clause allows |
| ExecutorOrder.KeySortArranges | crates/query/src/executor/sort.rs:21-48 | The executor's stable sort by the keys is one of the arrangements the clause allows |
| ExecutorOrder.TieFreeRunsShowTheAnswer | crates/database/src/reactive_bridge.rs:498-622 | However the executor breaks ties: over a run without ties, within the budget or with settled rows, the visible rows are the slice of its answer |
| ExecutorOrder.VisibleDecidedExactly | crates/database/src/reactive_bridge/snapshot_refresh.rs:359-363 | All arrangements the clause allows show the same rows if and only if no visible row ties with a different row |
| ExecutorOrder.TiedRunsDisagree | crates/database/src/reactive_bridge.rs:541-622 | The converse on runs: when the last change is patched and a row then visible ties with a different one, some executor that keeps to the clause answers the full query with other rows than the window shows |
| ExecutorOrder.TiedRowsSwap | crates/database/src/reactive_bridge.rs:541-622 | With LIMIT 1, a key column and the primary key column in the output: a change of a third row turns the visible row from the executor's answer to a tied row with another primary key; in every database the primary key names the root row |
| OrderedWindow.SortedUnique | crates/database/src/reactive_bridge.rs:584-597 | A sorted arrangement of given rows is unique |
| OrderedWindow.MergeIsSort | crates/database/src/reactive_bridge.rs:584-597 | Sorting the union of two sorted lists is merging them |
| OrderedWindow.KeepOfSort | crates/database/src/reactive_bridge.rs:584-597 | Dropping affected rows commutes with sorting |
| OrderedWindow.MergeTake | crates/database/src/reactive_bridge.rs:584-597 | The first n rows of a merge depend on the first n rows of each list only |
| OrderedWindow.KeepTake | crates/database/src/reactive_bridge.rs:584-597 | Two lists that agree on n rows agree on n - a rows after dropping the same at most a of them |
| OrderedWindow.PrefixExactly | crates/database/src/reactive_bridge.rs:584-605 | A sorted window that misses some rows is a prefix of the full order if and only if its last row comes no later than the first missing one |
| OrderedWindow.CutExactly | crates/database/src/reactive_bridge.rs:584-605 | The same for a merged list cut to the candidate limit |
| SnapshotRefresh.ReQueryObservable.constructor | crates/database/src/reactive_bridge.rs:158-187 | A new observable holds the window of a full query and its visible slice, without subscribers |
| SnapshotRefresh.ReQueryObservable.Subscribe | crates/database/src/reactive_bridge.rs:205-210 | The new subscription gets an id never used before and comes last |
| SnapshotRefresh.ReQueryObservable.Unsubscribe | crates/database/src/reactive_bridge.rs:213-217 | Exactly the one subscription with that id goes, and the answer says whether there was one |
| SnapshotRefresh.ReQueryObservable.NotifySubscribers | crates/database/src/reactive_bridge.rs:318-322 | Every subscriber is handed the current result once, in the order of subscription |
| SnapshotRefresh.ReQueryObservable.ApplyFullRequeryOutput | crates/database/src/reactive_bridge.rs:498-539 | The window is the new rows, the result its visible slice, and the answer says whether the result differs |
| SnapshotRefresh.ReQueryObservable.TryPartialRefresh | crates/database/src/reactive_bridge.rs:541-622 | Gives up exactly where the specification of a patch does and then changes nothing; otherwise the window is the patched one and the answer says whether the result differs |
| SnapshotRefresh.ReQueryObservable.OnChange | crates/database/src/reactive_bridge.rs:262-322 | The window becomes the patched one or that of a full query, and is left alone without subscribers; all subscribers are called exactly when the visible rows differ |
| SnapshotRefresh.VisibleIsSlice | crates/database/src/reactive_bridge/snapshot_refresh.rs:314-324 | The visible rows are those from the offset on, as many as the limit or as there are |
| SnapshotRefresh.MergedIsMerge | crates/database/src/reactive_bridge.rs:584-597 | The merged candidates are the merge of the unaffected candidates and the recomputed rows, both in order |
| SnapshotRefresh.RefreshShrinksByAffected | crates/database/src/reactive_bridge.rs:541-597 | A refresh costs the exact prefix of the window at most as many rows as there were affected candidates |
| SnapshotRefresh.RunStaysExact | crates/database/src/reactive_bridge.rs:541-622 | After any run of patches and full queries the window agrees with the full order on all but the affected candidates counted since the last full query |
| SnapshotRefresh.VisibleMatchesFullQuery | crates/database/src/reactive_bridge.rs:541-622 | While these counts stay within the candidate limit less offset and limit, the visible rows are those of a full re-query |
| SnapshotRefresh.FirstPatchIsRight | crates/database/src/reactive_bridge.rs:541-622 | With a candidate limit of offset, limit and overscan, the first patch after a full query shows what a full query would: the bound on affected candidates makes it give up before it costs more than the spare rows |
| SnapshotRefresh.WindowStaysFull | crates/database/src/reactive_bridge.rs:594-605 | As long as the result has offset, limit and overscan rows the window has as many, whatever roots are reported: no run ends with fewer visible rows than the limit |
| SnapshotRefresh.RefreshExactly | crates/database/src/reactive_bridge.rs:598-605 | An exact window stays exact under a patch if and only if its new end sorts no later than the first unaffected row it never saw |
| SnapshotRefresh.CompleteStays | crates/database/src/reactive_bridge.rs:584-605 | A window that holds the whole result is patched to the window of a full query |
| SnapshotRefresh.GuardKeepsPrefix | crates/database/src/reactive_bridge.rs:594-605 | In runs whose recomputed rows sort no later than the last kept candidate, the length guard alone keeps the window an exact prefix, long enough or complete |
| SnapshotRefresh.GuardSuffices | crates/database/src/reactive_bridge.rs:498-622 | In such runs the visible rows are those of a full re-query after every change |
| SnapshotRefresh.TypedRowsStayVisible | crates/database/src/reactive_bridge/snapshot_refresh.rs:314-364 | Both results for the comparator of the source over rows with typed columns |
| StaleWindows.GuardMissesSinkingRows | crates/database/src/reactive_bridge.rs:598-605 | For every window of offset, limit and two overscans: a run of two overscans and one more change, each sinking the top row below the window, passes the guard, costs one more than the budget and ends with a wrong last visible row; the budget is tight |
| StaleWindows.SinkingRowsExist | crates/database/src/query_builder.rs:1103-1106 | Such rows exist for an ordinary ORDER BY over a text column and a primary key column, and the window the query builder asks for, at every OFFSET and LIMIT; a sunk row has the next version |
| StaleWindows.SourceWindowsGoStale | crates/database/src/snapshot_refresh_policy.rs:235-249 | For every OFFSET and every LIMIT of at least 1 there is a run of one-row changes, one more than twice the overscan of the policy, after which the last visible row has other values than in a full re-query; in every database the primary key column names the root row |
| StaleWindows.SinkingState | crates/database/src/reactive_bridge.rs:541-622 | After each change of such a run the window is known row by row: it lacks as many rows as have sunk |
| DependencyGraph.CollectEdges | crates/database/src/database.rs:1795-1862 | Succeeds exactly when all names of all joins resolve; then every join is entered in both directions, reads the column it names on one side, matches the one it names on the other, and uses the primary key, an index or a scan as that column allows; otherwise the error of the first join that does not resolve |
| DependencyGraph.UndirectedFollowsJoins | crates/database/src/database.rs:1838-1862 | Every edge goes along a join, from the first column with the name given on its side to the first with the name given on the other, and every join has its edge in either direction |
| DependencyGraph.LookupIsFor | crates/database/src/database.rs:1686-1716 | An edge looks rows up by the primary key if the column is its only one, else by the first index that has only this column, else by a scan |
| DependencyGraph.UndirectedSymmetric | crates/database/src/database.rs:1838-1862 | Tables are neighbours in both directions or not at all |
| DependencyGraph.Expand | crates/database/src/database.rs:1869-1883 | Visiting the edges of one table keeps the breadth-first invariant and queues each table once |
| DependencyGraph.BreadthFirst | crates/database/src/database.rs:1864-1884 | The distances are the lengths of shortest walks from the root, for exactly the tables the root reaches; the search terminates |
| DependencyGraph.Orient | crates/database/src/database.rs:1892-1910 | Keeps exactly the edges that lead strictly closer to the root |
| DependencyGraph.CompileDependencyGraph | crates/database/src/database.rs:1781-1917 | Fails with the first unresolved name, or as disconnected exactly when a joined table is not reachable from the root; otherwise all tables are named, and the edges are the oriented ones, each over the columns that its join names |
| DependencyGraph.OrientedWalkDescends | crates/database/src/database.rs:1892-1910 | Along kept edges the distance falls at every step |
| DependencyGraph.OrientedAcyclic | crates/database/src/database.rs:1892-1910 | The kept edges form no cycle |
| DependencyGraph.OrientedReachesRoot | crates/database/src/database.rs:1892-1910 | Every reachable table keeps a directed path to the root, of exactly its distance |
| AffectedRoots.LookupsAgree | crates/database/src/reactive_bridge/snapshot_refresh.rs:366-410 | The three lookup primitives find the same rows if and only if it is not an integer meeting an equal float |
| AffectedRoots.LinkExactly | crates/database/src/reactive_bridge.rs:888-925 | A dirty row makes another dirty if and only if some edge between their tables finds the other by a value, not NULL, that the row or a recorded image of its table has in the source column |
| AffectedRoots.CollectJoinValues | crates/database/src/reactive_bridge/snapshot_refresh.rs:412-448 | Collects exactly the non-NULL join values of the given stored rows and delta images |
| AffectedRoots.ReachOver | crates/database/src/reactive_bridge.rs:888-925 | The rows reached over one edge are exactly those whose column matches a join value |
| AffectedRoots.InsertRowIds | crates/database/src/reactive_bridge.rs:906-930 | Marks the rows dirty and queues their table exactly when one of them is new and it is not queued yet |
| AffectedRoots.PassOn | crates/database/src/reactive_bridge.rs:888-930 | Passing on one table over all its edges leaves only queued tables unclosed |
| AffectedRoots.SeedWorklist | crates/database/src/reactive_bridge.rs:855-880 | Starts with the changed rows of the tables of the graph, all of them queued |
| AffectedRoots.CollectAffectedRootRowIds | crates/database/src/reactive_bridge.rs:855-935 | On every graph, cyclic ones included, the worklist ends; its answer is exactly the root rows reachable from a changed row by join-value matches over the edges, and it gives up if and only if an affected table with edges has no store or an affected removed row left no trace |
| AffectedRoots.ClosedIsAffected | crates/database/src/reactive_bridge.rs:855-935 | With an empty worklist the end of every chain of matches from a changed row is dirty |
| JoinRefresh.UncollectedRootsKeepTheirResults | crates/database/src/reactive_bridge.rs:855-935 | For a chain of inner and left joins whose tables lead to the root, a combination of rows with an uncollected root is a result after the change exactly if it was one before, with the same values |
| JoinRefresh.CollectedRootsCover | crates/database/src/reactive_bridge.rs:541-597 | Where the tables lead to the root, the collected roots account for every difference between the results before and after the change |
| JoinRefresh.InnerJoinsLead | crates/database/src/database.rs:1892-1910 | With inner joins the oriented edges lead every table to the root over tables present in the same results |
| JoinRefresh.BuiltIsGraphOf | crates/database/src/database.rs:1781-1917 | For a chain in which every join has a condition, what the graph builder yields is the dependency graph these results are about |
| JoinRefresh.RecordedRunIsGood | crates/database/src/reactive_bridge.rs:541-622 | A run in which every change was recorded and its roots collected, over tables that lead to the root, satisfies the hypotheses about affected roots |
| JoinRefresh.LiveQueryStaysVisible | crates/database/src/reactive_bridge.rs:541-622 | End to end: over such a run, within the budget of affected candidates or with recomputed rows that sort no later than the last kept one, a live query over inner joins, or over inner and left joins whose tables lead to the root, shows what the query yields on the current tables; a join pairs rows that hold SQL-equal values, not NULL, in the columns its conditions name |
| LeftJoins.RefreshesRightlyExactly | crates/database/src/database.rs:1892-1910 | For every chain of inner and left joins: whatever the data and the change, results with uncollected roots stay results, if and only if every table leads to the root; results are joined by the columns the conditions name |
| LeftJoins.MissedRoot | crates/database/src/reactive_bridge.rs:855-935 | Where a table does not lead to the root, the deletion of its only row ends a result whose root is not collected |
| ShortcutJoin.ShortcutDoesNotLead | crates/database/src/database.rs:1892-1910 | On the chain of five tables the only kept edge of the fourth leads to the left-joined one |
| ShortcutJoin.ShortcutMissesRoot | crates/database/src/query_builder.rs:1040-1046 | The failing input: on that chain some deletion leaves a result standing that is none any more |
| LiveRegistry.ReleaseServesOnce | crates/database/src/live_runtime.rs:1796-1816 | The release lane serves every active query once if and only if a snapshot query is active or there is at most one delta query |
| LiveRegistry.FlushServesExactly | crates/database/src/live_runtime.rs:1736-1818 | A flush hands all pending deltas of a table once to each of its active delta queries if and only if the build is the benchmark one, there are no deltas, a snapshot query is active, or there is at most one query |
| LiveRegistry.ReleaseSkipsFirst | crates/database/src/live_runtime.rs:1804-1811 | The failing input: of two queries the first receives nothing and the second everything twice |
| LiveRegistry.PendingIsSinceFlush | crates/database/src/live_runtime.rs:1688-1733 | What is pending is exactly what was reported since the last flush, deltas in order and ids united |
| LiveRegistry.PendingSince | crates/database/src/live_runtime.rs:1688-1733 | The same without the machine: a table is pending if and only if an event since the flush named it, with the ids and the deltas of these events |
| LiveRegistry.RegisteredExactly | crates/database/src/live_runtime.rs:1512-1532 | A snapshot query is registered on a table if and only if an event registered it there and no flush since found it without a subscriber |
| LiveRegistry.ActiveExactly | crates/database/src/live_runtime.rs:1534-1539 | A query has a subscriber if and only if it was subscribed and not unsubscribed since |
| LiveRegistry.RunStaysValid | crates/database/src/live_runtime.rs:1471-1906 | Distinct registrations stay distinct over every run |
| LiveRegistry.DeltasAreConserved | crates/database/src/live_runtime.rs:1705-1892 | Over any interleaving of notifications and flushes, what a subscribed delta query has received followed by what is pending is what it started with followed by all queued deltas in order: nothing lost, repeated or reordered |
| LiveRegistry.SnapshotCallAtFlush | crates/database/src/live_runtime.rs:1630-1690 | At every flush of a run from an empty registry a subscribed snapshot query gets exactly one call if a table it is registered on was reported since the flush before, and none otherwise; the call has exactly the reported tables of the query as keys, each with the ids reported, and for each of its tables all deltas reported, in order |
| LiveRegistry.LiveRegistry.constructor | crates/database/src/live_runtime.rs:1489-1506 | A new registry is empty |
| LiveRegistry.LiveRegistry.RegisterSnapshotQuery | crates/database/src/live_runtime.rs:1512-1523 | Takes the registration step: the query is appended for each of its tables and for no other |
| LiveRegistry.LiveRegistry.RegisterDeltaQuery | crates/database/src/live_runtime.rs:1525-1532 | The same for delta queries |
| LiveRegistry.LiveRegistry.OnTableChange | crates/database/src/live_runtime.rs:1688-1703 | The ids are united with the pending ones of the table |
| LiveRegistry.LiveRegistry.OnTableChangeDelta | crates/database/src/live_runtime.rs:1705-1733 | The deltas are appended and the ids united with the pending ones |
| LiveRegistry.LiveRegistry.DispatchBenchmark | crates/database/src/live_runtime.rs:1759-1780 | Moved or cloned, every active query gets the deltas once |
| LiveRegistry.LiveRegistry.DispatchRelease | crates/database/src/live_runtime.rs:1803-1816 | Every active query gets the number of copies the specification of the release lane counts |
| LiveRegistry.LiveRegistry.FlushDeltaLane | crates/database/src/live_runtime.rs:1736-1818 | Serves every pending table and keeps exactly the deltas a snapshot query may still need, or nobody took |
| LiveRegistry.LiveRegistry.FlushSnapshotLane | crates/database/src/live_runtime.rs:1630-1686 | Each active query on a changed table gets one more call, with all its changed tables, and no other query does |
| LiveRegistry.LiveRegistry.GcDeadQueries | crates/database/src/live_runtime.rs:1894-1905 | Exactly the queries without a subscriber go, and the tables left without a query |
| LiveRegistry.LiveRegistry.FlushPending | crates/database/src/live_runtime.rs:1880-1892 | The delta lane, the snapshot lane and the collection together take the flush step |
| ChangeNotification.Aggregate | crates/database/src/database.rs:2063-2088 | Every table with a change gets one report, holding the deltas of all its changes in order and their ids |
| ChangeNotification.NotifyGraphqlChanges | crates/database/src/database.rs:2058-2097 | What is pending grows by exactly the report of each known table; unknown tables and everything else in the registry stay as they are |
| ChangeNotification.DeltasAreTheDifference | crates/database/src/database.rs:2071-2087 | The reported deltas are the difference of the table before and after: for every row value the count changes by the net of its deltas |
| ChangeNotification.ReportsExactly | crates/database/src/database.rs:2077-2081 | The reported id is the only row that differs if and only if the change is no update that moves its row to another id |
| ChangeNotification.MovedRowIsMissed | crates/database/src/database.rs:2077-2081 | A row moved from id 1 to id 2 is reported as a change of row 1 only |
| ChangeNotification.UnreportedIsSame | crates/database/src/database.rs:2071-2087 | A row whose id is not reported is the same before and after all changes |
| ChangeNotification.ReportedHasImage | crates/database/src/database.rs:2071-2087 | A reported row that was there before the changes left its first image among the deltas |
| ChangeNotification.ReportedChangeIsRecorded | crates/database/src/database.rs:2058-2097 | What is reported of a mutation is all the hypotheses of the affected-roots results ask for |
| JsonReader.UnescapeJson | crates/database/src/dataflow_compiler.rs:1164-1187 | The loop computes the unescaping that `UnescapeEscape` inverts |
| JsonReader.UnescapeEscape | crates/storage/src/row_store.rs:4659-4687 | Unescaping undoes the canonical escaping of every string |
| JsonReader.SplitJsonTopLevel | crates/database/src/dataflow_compiler.rs:1236-1273 | The loop cuts at exactly the separators outside strings and brackets |
| JsonReader.SplitJoin | crates/database/src/dataflow_compiler.rs:1236-1273 | Splitting at commas undoes joining balanced pieces with commas |
| JsonReader.FindJsonColon | crates/database/src/dataflow_compiler.rs:1275-1296 | Finds the first colon outside strings |
| JsonReader.ColonOfPair | crates/database/src/dataflow_compiler.rs:1275-1296 | In a written pair it is the colon behind the key, whatever the key and the value contain |
| JsonReader.InsertSets | crates/jsonb/src/value.rs:78-88 | Inserting sets one key and leaves the others, so the last of several equal keys wins |
| JsonReader.InsertKeepsSorted | crates/jsonb/src/value.rs:78-88 | Objects stay sorted by key and gain no other key |
| JsonReader.ParseJsonText | crates/database/src/dataflow_compiler.rs:1137-1162 | The mutually recursive reader terminates and computes the reading that `ReadWrite` is about |
| JsonReader.ParseJsonObject | crates/database/src/dataflow_compiler.rs:1189-1216 | The same for objects, failing on the first pair that cannot be read |
| JsonReader.ParseJsonArray | crates/database/src/dataflow_compiler.rs:1218-1234 | The same for arrays |
| JsonReader.WriteBalanced | crates/database/src/dataflow_compiler.rs:1236-1296 | Canonical text is balanced at every depth and has no space around it |
| JsonReader.ReadWrite | crates/database/src/dataflow_compiler.rs:1137-1296 | Reading the canonical text of any JSON value gives the value back (sections 4, 5 and 7 of RFC 8259, without `\u` escapes) |
| JsonTexts.ReadsEveryText | crates/database/src/dataflow_compiler.rs:1137-1296 | Every text of a document is read as its value, with blanks around any part, strings written with or without the escapes the reader knows, and object keys in any order and repeated |
| JsonTexts.ReadsSpaced | crates/database/src/dataflow_compiler.rs:1137-1162 | The same with blanks before and behind the whole text |
| JsonTexts.CollectedHolds | crates/database/src/dataflow_compiler.rs:1189-1216 | An object read from pairs is sorted and holds under each key the last value written for it |
| JsonTexts.TrimSpaced | crates/database/src/dataflow_compiler.rs:1137-1162 | Trimming takes the blanks around a text away and nothing else |
| JsonTexts.UnescapeChars | crates/database/src/dataflow_compiler.rs:1164-1187 | Unescaping gives each character of a string for the text it is written as, escaped or plain |
| Expressions.CompiledIsBoolean | crates/database/src/dataflow_compiler.rs:800-810 | A predicate that may be negated in place stands for an expression whose value is a boolean |
| Expressions.JsonFunctionExact | crates/database/src/dataflow_compiler.rs:749-798 | A compiled JSON function is the boolean the function itself evaluates to |
| Expressions.NamesIgnoreCase | crates/database/src/dataflow_compiler.rs:749-751 | Function names are read without regard to the case of ASCII letters, and of no others |
| Expressions.CompiledExactly | crates/database/src/dataflow_compiler.rs:713-845 | The compiled predicate accepts a row if and only if the expression evaluates to true on it, for every expression |
| Expressions.TraceAgrees | crates/database/src/dataflow_compiler.rs:812-892 | The row and the trace evaluator agree whenever their lookups agree on the columns the predicate reads |
| Expressions.RebindMeaning | crates/database/src/dataflow_compiler.rs:1510-1586 | Rewriting the columns of an expression is reading them through the rewriting |
| Expressions.ComparesLikeExecutor | crates/database/src/dataflow_compiler.rs:1330-1355 | All six comparisons agree with the executor's (crates/query/src/executor/runner.rs:6387-6425) if and only if no side is NULL and the values are not one number in two integer widths |
| Expressions.EqualsLikeExecutor | crates/database/src/dataflow_compiler.rs:1330-1355 | Equality alone agrees if and only if not both sides are NULL and the values are not one number in two integer widths |
| Expressions.DataflowAndExecutorDiffer | crates/database/src/dataflow_compiler.rs:1330-1355 | A compiled equality of two columns accepts two NULLs and rejects one number in two widths; the executor does the opposite |
| ExecutorExpressions.BinaryAgreesExactly | crates/query/src/executor/runner.rs:6387-6482 | Both evaluators give a binary operator one value if and only if: comparisons meet no NULL, and equality no number in two integer widths; AND meets NULL only beside false, OR only beside true; sums, differences and products are not of two integers of one width, quotients nor divided by zero, and remainders not of two numbers |
| ExecutorExpressions.UnaryAgrees | crates/query/src/executor/runner.rs:6484-6500 | NOT, negation, IS NULL and IS NOT NULL have one value in both evaluators, on every operand |
| ExecutorExpressions.FunctionAgrees | crates/query/src/executor/runner.rs:6502-6616 | So have functions, where both spellings of the name in capitals mean one function and the JSON functions of both sides agree |
| ExecutorExpressions.TestAgreesExactly | crates/query/src/executor/runner.rs:6387-6482 | As a filter each of the six comparisons accepts the same operands in both evaluators under a weaker condition, which is exact |
| ExecutorExpressions.ConnectivesAgree | crates/query/src/executor/runner.rs:6387-6482 | As filters AND and OR accept the same whenever both their sides do |
| ExecutorExpressions.SameValue | crates/query/src/executor/runner.rs:6221-6333 | An expression of any shape, BETWEEN, IN, LIKE and MATCH and their negations included, has one value in both evaluators where its operators meet operands on which they agree |
| ExecutorExpressions.SameFilter | crates/query/src/executor/runner.rs:6221-6333 | A filter accepts the same in both evaluators where its comparisons accept the same |
| ExecutorExpressions.CompiledLikeExecutor | crates/database/src/dataflow_compiler.rs:713-845 | Then the compiled predicate accepts exactly the rows the executor accepts |
| ExecutorExpressions.NullTests | crates/database/src/dataflow_compiler.rs:1357-1375 | The compiled tests IS NULL, IS NOT NULL, of a column and of its negation accept exactly the rows with NULL, any other value, true and false there |
| ExecutorExpressions.PatternTests | crates/database/src/dataflow_compiler.rs:900-984 | LIKE and MATCH accept exactly matching texts, their negations all other values |
| ExecutorExpressions.MemberTests | crates/database/src/dataflow_compiler.rs:900-984 | BETWEEN and IN accept exactly the values within the range and in the list, their negations exactly the others |
| ExecutorExpressions.NotLetsNullIn | crates/database/src/dataflow_compiler.rs:1357-1375 | The failing input: NOT (a = 1) accepts NULL in the dataflow and not in the executor |
| ExecutorExpressions.SumIsNoInteger | crates/database/src/dataflow_compiler.rs:1330-1355 | Another: a + 1 = 2 accepts the integer 1 in the executor and not in the dataflow |
| Layouts.WidthFor | crates/database/src/dataflow_compiler.rs:103-108 | The width of a table in a layout is its own, and there is none for other tables |
| Layouts.JoinLayoutFor | crates/database/src/dataflow_compiler.rs:59-81 | The layout of a join of whole-table layouts is the whole-table layout of its output |
| Layouts.FlattenWidth | crates/database/src/dataflow_compiler.rs:120-122 | A laid-out environment is as wide as its layout |
| Layouts.BoundColumn | crates/database/src/dataflow_compiler.rs:87-101 | The resolved position of a column holds the column's value in the flat row |
| Layouts.BoundMeaning | crates/database/src/dataflow_compiler.rs:1510-1586 | A bound expression means on the flat row what it meant on the environment, for whole-table layouts and behind projections |
| Layouts.Reordered | crates/database/src/dataflow_compiler.rs:1396-1425 | Projecting onto the output tables turns a flat row in raw order into the one in output order |
| Joins.JoinSimulates | crates/incremental/src/materialize.rs:671-697 | A join of images is the image of the join, unmatched rows of either side included |
| Joins.JoinElements | crates/incremental/src/materialize.rs:671-697 | A join holds nothing but merged matches and, where asked for, padded tuples |
| Joins.JoinHoldsExactly | crates/incremental/src/materialize.rs:671-697 | A join holds exactly the merged matches and, of the sides it keeps, the padded tuples that match nothing |
| Joins.MatchIsJoined | crates/incremental/src/materialize.rs:671-697 | Every matching pair is in the join |
| Joins.ExtraIsLonger | crates/incremental/src/materialize.rs:671-697 | An inner join under a weaker condition is longer as soon as one pair meets only the weaker one |
| Plans.ResolveColumns | crates/database/src/dataflow_compiler.rs:234-264 | Every key column of an index resolves to a column of its table, or none does |
| Plans.LookupIndexColumns | crates/database/src/dataflow_compiler.rs:234-264 | The columns found for an index belong to a known table and lie within it |
| Plans.IndexFound | crates/database/src/dataflow_compiler.rs:234-264 | An index is the first of its name, else the first of its normalized name, else the primary key of either name |
| Plans.JoinTypeHolds | crates/database/src/dataflow_compiler.rs:1602-1609 | Left and full joins hold the left tuples without a partner, padded; right and full joins the right ones; no other join holds any |
| PlanCompiler.CollectEquiJoinKeys | crates/database/src/dataflow_compiler.rs:1455-1504 | The pushing walk appends exactly the key positions of the equalities, in order |
| PlanCompiler.NewResolver | crates/database/src/dataflow_compiler.rs:143-155 | New ids start behind the largest known one |
| PlanCompiler.CompileToDataflow | crates/database/src/dataflow_compiler.rs:180-195 | Plans that cannot be maintained are refused; others are compiled from a fresh resolver |
| PlanCompiler.CompileResolves | crates/database/src/dataflow_compiler.rs:374-648 | Compiling resolves at most one table per leaf and changes the resolver in no other way |
| PlanCompiler.IdsStayDistinct | crates/database/src/dataflow_compiler.rs:136-174 | With enough ids left, different tables of a plan get different ids |
| PlanCompiler.ScalarRangeMeaning | crates/database/src/dataflow_compiler.rs:279-316 | The predicate made of a scalar range is true exactly of the keys the range contains (crates/index/src/traits.rs:185-222) |
| PlanCompiler.EqualTosMeaning | crates/database/src/dataflow_compiler.rs:318-337 | The conjunction of equalities is true exactly of the given composite key |
| PlanCompiler.IndexPredicateMeaning | crates/database/src/dataflow_compiler.rs:339-372 | Where an index scan is turned into a predicate, it holds exactly of the rows within bounds |
| PlanCompiler.EquiKeysMeaning | crates/database/src/dataflow_compiler.rs:1427-1504 | Two rows have the same join key if and only if the join condition is true of their environments |
| PlanCompiler.FilterPreserved | crates/database/src/dataflow_compiler.rs:374-648 | A compiled filter keeps exactly the environments the condition accepts |
| PlanCompiler.IndexScanPreserved | crates/database/src/dataflow_compiler.rs:339-372 | A compiled index scan yields exactly the rows of the scan: those within bounds, all of them, since a limited, offset or reversed scan is refused |
| IndexScans.ByKeyArranges | crates/query/src/executor/runner.rs:3945-4010 | The rows of an index scan in index order: the same rows, by rising or falling key |
| IndexScans.ScannedIsSlice | crates/query/src/executor/runner.rs:3945-4010 | A limited, offset or reversed scan holds, in index order, the rows from its offset on, as many as its limit or as there are |
| IndexScans.FilterAnswersExactly | crates/database/src/dataflow_compiler.rs:390-420 | Testing every row of the table gives the rows of an index scan if and only if its slice takes every row within bounds |
| IndexScans.CompilesExactly | crates/database/src/dataflow_compiler.rs:374-648 | The compiler takes exactly the plans all of whose parts it can maintain: no sorts, limits or unions, index scans without limit, offset or reversal, whose index is known and whose bounds can be tested, and GIN scans with a check |
| IndexScans.SlicedScanExactly | crates/database/src/dataflow_compiler.rs:390-392 | Without the refusal the compiled rows would be those of the scan if and only if its slice takes every row within bounds |
| IndexScans.LimitedScanIsRefused | crates/query/src/optimizer/limit_skip_by_index.rs:225-262 | LIMIT 1 over two rows: the scan has one row, the table test two, and the compiler refuses |
| PlanCompiler.JoinPreserved | crates/database/src/dataflow_compiler.rs:374-648 | A compiled equi-join, inner or outer, yields the joined environments in output order, padding included |
| PlanCompiler.CrossPreserved | crates/database/src/dataflow_compiler.rs:374-648 | The constant-key join of a cross product yields all pairs |
| PlanCompiler.ReorderPreserved | crates/database/src/dataflow_compiler.rs:1396-1425 | Reordering the join output keeps the environments and gives them the output layout |
| PlanCompiler.IndexJoinPreserved | crates/database/src/dataflow_compiler.rs:374-648 | The same for an index nested-loop join with its outer side on the left or on the right |
| PlanCompiler.CompilePreserves | crates/database/src/dataflow_compiler.rs:374-648 | For every accepted plan of scans, index scans and gets (whose meaning is their slice of the rows in index order), filters, projections, cross products and equi-joins over distinct tables, nested in any way that does not put a projection of several tables below a join, the rows of the dataflow are exactly the environments the plan means, laid out by the computed layout |
| PlanCompiler.ProjectPreserved | crates/database/src/dataflow_compiler.rs:450-487 | A projection of any compiled input leaves its values as the tuple of the input's first table, and of a single table again a whole-table layout |
| PlanCompiler.SidesPreserved | crates/database/src/dataflow_compiler.rs:490-530 | Both inputs of a join are laid out by the widths of the joined plan, each table with the width its own side gives it |
| PlanCompiler.ProjectionPreserves | crates/database/src/dataflow_compiler.rs:374-648 | At the root a projection yields the values of its expressions, whether it compiles to a projection or to a map, also over an input without tables |
| PlanCompiler.JoinOverProjectionExactly | crates/database/src/dataflow_compiler.rs:52-101 | Joined with a projection, the columns of the other table are found where they are if and only if the projection was of one table or the other table has no columns |
| PlanCompiler.OtherConjunctsAreIgnored | crates/database/src/dataflow_compiler.rs:1502-1504 | A conjunct that yields no key position leaves no trace in the compiled join |
| IgnoredConjuncts.JoinsRightlyExactly | crates/database/src/dataflow_compiler.rs:1502-1504 | On whole plans, inner and outer joins: with a conjunct that yields no key position the rows of the compiled join are the plan's if and only if no two input tuples with equal keys fail the conjunct |
| IgnoredConjuncts.CompiledJoinExactly | crates/database/src/dataflow_compiler.rs:1455-1504 | The same for the compiled join of any two compiled inputs |
| IgnoredConjuncts.FailingPairShows | crates/database/src/dataflow_compiler.rs:1502-1504 | The merged row of a failing pair is among the compiled rows and not among the plan's, when padded rows can be told from merged ones |
| IgnoredConjuncts.LostPairShows | crates/database/src/dataflow_compiler.rs:1455-1504 | Of two joins of the same inputs, the merged row of a pair only one of them joins shows in that one and not in the other |
| IgnoredConjuncts.NullRowHidesFailure | crates/database/src/dataflow_compiler.rs:1502-1504 | Why outer joins need that: losing a match of nothing but NULLs shows the same rows |
| IgnoredConjuncts.IgnoredConjunctLetsRowsIn | crates/database/src/dataflow_compiler.rs:1502-1504 | Two one-row tables on which the plan has no rows and the compiled join yields one |
| KeylessJoins.KeylessJoinsRightlyExactly | crates/database/src/dataflow_compiler.rs:1442-1447 | On whole plans, inner and outer joins: without an equality across the sides with all tables in the output (and, for outer joins, no input row of nothing but NULLs on a padded side) the rows of the compiled join are the plan's if and only if the condition holds of the input tuples with equal flat rows and of no others |
| KeylessJoins.CompiledKeylessExactly | crates/database/src/dataflow_compiler.rs:1428-1447 | The same for the compiled join of any two compiled inputs |
| KeylessJoins.KeylessJoinRows | crates/database/src/dataflow_compiler.rs:1442-1447 | The compiled join yields the environments joined by equal flat rows, padding included |
| KeylessJoins.SameRowsNeedSameMatches | crates/database/src/dataflow_compiler.rs:374-648 | Two joins of the same inputs show the same rows if and only if they join the same pairs |
| KeylessJoins.WholeRowKeysLoseRows | crates/database/src/dataflow_compiler.rs:1442-1447 | Two one-row tables joined by an inequality: the plan has one row and the compiled join yields none |
| TraceTuples.PushAddsCells | crates/incremental/src/trace.rs:343-378 | Pushing a segment adds its cells and leaves no gap, merged into the last segment or not |
| TraceTuples.AppendLayoutRange | crates/incremental/src/trace.rs:277-341 | Appends exactly the cells of the stretch; positions past the end of the tuple are empty |
| TraceTuples.SegmentAt | crates/incremental/src/trace.rs:228-254 | Bisection finds the segment that holds a position, for exactly the positions of the tuple |
| TraceTuples.ValueAt | crates/incremental/src/trace.rs:108-121 | Answers with the cell at the position |
| TraceTuples.MaterializeRow | crates/incremental/src/trace.rs:256-274 | The row holds the values of the non-empty cells in order |
| TraceTuples.TraceTuple.OfRow | crates/incremental/src/trace.rs:145-157 | A base tuple is its row |
| TraceTuples.TraceTuple.Concat | crates/incremental/src/trace.rs:159-169 | The cells of the left tuple cut or filled up to the given width, then those of the right one |
| TraceTuples.TraceTuple.NullPadLeft | crates/incremental/src/trace.rs:171-188 | NULLs, then the right tuple |
| TraceTuples.TraceTuple.NullPadRight | crates/incremental/src/trace.rs:190-207 | The left tuple, then NULLs |
| TraceTuples.TraceTuple.Project | crates/incremental/src/trace.rs:209-226 | The cells at the given positions, empty where the tuple has none |
| TraceTuples.TraceTuple.MaterializeRc | crates/incremental/src/trace.rs:123-128 | The materialized row is computed once and stays what the cells say |
| TraceTuples.TraceTuple.Keeps | crates/incremental/src/materialize.rs:2117-2129 | A filter judges a solid tuple like its row, whether or not the row was materialized before |
| TraceTuples.LooksLikeRowExactly | crates/incremental/src/trace.rs:108-274 | A tuple answers every lookup like its materialized row if and only if no value follows an empty cell |
| TraceTuples.MissingColumnMovesValues | crates/incremental/src/trace.rs:209-274 | The failing input: projecting a missing column in front of a present one |
| TracedDataflow.TuplesAreRows | crates/incremental/src/materialize.rs:2145-2200 | Run on late-materialized tuples, a fitting dataflow yields exactly its rows, with no value missing |
| TracedDataflow.JoinsLikeRows | crates/incremental/src/materialize.rs:671-697 | Joining and padding tuples simulates joining and padding rows when the left rows have the declared width |
| TracedDataflow.CompiledFits | crates/database/src/dataflow_compiler.rs:374-648 | Compiled plans, projections included, declare the widths their rows have and project only columns that are there |
| TracedDataflow.TracedPlanPreserved | crates/database/src/dataflow_compiler.rs:374-648 | The tuples of a compiled plan, projections included, are the environments of the plan, laid out flat |
| SourceBindings.BindingList.Push | crates/database/src/live_runtime.rs:394-412 | Appends one binding for a known table, numbered by its position, and none for an unknown one |
| SourceBindings.BindingList.Collect | crates/database/src/live_runtime.rs:414-569 | The walk appends the bindings of all leaves the plan reads, left to right, numbered on from those already there |
| SourceBindings.BindingList.CollectBoth | crates/database/src/live_runtime.rs:414-569 | The same for the two sides of a join, cross product or union |
| SourceBindings.BindingList.CollectIndexJoin | crates/database/src/live_runtime.rs:414-569 | The inner table of an index join is bound on its own side of the outer plan |
| SourceBindings.CompiledAligned | crates/database/src/dataflow_compiler.rs:374-648 | The sources of the dataflow are, left to right, the ids of the leaves the collector reads |
| SourceBindings.BindingsMatchSources | crates/database/src/live_runtime.rs:394-569 | For every compiled plan without an Empty leaf the i-th binding has the table id of the i-th source, and there are as many of both |
| SourceBindings.AlignedExactly | crates/database/src/live_runtime.rs:394-569 | Their numbers are equal if and only if the plan has no Empty leaf |
| SourceBindings.EmptyShiftsBindings | crates/database/src/live_runtime.rs:394-569 | Beside an Empty leaf the only binding carries the number of the other source |
| SourceBootstrap.BootsByInputs | crates/incremental/src/materialize.rs:2760-2960 | While a view is built, a node hands on its own rows exactly when its inputs do, or, under a skipped filter, when the source loads them |
| SourceBootstrap.SkippedFilter | crates/incremental/src/materialize.rs:2817-2828 | Leaving a filter out changes nothing if and only if no row fails its test |
| SourceBootstrap.BootsExactly | crates/incremental/src/materialize.rs:1723-1921 | For every compiled plan without an Empty leaf, with access paths that find the rows of their leaves: every node hands on its own rows if and only if no filter over the scan of a whole index rejects a row and no GIN index finds a row its leaf rejects |
| SourceBootstrap.StatesExactly | crates/incremental/src/materialize.rs:1723-1921 | The same for the inputs of joins and aggregates, whose rows become state; what lies above them is not run |
| SourceBootstrap.ViewStartsExactly | crates/database/src/live_runtime.rs:1155-1200 | The same with the flags of the binding list collected from the plan |
| SourceBootstrap.SkippedFilterLetsRowsIn | crates/database/src/live_runtime.rs:414-470 | The failing input: over a whole index scan of rows 1 and 2 the filter id = 1 lets both through |
| BinaryFormat.LayoutsArePacked | crates/binary/src/schema_layout.rs:49-145 | In every layout the constructors build, offsets are running sums of the fixed sizes and the stride is the null mask plus all of them |
| BinaryFormat.SchemaColumns | crates/binary/src/schema_layout.rs:49-77 | Column k of the layout of a table is its k-th column, with its name, type and whether it may be NULL |
| BinaryFormat.ProjectionColumns | crates/binary/src/schema_layout.rs:115-145 | Column k of the layout of a projection is the first column of the k-th name; the layout ends before the first name the table does not have |
| BinaryFormat.SchemasColumns | crates/binary/src/schema_layout.rs:80-112 | The layout of a join has the columns of its tables one table behind the other, and those behind the first table may be NULL |
| BinaryFormat.SetBitSets | crates/binary/src/encoder.rs:71-105 | Setting a bit sets that bit and no other |
| BinaryFormat.Le32Value | crates/binary/src/encoder.rs:184-203 | A 32-bit field holds its number modulo 2^32 |
| BinaryFormat.FixedBytesSize | crates/binary/src/lib.rs:61-75 | A value takes as many bytes in the record as its type says |
| BinaryFormat.SourceCodec | crates/binary/src/encoder.rs:107-181 | The source's own codec, IEEE 754 bytes lowest first and UTF-8, meets what the round trip asks of a codec |
| Encodings.PatternExists | crates/binary/src/encoder.rs:107-146 | Every double is the value of a 64-bit pattern |
| Encodings.PatternIsDouble | crates/binary/src/encoder.rs:107-146 | Every 64-bit pattern is a double |
| Encodings.BytesRead | crates/binary/src/encoder.rs:107-146 | The eight bytes of a pattern read back as its value |
| Encodings.CastIsDouble | crates/binary/src/encoder.rs:107-146 | A 64-bit integer cast to a double is one |
| Encodings.FromUtf8Utf8 | crates/binary/src/encoder.rs:163-181 | Decoding UTF-8 undoes encoding, for every text |
| BinaryFormat.BinaryEncoder.constructor | crates/binary/src/encoder.rs:26-38 | A new encoder holds no rows |
| BinaryFormat.BinaryEncoder.EncodeRows | crates/binary/src/encoder.rs:54-69 | After a batch the buffers hold the records of all rows so far, behind a blank header written once |
| BinaryFormat.BinaryEncoder.EncodeRow | crates/binary/src/encoder.rs:71-105 | Appends the record of one row, its variable bytes, and remembers whether it has a NULL |
| BinaryFormat.BinaryEncoder.EncodeCell | crates/binary/src/encoder.rs:71-105 | One step of the column loop: mask, cells and variable bytes are those of one more column |
| BinaryFormat.BinaryEncoder.WriteCell | crates/binary/src/encoder.rs:71-105 | A NULL sets its mask bit in place and leaves zeros; a value leaves the mask alone |
| BinaryFormat.BinaryEncoder.EncodeValue | crates/binary/src/encoder.rs:107-146 | Writes the fixed bytes of a value by its column type, and its variable bytes |
| BinaryFormat.BinaryEncoder.WriteVarlen | crates/binary/src/encoder.rs:163-181 | Writes where the variable bytes begin and how many there are, and appends them |
| BinaryFormat.BinaryEncoder.Finish | crates/binary/src/encoder.rs:184-203 | Patches the header and appends the variable section: the buffer is the document of all encoded rows |
| BinaryReader.HeaderReads | crates/binary/src/encoder.rs:184-203 | The header fields read back as row count, stride, start of the variable section and null flag |
| BinaryReader.DocumentSplit | crates/binary/src/encoder.rs:54-146 | The bytes of every cell lie at header + row * stride + mask + offset |
| BinaryReader.VarBytesFound | crates/binary/src/encoder.rs:163-203 | The (offset, length) pair of a cell finds its variable bytes |
| BinaryReader.MaskBits | crates/binary/src/encoder.rs:71-105 | Bit k of the mask says whether column k is NULL |
| BinaryReader.NullReads | js/packages/core/src/result-set.ts:186-194 | The reader's null test is true exactly of the NULL cells |
| BinaryReader.CellReads | js/packages/core/src/result-set.ts:199-300 | Reading a stored value at its row, column and offset gives the encoded value |
| BinaryReader.ReadsBack | js/packages/core/src/result-set.ts:186-300 | Round trip: for every layout and all well-typed rows, whatever their number, every cell reads back as the encoded value or NULL |
| BinaryReader.DecodesExactly | example/src/binary-decoder.ts:35-121 | The decoder without a null mask reads a cell right if and only if it is not NULL or its type is JSON |
| BinaryReader.DecoderReadsNullAsZero | example/src/binary-decoder.ts:44-60 | A document of one row with a NULL integer is decoded as zero |
| BinaryReader.IntegersSurviveExactly | crates/binary/src/encoder.rs:107-146 | A 64-bit integer or date survives the float encoding if and only if it is a float; all up to 2^53 are |
| BinaryReader.RecordHolds | example/src/binary-decoder.ts:48-114 | With distinct names the row object has exactly the columns as properties, each with its value |
| BinaryReader.DecodeRow | example/src/binary-decoder.ts:44-114 | The column loop builds the object of the decoded values of one row |
| BinaryReader.Decode | example/src/binary-decoder.ts:35-121 | The decoder fills a new array with one object per row |
| BinaryReader.DecodedRowsAreTheRows | example/src/binary-decoder.ts:35-121 | For rows without NULL the decoded values are the encoded ones |
| RootListPatch.ContiguousRemoveGroups | crates/database/src/convert.rs:748-771 | Groups cover exactly the removed positions, without overlap or contact, the last one first |
| RootListPatch.ContiguousInsertGroups | crates/database/src/convert.rs:773-792 | Groups cover exactly the inserted positions, without overlap or contact when these ascend |
| RootListPatch.RemoveGroups | crates/database/src/convert.rs:683-685 | Splicing the groups out back to front leaves exactly the other elements in order |
| RootListPatch.InsertGroups | crates/database/src/convert.rs:686-692 | Splicing the groups in front to back puts every inserted element at its position and the kept ones in between |
| RootListPatch.SetPositions | crates/database/src/convert.rs:693-697 | The updated positions hold the new elements, the others are untouched |
| RootListPatch.ReplaySplice | crates/database/src/convert.rs:673-699 | The replayed array has the length of the new list, and at every position what the patch says |
| RootListPatch.ReplaysExactly | crates/database/src/convert.rs:673-699 | Replaying a splice patch yields the new list if and only if the positions the patch does not mention are unchanged |
| RootListPatch.RootListCache.Respond | crates/database/src/convert.rs:637-717 | The answer becomes the cached list; it is the encoded new list if and only if the patch describes the change |
| RootListPatch.InOrder | crates/gql/src/batch_render.rs:752-762 | The walk over the rows that stay tells exactly whether they kept their order |
| RootListPatch.MissingFrom | crates/gql/src/batch_render.rs:734-750 | The positions of exactly the ids that do not occur on the other side, ascending |
| RootListPatch.RenderItems | crates/gql/src/batch_render.rs:763-812 | Items are cached where nothing changed and rendered elsewhere; updated are exactly the staying rows that render differently |
| RootListPatch.TryRenderSplice | crates/gql/src/batch_render.rs:715-823 | Gives up exactly when a staying row moved; otherwise the patch lists exactly the rows gone, new and re-rendered |
| RootListPatch.RanksAgree | crates/gql/src/batch_render.rs:752-762 | If the staying rows kept their order, as many stay before a new position as before the matching old one |
| RootListPatch.RenderedPatchDescribes | crates/gql/src/batch_render.rs:715-823 | The renderer's patch fits both lists and describes the change, so replaying it gives the new list |
| CachePrune.SortedByLength | crates/database/src/convert.rs:58-93 | The candidates are all keys, the longest first |
| CachePrune.SelectKeys | crates/database/src/convert.rs:58-93 | Selects from the front just enough candidates to meet both targets |
| CachePrune.SelectionPrunes | crates/database/src/convert.rs:58-93 | What the selection leaves meets the entry and the byte target, keeps no key longer than an evicted one, and did not have to be smaller |
| CachePrune.EncodeCache.PruneJsonb | crates/database/src/convert.rs:58-93 | Below the bounds nothing changes; above them the cache is pruned: within both targets and both bounds, no kept key longer than an evicted one, and the last evicted one could not have stayed; the byte counter stays the sum of the key lengths and kept values stay |
| CachePrune.EncodeCache.RemoveKeys | crates/database/src/convert.rs:58-93 | Exactly the selected keys go, with their bytes |
| CachePrune.EncodeCache.JsonbToJs | crates/database/src/convert.rs:245-265 | The answer is the parsed value; a text is cached exactly when it is no longer than the entry bound and either byte bound, the cache is pruned exactly when a bound is then exceeded and otherwise gains that text alone, and it stays within the bounds that trigger pruning |
| CachePrune.EncodeCache.PruneShared | crates/database/src/convert.rs:178-198 | Above the bound all dead entries go and exactly as many living ones as the target asks for, from the larger side, objects on a tie, and from the other one only once it is empty; below it nothing changes |
| CachePrune.EncodeCache.PruneFieldKeys | crates/database/src/convert.rs:200-220 | Above the bound exactly the target number of keys is left, with their values |
| CachePrune.TakeKeys | crates/database/src/convert.rs:207-215 | Takes the asked number of keys, or all |
| CachePrune.Evict | crates/database/src/convert.rs:226-243 | Evicts the asked number of entries, and at least one |

## Left out

- Conversions to and from JavaScript values, the WebAssembly surface, callbacks, microtask scheduling and re-entrancy: a flush is an explicit step, and what handlers receive is a log.
- The measuring twins of the methods; only the delta lane of the measuring build is modelled, because it dispatches differently.
- The row-local patch and the root-subset refresh of `ReQueryObservable` (crates/database/src/reactive_bridge.rs:272-304), and the notification by GraphQL subscriptions.
- SnapshotRefresh.ReQueryObservable.TryPartialRefresh: every result row carries its root row id; the lookup of that id by primary key, and giving up when it fails, are not modelled.
- SnapshotRefresh.ReQueryObservable.ApplyFullRequeryOutput: the result fingerprint is left out, because rows are compared in full after it; a failing query execution is not modelled.
- JoinRefresh.LiveQueryStaysVisible: chains of inner and left joins, every table once, in which every equality of a join compares its own table with an earlier one; chains with left joins only where every table leads to the root, since others are not refreshed rightly (`LeftJoins.RefreshesRightlyExactly`); equalities between two earlier tables, GraphQL relation filters that use a table in two roles, and changes reported without deltas (whose old join values are lost) are not covered.
- JoinRefresh.CollectedRootsCover: the join compares with SQL equality and filters are functions of the joined tuples; how the executor evaluates them is not modelled.
- ChangeNotification.NotifyGraphqlChanges: different table names have different ids, as the database assigns them.
- PlanCompiler.CompilePreserves: plans with aggregates, unions and GIN scans are compiled by the model but not given a meaning; behind a projection of several tables only columns of the first one can be named, and such a projection is no input of a join, because the compiled layout loses the others; join conditions are conjunctions of column equalities across the two sides (`IgnoredConjuncts` and `KeylessJoins` say what happens to others), the bounds of composite index scans have the types of their columns, tables are distinct, and columns are named with their table (a column without one, as the query builder writes it above self-joins, is a position of the flat row).
- IndexScans.ScannedIsSlice: an index is the order of the rows by key, equal keys in table order; a whole scan keeps the order of the table, since a dataflow has none.
- PlanCompiler.CompileToDataflow: the resolver is threaded through as a value instead of being updated in place.
- SourceBindings.BindingList.Collect: the access paths of the bindings are reduced to whether they cover their filter.
- SourceBootstrap.StatesExactly: takes it that every access path but a GIN index finds the rows of its leaf, in the order of the table; the instructions and slots of the bootstrap program are replaced by recursion over the dataflow, and later deltas are not modelled.
- TracedDataflow.TuplesAreRows: the initial rows are modelled; incremental updates of join and aggregate state, row ids and row versions of tuples are not.
- ExecutorExpressions.SameValue: the executor's own LIKE, regular expressions, JSON functions and float-to-integer casts are parameters, aggregates are left out, and so are the row predicates it compiles for joins and batches (crates/query/src/executor/runner.rs:4290-5100).
- Expressions.CompiledExactly: floating-point arithmetic, case mapping, JSON path extraction and pattern matching are parameters of the evaluator.
- JsonReader.ReadWrite: number texts are parameters with the property that reading undoes showing; `\u` escapes are kept as they are, as in the source; positions count characters and the nesting depth is unbounded.
- JsonTexts.ReadsEveryText: texts that are no documents of RFC 8259 but are read all the same, and the escapes `\b`, `\f` and `\u`, which the reader does not decode, are not covered.
- BinaryReader.ReadsBack: all NaNs are one value, and so are the two zeros; characters are Unicode scalar values; counts and offsets of the document are below 2^32, as the format needs; the compiled and the generic row getters of the result set are the same reads and not modelled twice.
- BinaryFormat.BinaryEncoder.Finish: requires one encoded batch, since without one the source indexes an empty buffer; buffers are sequences, without a capacity.
- Values.SafeTotalPreorder: signed zeros are one value; hashing is not modelled.
- RootListPatch.ReplaySplice: the positions of the patch lie within the two lists; what the array splice of JavaScript does beyond them is not modelled. The renderer's patches always do: `RenderedPatchDescribes`.
- RootListPatch.TryRenderSplice: rendering a row is a given value, and prefetching is left out.
- CachePrune.EncodeCache.PruneShared: which entries of a hash map come first is left open, and so is which shared values are still alive.
- LiveRegistry.LiveRegistry.FlushPending: the scheduled flush of the WebAssembly build drains the pending ids before the delta lane instead of after it; with handlers as logs both orders come to the same.
- Saturating additions of sizes and counters are plain additions; none comes near the limits of its width.
- The B+tree and GIN indexes, the optimizer, the row store, GraphQL planning and the cost policies.
