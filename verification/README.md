# go-mysql-server, modelled and verified in Dafny

go-mysql-server is a MySQL-compatible query engine in Go with an in-memory storage back end. This
project models the parts of it whose correctness is least obvious from reading one function, and
proves what they promise for every input, every run or every schedule. `dafny verify dfyconfig.toml`
checks all of it.

| module | what it models |
|---|---|
| `Locks`, `LockTheorems`, `LockSessions`, `LockLists`, `LockProgress` | user-level locks: lock-free compare-and-swap loops, sessions' lock sets, every interleaving, and what a call that runs alone achieves |
| `Expressions` | expression trees, SQL's NULL, evaluation, tree rewriting |
| `GroupBy`, `Grouping` | flattening of nested aggregations into a Project over a GroupBy, and how a GroupBy forms its groups and fills its buffers |
| `FieldIndexes`, `Filters`, `Analyzer` | re-indexing of columns, splitting of predicates by table, rule batches run to a fixed point |
| `IndexLookups` | lookups of mergeable indexes and the flattening of their intersections and unions |
| `TableScan`, `TableReads` | partition, index and table iterators, pushed filters and chains of projections |
| `TableEditor` | insert, delete and update with primary keys over partitions |
| `TableDdl`, `ColumnValues`, `ColumnPlaces` | adding, dropping and modifying columns, runs of such changes, and when and where they put a column |
| `Defaults` | column defaults and the two-pass completion of a row |
| `TimeType`, `TimeMeaning`, `SetType`, `SetMeaning` | the TIME and SET types: parsing, printing, bit fields, and what their texts and numbers stand for |
| `SimilarText` | the two-row edit distance and name suggestions |
| `RowLoop`, `RowOutcome` | the producer and consumer that send a query's rows in batches, and what the handler answers |
| `IndexRegistry` | the registry of driver indexes and the matching of expression lists |
| `Picking` | what it means to pick elements out of a list, in order and as often as they occur |

Code that computes is modelled by functions; loops over local variables by methods with invariants;
objects that change by classes; goroutines by state machines whose runs are all interleavings of
their steps. Calls into code outside the model are parameters that every result holds for: the
`Library` record of `Expressions` (function calls, comparison of values, aggregation buffers), the
conversion of a type, the case folding of names, the rendering of expressions, the row checksum of
GROUP BY, the callback and the row conversion of the handler. A Go panic is an outcome of its own
(`Panics`, `Panicked`, `None`). Iteration over a Go map is a nondeterministic choice of the next key.

## What turned out false

Each of these is stated in the code as a lemma or an `ensures`, with the exact condition under which
the promise does hold.

- OR of NULL and false is false, not NULL (`Expressions.OrDiffersFromKleene`).
- A projection that mixes an aggregation with a column outside it is flattened into a plan that fails
  or, for the first column, answers wrongly (`GroupBy.OutsideColumnsGoWrong`). It is right on every
  group where the outside columns read the same in both rows (`GroupBy.FlattenedPlanKeepsMeaningOn`).
- A batch can report that it ran out of iterations although its last pass changed nothing
  (`Analyzer.SettledButExhausted`, `Analyzer.ExhaustedExactly`).
- A session whose Lock and Unlock of one name overlap can own a lock that its lock set has forgotten, so
  that ReleaseAll leaves it locked (`LockLists.OverlappingCallsLoseALock`). `LockLists.MissingIffLost`
  says exactly when that is so in any run, `LockLists.NothingMissing` what callers must avoid.
- Update of a row that is not there reports success (`TableEditor.UpdateOfAbsentRow`; the condition is
  that the old row is stored).
- A table without columns accepts a column that has no place in it, and its schema is then a nil pointer
  (`TableDdl.AddToEmptyTable`, `TableDdl.PlacedIff`).
- DropColumn leaves the column references of the remaining defaults as they were
  (`ColumnValues.DroppedColumnMisleads`, `ColumnValues.DropKeepsDefaultsIff`). ModifyColumn loses those to
  a column it renames (`ColumnValues.ModifyKeepsDefaultsIff`).
- ApplyDefaults accepts a column index equal to the number of columns and panics on it
  (`Defaults.ApplyDefaultsPanicsIff`), and needs the rule about the order of defaults
  (`Defaults.LaterExpressionIsNotSeen`).
- The fraction of a TIME text loses its leading zeros, and eleven texts of eight or nine digits are
  read as a whole second (`TimeType.FractionIsRoundedIff`). Hence a time with a fraction below a tenth
  of a second does not survive printing and reading (`TimeType.RoundTripIff`), and converting a converted
  text can change it (`TimeType.FloatTextChanges`, `TimeType.ConvertTwiceIff`).
- The sign of a negative integer written as HHMMSS does not reach all fields (`TimeType.IntSignIff`).
- The SET field of the empty member alone is printed as the empty text and read as no members
  (`SetType.FieldRoundTripIff`).
- A handler that returns an error can leave the row-reading goroutine blocked for ever, exactly for queries
  with a row that cannot be converted or a full batch on which the callback fails (`RowLoop.AbandonedIff`).
- `exprListsMatch` says in its comment that a subset of the first list is the second; it looks for the
  first list in the second (`IndexRegistry.ExprListsMatch`). So IndexByExpression can return an index
  for some of the given expressions only (`IndexRegistry.IndexForSomeOnly`); its contract says when it is
  for all.
- Two overlapping calls of AddIndex can register two indexes with the same expressions, or one ID twice
  (`IndexRegistry.OverlappingAdds`).

## Model

| member | source | states |
|---|---|---|
| `Locks.Exec` | sql/lock_subsystem.go:37-154 | one atomic step of any thread inside any lock call; every step from a valid memory leads to a valid one. What the steps add up to is stated by the refinement, the sessions and `LockProgress` |
| `LockTheorems.SwapActsOnWhatWasRead` | sql/lock_subsystem.go:74-83 | a successful compare-and-swap acts on the record that was loaded and changes the lock table at that name only |
| `LockTheorems.StepRefinesTable` | sql/lock_subsystem.go:44-154 | every step of every thread is one operation of an atomic lock table, or leaves the table as it is |
| `LockTheorems.RunRefinesTable` | sql/lock_subsystem.go:44-154 | at every point of every interleaving, the events so far replayed on the atomic table give exactly the locks in memory |
| `LockTheorems.CountIsLocksMinusUnlocks` | sql/lock_subsystem.go:61-154 | in every run owner is 0 iff count is 0, the count is the owner's successful locks minus unlocks since it acquired the lock, and no two sessions have outstanding locks on a name |
| `LockTheorems.OwnedLockUntouchedByOthers` | sql/lock_subsystem.go:61-123 | no step of another session changes a lock that is owned |
| `LockTheorems.MemoryOnlyGrows` | sql/lock_subsystem.go:37-57 | a name keeps its cell for ever, records never change, and the pointer in a cell only moves forward |
| `LockTheorems.SamePointerMeansUnchanged` | sql/lock_subsystem.go:65-90 | no ABA: equal pointers at two moments mean the cell did not change in between |
| `LockSessions.RunKeepsSessions` | sql/session.go:188-219 | in every run with one call at a time per session, what each call in progress still owes the session's lock set stays as the invariant says |
| `LockSessions.OwnedLocksAreListed` | sql/lock_subsystem.go:74-83 | between its calls, a session's lock set holds every lock it owns |
| `LockSessions.ReleaseAllIsExact` | sql/lock_subsystem.go:127-154 | in every such run ReleaseAll leaves its session owning nothing and returns exactly the number of locks it owned when called |
| `LockLists.MissingIffLost` | sql/lock_subsystem.go:74-123 | in every run, while no call of the session is about to list a name, the session owns its lock and misses it in its set exactly when an Unlock took the name out while the session owned the lock, which it has kept and not listed since |
| `LockLists.NothingMissing` | sql/session.go:188-203 | as long as a session's Lock and Unlock of the same name never overlap, its set misses no lock |
| `LockLists.OverlappingCallsLoseALock` | sql/lock_subsystem.go:74-123 | a run from the start, in which they do overlap, that ends with no call running, a lock owned and the set empty |
| `LockProgress.TimeOutWasDisturbed` | sql/lock_subsystem.go:61-90 | in every run, a Lock that times out was disturbed: at some moment since that call started another session owned the lock or another thread moved its cell |
| `LockProgress.LockAlone` | sql/lock_subsystem.go:61-90 | from every valid state, a Lock of a new, free or own lock that runs alone takes it within four steps whatever the scheduler chooses, with the count one higher and no other lock changed, and one step later returns with the name listed if it was not its session's |
| `LockProgress.LockOfOther` | sql/lock_subsystem.go:61-90 | a Lock of a lock that another session owns looks once, changes nothing, and may then time out |
| `LockProgress.UnlockAlone` | sql/lock_subsystem.go:93-123 | an Unlock that runs alone answers within three steps that the lock does not exist, is not owned, or has one lock less, and then returns with the name off the list if it was the last |
| `LockProgress.ReleaseAllAlone` | sql/lock_subsystem.go:127-154 | a ReleaseAll that runs alone returns after at most four steps a name and one, has freed exactly the listed locks its session owned, and answers their number, in whatever order it visits them |
| `LockProgress.ReturnsAlone` | sql/lock_subsystem.go:61-185 | from every valid state, in whatever way it came about, a call that waits neither for another owner nor for its session's mutex returns if it runs alone |
| `SimilarText.DistanceForStrings` | internal/similartext/similartext.go:21-49 | the loop over two rows computes the recursive edit distance with insertion and deletion 1 and substitution 2 |
| `SimilarText.DistanceIsLongestCommon` | internal/similartext/similartext.go:21-49 | the distance is the sum of the lengths minus twice the length of a longest common subsequence |
| `SimilarText.NoLongerCommon` | internal/similartext/similartext.go:21-49 | no common subsequence is longer than the one used there |
| `SimilarText.Symmetric` | internal/similartext/similartext.go:21-49 | the distance is symmetric |
| `SimilarText.ZeroIffEqual` | internal/similartext/similartext.go:21-49 | it is zero exactly for equal texts |
| `SimilarText.TriangleInequality` | internal/similartext/similartext.go:21-49 | it satisfies the triangle inequality |
| `SimilarText.Find` | internal/similartext/similartext.go:57-84 | suggests exactly the names at the smallest distance below three, in their given order, and nothing when there is none |
| `SimilarText.AtDistancePicks` | internal/similartext/similartext.go:65-76 | the names at a distance are picked out in their order and as often as they occur |
| `SimilarText.JoinIs` | internal/similartext/similartext.go:82-83 | joining puts the separator between each name and the next |
| `Expressions.OrDiffersFromKleene` | sql/expression/logic.go:107-139 | OR differs from three-valued logic exactly on NULL and false, and never in whether it is true |
| `Expressions.AndOrValues` | sql/expression/logic.go:49-139 | the short-circuiting AND and OR give the value of the truths of both sides, whichever comes first |
| `Expressions.EvalReadsFields` | sql/expression/get_field.go:83-88 | the value of an expression without aggregations depends only on the columns it names |
| `Expressions.SubstitutionKeepsValue` | sql/expression/get_field.go:83-88 | an expression has, on a row, the value of the expression in which each column reference is replaced by the row's value at its index |
| `Expressions.TruthIff` | sql/type.go:310-370 | NULL is unknown; a value is true unless it is NULL, false, zero, or a text that stands for no other number |
| `Expressions.NotValues` | sql/expression/boolean.go:25-43 | NOT is false exactly on true values and NULL exactly on NULL, keeps errors, and twice NOT is the truth of the value |
| `Expressions.CompareIff` | sql/expression/comparison.go:37-72 | a comparison is true exactly when both sides evaluate to values other than NULL whose order it accepts, NULL exactly when one of two values is, and an error exactly when a side or their order is one |
| `Expressions.EvalAllIff` | sql/plan/group_by.go:320-337 | a list of expressions evaluates to the value of each in its place, or to the first error |
| `GroupBy.FlattenedGroupBy` | sql/analyzer/aggregations.go:35-72 | the loop over the projections builds the Project over GroupBy that `FlattenedPlanKeepsMeaning` is about |
| `GroupBy.FlattenedPlanKeepsMeaning` | sql/analyzer/aggregations.go:35-72 | for every group of rows the flattened plan yields the row that the original projections mean over that group, or fails as they do |
| `GroupBy.RuleKeepsMeaning` | sql/analyzer/aggregations.go:13-33 | so does the plan the rule leaves, rewritten or not |
| `GroupBy.RuleKeepsQuery` | sql/plan/group_by.go:271-311 | on every table, the plan the rule leaves answers what the projections mean, group by group; `Grouping.GroupsAre`, `Grouping.AggValueIff` and `Grouping.LastValueIff` say what the groups and the values over them are |
| `GroupBy.FlattenKeepsNames` | sql/analyzer/aggregations.go:35-72 | the flattened projections are as many, and each gives its column the name of the original, but for expressions around an aggregation without an alias |
| `Grouping.GroupsAre` | sql/plan/group_by.go:271-337 | groups exist exactly when every row's grouping expressions evaluate; then no two have the same key, they stand in the order in which their keys first occur, each holds exactly the rows of its key in table order, and every row is in one |
| `Grouping.AggValueIff` | sql/plan/group_by.go:339-421 | an aggregation over a group has a value exactly when some chain of buffers leads from a new one through an update with the value of every row, in order, to a buffer that evaluates to it |
| `Grouping.LastValueIff` | sql/plan/group_by.go:365-421 | any other selected expression must evaluate on every row of the group and has the value of the last, or NULL on no rows |
| `Grouping.PerGroupIff` | sql/plan/group_by.go:251-269 | a query yields one row for each group, in their order, and fails exactly when a group does |
| `Grouping.SelectedIsBuffered` | sql/plan/group_by.go:339-421 | filling, updating and evaluating a buffer row by row gives the value of the selected expression over the group |
| `Grouping.Compute` | sql/plan/group_by.go:271-311 | the one pass over the rows, with a cache of buffers by key, keeps the keys of the groups in order and the buffers of each; it fails only where the groups do or a buffer cannot be filled |
| `Grouping.GroupedRows` | sql/plan/group_by.go:251-311 | that pass and the evaluation of the cached buffers answer exactly what the query means group by group |
| `Grouping.UngroupedRows` | sql/plan/group_by.go:194-220 | without grouping, one set of buffers does |
| `GroupBy.FlattenedPlanKeepsMeaningOn` | sql/analyzer/aggregations.go:35-72 | on a group where each column outside aggregations has the same value, or is out of range, in the row of the flattened GroupBy and in the last row of the group, the flattened plan yields what the projections mean |
| `GroupBy.OutsideColumnIsLost` | sql/analyzer/aggregations.go:35-72 | with a column past the first outside the aggregation the plan fails wherever the original yields a row |
| `GroupBy.FirstColumnIsMistaken` | sql/analyzer/aggregations.go:35-72 | with the first column the plan compares the aggregation with itself |
| `GroupBy.OutsideColumnsGoWrong` | sql/analyzer/aggregations.go:35-72 | a library and a table where the one plan fails, and the other answers true where the original means false |
| `FieldIndexes.FixKeepsMeaning` | sql/analyzer/fix_field_indexes.go:25-47 | on rows that agree on each column by name and source, the rewritten expression evaluates on the new row as the original on the old one |
| `FieldIndexes.FixKeepsAggregates` | sql/analyzer/fix_field_indexes.go:25-47 | a re-indexed aggregation fills its buffer over the new rows as the original over the old ones |
| `FieldIndexes.FixSucceedsIffKnown` | sql/analyzer/fix_field_indexes.go:25-47 | the rewrite fails exactly when a reference names a column the schema does not have |
| `FieldIndexes.FixChangesIndexes` | sql/analyzer/fix_field_indexes.go:25-47 | the rewrite changes nothing in the tree but the indexes of column references, and its error names a column the schema does not have |
| `FieldIndexes.FixIsIdempotent` | sql/analyzer/fix_field_indexes.go:25-47 | rewriting twice is rewriting once |
| `FieldIndexes.FixFieldIndexesOnExpressions` | sql/analyzer/fix_field_indexes.go:10-20 | each expression rewritten in its place, or the first error |
| `Filters.ExprToTableFilters` | sql/analyzer/filters.go:54-79 | succeeds exactly when every conjunct reads one table, and then sorts the conjuncts by table, keeping their order; otherwise reports the first that does not |
| `Filters.TableFiltersArePermutation` | sql/analyzer/filters.go:54-79 | the lists together are a permutation of the conjuncts, and each conjunct reads only its own table |
| `Filters.ForTablePicks` | sql/analyzer/filters.go:54-79 | the list of a table holds the conjuncts that read it alone, in their order and as often as they occur |
| `Filters.SplitIff` | sql/analyzer/filters.go:138-147 | splitting finds exactly the conjuncts: what is reached through ANDs only and is none itself |
| `Filters.TrueIffConjunctsTrue` | sql/analyzer/filters.go:138-147 | a predicate is true on a row exactly when each of its conjuncts is, errors and short cuts included |
| `Filters.TruthIsAndOfConjuncts` | sql/analyzer/filters.go:138-147 | where all conjuncts evaluate, the predicate has the three-valued AND of their truths |
| `Filters.TableFiltersMeanOriginal` | sql/analyzer/filters.go:54-79 | the per-table lists together have the truth of the original predicate on every row |
| `Filters.SubtractExprSet` | sql/analyzer/filters.go:151-169 | what stays is exactly what is not subtracted, in order and as often |
| `Filters.SubtractPicks` | sql/analyzer/filters.go:151-169 | that remainder is picked out of the list, in its order and as often as it stands there |
| `Filters.FilterSet.MarkFiltersHandled` | sql/analyzer/filters.go:124-126 | the handled filters grow by exactly the given ones and the rest of the set is unchanged |
| `Filters.FilterSet.AvailableFilters` | sql/analyzer/filters.go:110-116 | all filters of all tables but the handled ones, in some order of the tables |
| `Filters.FilterSet.AvailableFiltersForTable` | sql/analyzer/filters.go:101-107 | the filters of one table but the handled ones |
| `Filters.AvailableAndHandledImplyOriginal` | sql/analyzer/filters.go:101-126 | available and handled filters together imply the original predicate, and it implies the available ones |
| `Analyzer.Engine.EvalOnce` | sql/analyzer/batch.go:71-93 | one pass of the rules in order, stopping at the first error, with the debug context restored |
| `Analyzer.PassIs` | sql/analyzer/batch.go:71-93 | a pass is a chain of nodes, one for each rule: every rule runs on the node the one before left, a nil result leaves the node, and only the first rule that fails ends it early |
| `Analyzer.Engine.Eval` | sql/analyzer/batch.go:33-66 | passes until one leaves the node equal, an error or the iteration limit, with the debug context restored |
| `Analyzer.Engine.Analyze` | sql/analyzer/analyzer.go:264-293 | the batches in order, each on the node of the one before, going on after exhaustion and stopping at other errors |
| `Analyzer.AnalyzeKeeps` | sql/analyzer/analyzer.go:264-293 | a preorder that every rule result keeps is kept from the input to the answer, also on error and exhaustion |
| `Analyzer.SettledWithoutError` | sql/analyzer/batch.go:33-66 | a batch with several iterations that returns without error made at most that many passes and its last pass left the node equal |
| `Analyzer.EndsOnFixedPoint` | sql/analyzer/batch.go:33-66 | where nodes are compared by equality it ends on a fixed point: another pass changes nothing |
| `Analyzer.OneAnswer` | sql/analyzer/batch.go:33-66 | the number of passes and the answer of a batch are determined by its rules |
| `Analyzer.ExhaustedExactly` | sql/analyzer/batch.go:33-66 | a batch reports exhaustion on its own account exactly when no pass up to the last allowed one fails and none before it settles |
| `Analyzer.SettledButExhausted` | sql/analyzer/batch.go:33-66 | a batch that reports exhaustion although its last pass changed nothing |
| `Analyzer.OnlyLastExhaustionIsReported` | sql/analyzer/analyzer.go:264-293 | an exhausted batch before the last leaves no error behind |
| `IndexLookups.RangeExpression` | memory/ascend_index.go:41-70 | the loop builds the expression of an ascending or descending lookup, whose meaning `RangeHoldsIff` states; it is never empty |
| `IndexLookups.EvalExpression` | memory/mergeable_index.go:245-260 | the expression of a merged lookup from those of its members |
| `IndexLookups.Intersection` | memory/mergeable_index.go:188-204 | one merged lookup whose members are the operands, with intersections among them replaced by their own members |
| `IndexLookups.Union` | memory/mergeable_index.go:214-231 | the same for unions |
| `IndexLookups.Build` | memory/mergeable_index.go:188-231 | any tree of intersection and union calls gives a lookup with exactly one member list that is not empty and no member merged in the same way |
| `IndexLookups.BuildKeepsMeaning` | memory/mergeable_index.go:245-307 | the flattened lookup yields on every row what the tree of calls means, errors included |
| `IndexLookups.IntersectionHoldsIff` | memory/mergeable_index.go:188-204 | an intersection holds on a row exactly when all its operands do |
| `IndexLookups.UnionHoldsIff` | memory/mergeable_index.go:214-231 | a union holds exactly when one of its operands does and none before it fails to evaluate |
| `IndexLookups.MergesFailIff` | memory/mergeable_index.go:188-307 | an intersection, or a union, fails exactly with the error of an operand before which none fails and none is false, or true |
| `IndexLookups.GetHoldsIff` | memory/mergeable_index.go:163-170 | a lookup of keys holds exactly on the rows whose every index column evaluates to a value, not NULL, whose order to its key is 0 |
| `IndexLookups.GetFailsIff` | memory/mergeable_index.go:163-170 | it fails exactly with the error of a comparison before which none fails and no column differs |
| `IndexLookups.NegateHoldsIff` | memory/negative_index.go:27-29 | its negation holds exactly on the rows where an index column that is not NULL has an order to its key other than 0 and no column up to it fails to compare |
| `IndexLookups.RangeHoldsIff` | memory/descend_index.go:29-59 | an ascending or descending lookup holds exactly on the rows whose every index column evaluates to a value, not NULL, whose order to each bound given is the one that bound asks for |
| `IndexLookups.LookupBoolean` | memory/negative_index.go:27-29 | the expression of any lookup yields true, false or NULL, so that index reads and filters agree on when it holds |
| `TableScan.IndexValIter.InitValues` | memory/unmergeable_index.go:79-109 | the positions of exactly the rows that satisfy the match expression, or the first error |
| `TableScan.IndexValIter.Next` | memory/unmergeable_index.go:64-77 | the next of those positions, computed when the first is asked for |
| `TableScan.TableIter.Next` | memory/table.go:241-259 | the next row of the partition that the lookup selects and the filters pass, projected, or the error that stops it; `TableReads.PassesIff` says what passing is |
| `TableScan.PartitionIter.Next` | memory/table.go:218-226 | the keys in order, each once |
| `TableScan.Partitions` | memory/table.go:133-141 | the keys of the partitions that hold rows, in order |
| `TableScan.TableRowIter.Next` | sql/table_iter.go:21-62 | the next row of what the remaining partitions yield one after the other |
| `TableScan.Drain` | sql/table_iter.go:21-62 | calling Next to the end gives exactly the rows and the error the iterator had left |
| `TableScan.Read` | memory/table.go:133-308 | the iterators together yield the stream of the table's partitions |
| `TableReads.ReadIsFilteredScan` | memory/table.go:177-308 | a read yields the projections of exactly those rows of a full scan of which the lookup and every one of the filters are true, each as often and in the order of the scan; it fails exactly when the lookup, or a filter before which all hold, fails on a row |
| `TableReads.PassesIff` | memory/table.go:247-256 | a row passes exactly when every filter evaluates to a true value, is dropped exactly when a filter evaluates to something else and all before it hold, and fails exactly with the error of a filter before which all hold |
| `TableReads.FailedRead` | memory/table.go:241-308 | a read that fails has yielded the chosen rows of all earlier partitions, and of its own nothing if the lookup fails on one of its rows, else the chosen rows before the first on which a filter fails; the error is theirs |
| `TableReads.FullScanIs` | sql/table_iter.go:21-62 | a full scan goes through the keys in order and through the rows of each partition in order |
| `TableReads.NewColumnIndexesAndSchema` | memory/table.go:854-878 | every name becomes the stored position and the schema column it stands for; fails exactly on an unknown name |
| `TableReads.WithProjection` | memory/table.go:836-852 | replaces columns and schema by those of the names and nothing else; no names leave the table as it is; an unknown name panics |
| `TableReads.ProjectTwice` | memory/table.go:854-878 | projecting a projection gives the columns and the schema of projecting the table itself |
| `TableReads.ProjectionsCompose` | memory/table.go:836-878 | any chain of projections that succeeds is the one projection on the last names asked for |
| `TableReads.ProjectedValues` | memory/table.go:283-294 | a row read through any chain of projections holds at each place the value of the column its name stands for |
| `TableReads.ReadThroughProjections` | memory/table.go:133-308 | a read with lookup and filters through any chain of projections yields exactly the chosen rows of a full scan, in scan order, each reduced to the columns the last names stand for, and fails exactly when the read without projections does |
| `TableEditor.CheckRow` | memory/table.go:668-681 | accepts exactly rows of the schema's length whose every value its column accepts, and reports the first that is not |
| `TableEditor.Table.Find` | memory/table.go:402-430 | in whatever order partitions are visited, finds a row that matches exactly when there is one |
| `TableEditor.Table.CheckUniquenessConstraints` | memory/table.go:478-492 | fails exactly when a stored row has the primary key of the given one: where column names are distinct, when it agrees with it in every column flagged as primary key |
| `TableEditor.Table.Insert` | memory/table.go:376-393 | succeeds exactly when the row is accepted and, where column names are distinct, no stored row agrees with it in every flagged column; adds exactly the row, at the cursor's partition, and moves the cursor within range; an error changes nothing; primary keys stay unique |
| `TableEditor.Table.Delete` | memory/table.go:396-439 | removes exactly one row that has the key, or equals the row; an error changes nothing; primary keys stay unique |
| `TableEditor.Table.Update` | memory/table.go:441-476 | replaces exactly the old row by the new one if it is stored and changes nothing otherwise; refuses exactly rows not accepted and a changed primary key that a stored row has; primary keys stay unique |
| `TableEditor.KeyHasOnePlace` | memory/table.go:396-476 | a primary key has one place in the table, so the outcome of an edit does not depend on map iteration order |
| `TableEditor.PkIsFlagged` | memory/table.go:494-503 | where column names are distinct, the key columns are exactly those flagged as primary key, in ascending order |
| `TableEditor.NewKeyIff` | memory/table.go:478-492 | a key is new exactly when no stored row agrees with the row in every flagged column |
| `TableEditor.Table.KeysAreUnique` | memory/table.go:376-476 | two stored rows that agree in every flagged column are one row, counted once |
| `TableEditor.Table.MatchesIff` | memory/table.go:402-430 | the row Delete looks for is one that agrees in every flagged column, if there is one, or the row itself |
| `TableEditor.UpdateOfAbsentRow` | memory/table.go:441-476 | an update that succeeds and changes nothing |
| `TableDdl.Table.AddColumnToSchema` | memory/table.go:526-562 | the column stands where the order says and the defaults of all the others are re-indexed; without a place for it the code panics, or stores a nil column where there were none |
| `TableDdl.Table.RewriteRows` | memory/table.go:564-582 | every row is replaced by its new form, or each partition is as it was or rewritten when a row fails |
| `TableDdl.Table.AddColumn` | memory/table.go:520-524 | succeeds exactly when nothing panics and the default evaluates on every row, and then schema and rows make the step together; panics exactly when there is no place for the column; else reports the error of a row |
| `TableDdl.Table.DropColumn` | memory/table.go:584-614 | succeeds exactly when the column exists; then it is gone from the schema and every row |
| `TableDdl.Table.ModifyColumn` | memory/table.go:616-666 | succeeds exactly when nothing panics and the value converts in every row; values and column get the same position |
| `TableDdl.PlacedIff` | memory/table.go:526-562 | a step that succeeds leaves the new column in the schema exactly when the table had another column or the order did not ask to follow one; otherwise the schema is one nil column |
| `TableDdl.AddToEmptyTable` | memory/table.go:520-562 | dropping the only column and adding another succeeds and leaves a nil column |
| `ColumnPlaces.AddedWhere` | memory/table.go:526-562 | a column that is added is the last without an order, the first if it is asked to be, or right behind the column it is to follow, and the others stand as before |
| `ColumnPlaces.ModifiedWhere` | memory/table.go:616-666 | a column that is modified stands where it was without an order, and else where the order asks; the others stand as before |
| `ColumnPlaces.SchemaStepIff` | memory/table.go:526-666 | adding panics exactly on a column to follow that is not there while there are others, dropping and modifying exactly on a column that is not there or to follow that is not |
| `ColumnPlaces.RowStepIff` | memory/table.go:564-666 | on a row of the table adding fails exactly when the default offers no value, modifying exactly when the old value does not convert, and dropping never |
| `ColumnValues.StepValues` | memory/table.go:520-666 | by column name, adding puts the default evaluated on the row, dropping removes the value, modifying puts the converted old value, and nothing else changes |
| `ColumnValues.UntouchedKeepsValue` | memory/table.go:520-666 | over any run of changes rows keep the schema's length, names stay unique, and columns no change touches keep their values |
| `ColumnValues.LastChangeShows` | memory/table.go:520-666 | at the end of a run a column holds what the last change that touched it gave it |
| `ColumnValues.AddKeepsDefaults` | memory/table.go:546-558 | after adding a column every other default refers to the columns it names and evaluates as before |
| `ColumnValues.ModifyKeepsDefaultsIff` | memory/table.go:616-666 | after modifying a column another default refers to the columns it names exactly when it does not refer to that column or the column keeps its name |
| `ColumnValues.DropKeepsDefaultsIff` | memory/table.go:584-614 | after dropping a column the remaining defaults refer to the columns they name exactly when none refers to that column or a later one |
| `ColumnValues.DroppedColumnMisleads` | memory/table.go:584-614 | a default that reads another column's value after a drop |
| `Defaults.ApplyDefaults` | engine.go:219-256 | the two loops answer the outcome that `CompletedIs` and `ApplyDefaultsSolves` describe, with every error |
| `Defaults.CompletedIs` | engine.go:219-256 | the outcome in full: nothing to do without columns, an error for a row of the wrong length, the literal defaults before the first index out of bounds, then its error or panic, or else the other defaults |
| `Defaults.AssignIs` | engine.go:236-254 | assigning goes through a chain of rows, in each of which one column gets its default from the row before; it fails where a default refuses, with its error |
| `Defaults.PartPicks` | engine.go:228-244 | the literal defaults, and the others, are taken in the order of the given columns and as often as they are given |
| `Defaults.DefaultValueIff` | sql/columndefault.go:42-60 | a column gets a value exactly when its default's expression evaluates, converts, is not NULL where that may not be, and converts again to the column's type; otherwise the error is that of the first of these that fails |
| `Defaults.ApplyDefaultsPanicsIff` | engine.go:228-232 | panics exactly when an index equals the number of columns, those before it are in bounds and their literal defaults evaluate |
| `Defaults.ApplyDefaultsSolves` | engine.go:219-256 | under the rule of the order of defaults the result is the one row that agrees elsewhere and holds in each column its converted default evaluated on that same row; it fails exactly when there is no such row |
| `Defaults.DefaultReadsFields` | sql/columndefault.go:42-60 | a default depends only on the columns it names |
| `Defaults.LaterExpressionIsNotSeen` | sql/errors.go:85-86 | without that rule a default reads a placeholder and the result is not the solution |
| `TimeType.ScaleFraction` | sql/timetype.go:258-287 | the two scaling loops give the microseconds whose relation to correct rounding `FractionIsRoundedIff` states |
| `TimeType.FractionIsRoundedIff` | sql/timetype.go:258-287 | the fraction is rounded half up exactly when it is zero or starts with a digit other than zero, but for eleven numbers |
| `TimeMeaning.MissedIsASecond` | sql/timetype.go:258-287 | those eleven numbers are read as a whole second |
| `TimeType.MatchIff` | sql/timetype.go:21-21 | the matcher accepts exactly the texts of the pattern, each with its only groups |
| `TimeType.StringToTimespan` | sql/timetype.go:246-308 | the imperative parser returns, for every text, the time that `Parse` defines and that `ParseMeans` and `FractionIsRoundedIff` describe, or none |
| `TimeType.ParseMeans` | sql/timetype.go:246-308 | a text of the pattern is read unless minutes or seconds exceed 59; the fields are in range and their sum is the sum of the groups cut off at 838:59:59 |
| `TimeType.ParseRejects` | sql/timetype.go:246-308 | no other text is read |
| `TimeType.RoundTripIff` | sql/timetype.go:328-337 | printing and reading a valid time gives it back exactly when its fraction has no leading zero |
| `TimeMeaning.PrintIff` | sql/timetype.go:328-337 | a time is printed as exactly the text that shows its sign, its hours with two digits or three from a hundred on, minutes and seconds with two, and its fraction with six unless it is zero |
| `TimeType.ConvertTwiceIff` | sql/timetype.go:75-85 | converting a converted text changes nothing exactly when the fraction of its time has no leading zero, as for all texts of the pattern or without a point |
| `TimeType.FloatTextChanges` | sql/timetype.go:163-180 | a text with a point that a second conversion changes |
| `TimeType.SplitThenCount` | sql/timetype.go:310-348 | splitting any number of microseconds and counting them again clamps it |
| `TimeMeaning.ClampIsNearest` | sql/timetype.go:310-316 | a number of microseconds out of range becomes the nearest in range |
| `TimeType.CountThenSplit` | sql/timetype.go:310-348 | counting and splitting a valid time gives it back, but for minus zero |
| `TimeType.MarshalKeepsIff` | sql/timetype.go:227-238 | marshalling, unmarshalling and reading a time compares equal exactly when its fraction has no leading zero |
| `TimeType.IntSignIff` | sql/timetype.go:115-135 | the time of an integer HHMMSS has its sign in all fields exactly when the integer is not negative, has seconds alone or hours alone, or is cut off at the minimum either way |
| `TimeMeaning.IntAcceptedIff` | sql/timetype.go:115-135 | the integers accepted are exactly those with up to three digits of hours and less than sixty minutes and seconds |
| `TimeMeaning.IntValue` | sql/timetype.go:115-135 | such an integer becomes the time it spells; of a negative one only the seconds are negative where there are no hours, and only the hours where there are |
| `TimeMeaning.FloatValue` | sql/timetype.go:140-161 | a floating-point number is accepted when its whole part is, and adds its fraction in microseconds rounded to the nearest |
| `TimeMeaning.ReadTextIff` | sql/timetype.go:163-180 | a text is read as a time if it is one of the pattern, else as a number with a fraction if it has a point, else as an integer, and else not at all |
| `SetType.CreateSetType` | sql/settype.go:49-92 | accepts exactly one to sixty-four values without commas, no two comparing equal, and maps them to bits in order; otherwise reports why, for the first value refused |
| `SetMeaning.DefinableIff` | sql/settype.go:49-92 | those are the definitions in which no two values are equal, or, unless the type is binary, equal but for case and spaces at the end |
| `SetType.ConvertBitFieldToString` | sql/settype.go:303-326 | the loop prints the members whose bits are set, in order, and rejects larger fields |
| `SetMeaning.OrBitAdds` | sql/settype.go:82-84 | the bit of member i counts 2 to the i: setting it adds that much unless it is set |
| `SetMeaning.BitLenIs` | sql/settype.go:305-305 | the number of bits gone through is the least n with the field below 2 to the n |
| `SetMeaning.PrintedIs` | sql/settype.go:303-326 | the text is the names of exactly the members whose bits are set, in the order of their definition, with commas between them |
| `SetType.ConvertStringToBitField` | sql/settype.go:329-350 | the loop reads a list of names, or reports the first unknown one |
| `SetMeaning.SplitIs` | sql/settype.go:334-334 | a text is split at exactly its commas |
| `SetMeaning.RefusedNameIsFirst` | sql/settype.go:335-348 | a list with an unknown name is refused with the first one |
| `SetMeaning.LookupIff` | sql/settype.go:335-348 | a text stands for a member exactly when it is the same name: equal, or, unless the type is binary, equal but for case and spaces at the end |
| `SetType.FieldBits` | sql/settype.go:329-350 | reading sets exactly the bits of the members that are named |
| `SetType.SameNamesSameField` | sql/settype.go:329-350 | two lists are read as the same field exactly when they name the same members, whatever order, repetition and spelling |
| `SetType.FieldRoundTripIff` | sql/settype.go:292-350 | fields up to the field of all members print, and read back as themselves except the field of the empty member alone |
| `SetType.ConvertIsIdempotent` | sql/settype.go:128-174 | a converted value converts to itself |
| `SetMeaning.NumberAcceptedIff` | sql/settype.go:253-256 | a number is accepted, as itself, exactly when it is below 2 to the number of members |
| `SetMeaning.TextAcceptedIff` | sql/settype.go:329-350 | a text is accepted exactly when it is empty or lists names of members |
| `SetType.CompareZeroIff` | sql/settype.go:104-124 | two values compare equal exactly when they stand for the same members |
| `SetMeaning.CompareSign` | sql/settype.go:104-124 | a value is below another exactly when the highest member in which they differ is one of the other |
| `SetType.Values` | sql/settype.go:281-289 | the members in the order of their definition |
| `RowLoop.EverySchedule` | server/handler.go:207-305 | in every schedule a return without error has sent exactly the converted rows, in order, in batches of a hundred but for the last, in max(1, ceil(n/100)) callbacks; a return with an error has sent a prefix of them, in batches of a hundred but for the last |
| `RowOutcome.EveryErrorHasACause` | server/handler.go:227-304 | in every schedule an error is the iterator's, the conversion error of the first row that has one, or the callback's answer to the last batch; the callback accepted every batch before, and all full batches of the rows up to there were sent |
| `RowOutcome.NothingFailsNoError` | server/handler.go:227-304 | so a query in which nothing fails returns without an error in every schedule that returns |
| `RowOutcome.OutcomeIsSequential` | server/handler.go:207-304 | every schedule that returns answers, and has sent, what one loop over the rows without goroutines does |
| `RowOutcome.OneOutcome` | server/handler.go:207-304 | two schedules that return agree on the error and on every batch sent |
| `RowOutcome.ReturnStopsProducer` | server/handler.go:208-213 | once the handler has returned, a producer that comes to its check stops and reads no further row |
| `RowLoop.NeverStuck` | server/handler.go:207-280 | until the handler returns one of the two sides can go on |
| `RowLoop.EachStepCounts` | server/handler.go:207-280 | every step but a timer tick brings the return closer |
| `RowLoop.AbandonedIff` | server/handler.go:207-305 | some schedule leaves the producer blocked behind a handler that has returned exactly when a row cannot be converted or the callback fails on a full batch |
| `RowLoop.AbandonedForever` | server/handler.go:207-221 | such a producer never takes another step |
| `IndexRegistry.ExprListsMatch` | sql/index_registry.go:387-411 | the greedy search succeeds exactly when the first multiset is contained in the second |
| `IndexRegistry.ExprListsEqual` | sql/index_registry.go:414-420 | exactly when the multisets are equal |
| `IndexRegistry.FilingKeepsIff` | sql/index_registry.go:363-384 | filing an index keeps IDs and expression multisets unique per database exactly when validation passes at that moment |
| `IndexRegistry.ConsistentMeans` | sql/index_registry.go:363-384 | two indexes of one database with the same ID, or with the same expressions each as often, are one index |
| `IndexRegistry.Registry.ValidateIndexToAdd` | sql/index_registry.go:363-384 | passes exactly when no index of the database has the ID or the expressions, in whatever order they are visited |
| `IndexRegistry.Registry.AddIndex` | sql/index_registry.go:428-453 | registers the index as not ready exactly when it clashes with none; an error changes nothing; no two indexes of a database share ID or expressions |
| `IndexRegistry.Registry.IndexByExpression` | sql/index_registry.go:275-315 | the first registered ready index of the database whose expressions are all among the given ones, retained once; it is on all of them exactly when a ready index on just those expressions comes before every index on some of them |
| `IndexRegistry.IndexForSomeOnly` | sql/index_registry.go:386-411 | a registry that answers two expressions with an index on one of them |
| `IndexRegistry.OverlappingAdds` | sql/index_registry.go:428-440 | two calls that both validate before either files leave unique registrations, each listed once, exactly when the two do not clash |

## Left out

- Index loaders, deferred deletion of indexes, reader counts and lookups by lower-cased ID in the index registry: the registry has no clean invariant across them.
- Filters handled by indexes, table aliases and the merging of filters of several nodes in `Filters`: they would only add set subtractions of the same kind.
- Timeouts, poll errors and OkResult rows of the handler, transaction commits and closing the row iterator: `RowLoop` has the timer tick without a read timeout only.
- The clock of `Lock`: a timeout is a failing return that may happen at any retry.
- That a Lock under contention is ever taken: the scheduler is not assumed to be fair, and the code promises no order among waiting sessions.
- Eviction and failure of the cache that holds the buffers of a GroupBy, and the disposal of it: the cache of `Grouping` keeps what is put in.
- Writing to a table while it is read: the reads of `TableScan` see partitions that do not change; the copy made by PartitionRows is therefore not visible in the model.
- Cancelled contexts, gob encoding of index positions and the closing of iterators.
- TableEditor.Table.Delete: does not say which of several equal rows goes from a table without a primary key, because the code leaves that to map iteration order; the multiset of rows is fixed.
- TableDdl.Table.AddColumn: promises nothing about the table after a row whose default fails, because the code leaves the new schema with some partitions unchanged; `TableDdl.Table.RewriteRows` says what the rows can be.
- TableDdl.Table.ModifyColumn: promises nothing about the table after a row that fails to convert, because the code leaves the old schema with some partitions rewritten.
- Aliasing of row slices between partitions, iterators and callers: rows are values.
- Numeric and time types other than TIME, ENUM, JSON, collations other than binary and case folding, conversion of Go integer types to SET fields.
- Parsing of SQL, joins, triggers, views, the process list, authentication, networking and logging.
- `Expressions` has the expression forms the modelled rules touch; other functions are calls of the library.
