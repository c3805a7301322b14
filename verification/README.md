# Verification of schist's storage engine and algorithm library

schist is a columnar storage engine with a library of self-contained algorithms. This
project models its core in Dafny and proves what that core promises, for all inputs and for
every run. Nothing here executes schist; the models follow its source branch by branch, and
the comments in each file name the source lines.

How the project is laid out:

* **Graphs.** `Graphs`, `Kahn`, `Tarjan` and `DiGraphs` (topological order, reachability and
  iterative strongly connected components), `BitMatrices` on `Words` (in-place word-packed
  transitive closure), `DisjointSets` (union-find).
* **Indexes.** `SearchTrees`, `NodeFills`, `LeafChains` and `BTrees` (the paged B+tree against
  an abstract map), `SkipLists`, `RadixTries`, `HashIndexes`, `Intervals`, `RangeSets`.
* **Storage.** `Runs`, `Pages`, `Storage`, `Comparisons` and `CellUpdates` (the database as a
  state machine: insert, update, delete, split, merge, repack, compact), `Formats` (its bytes).
* **Transactions.** `VersionChains`, `TxnStates`, `TxnEnds`, `TxnSteps` and `Transactions`
  (multi-version concurrency control with four isolation levels, locks, savepoints and
  garbage collection, against the whole history of commits).
* **Expressions and plans.** `Values` on `Doubles`, `Expressions` and `OperatorLaws`, `ExprVm`
  (compiler and stack machine), `Logical` (constant folding, conjuncts), `Optimizer` (plan
  rewriting), all under three-valued logic.
* **Codecs, text and patterns.** `Bytes`, `BitPacking`, `IntCodecs`, `Compression`,
  `CsvRecords` and `CsvGrammar`, `JsonText`, `JsonGrammar` and `JsonParsers`, `Patterns`
  and `PatternTexts`.
* **Sorting, joining, measuring.** `Sorting`, `LoserTrees`, `RadixSorts`, `JoinBags`, `Joins`,
  `KeyOrders`, `MergeSteps`, `MixedKeys`, `MergeJoins` and `JoinsAgree` (three joins of six
  kinds, against one definition and each other), `EditDistance` and `EditSteps`, `Calendars`.
* **Caches and versions.** `BufferPools`, `LruCaches`, `KeyedHeaps`, `Snapshots`.

`Options` and `Integers` hold what several modules share. What the source updates in place is
a class with the source's fields; its methods are proved against functions of the old state,
and lemmas prove what the source promises about those functions. Loops and local algorithms
are methods with invariants, pure code is functions.

`dafny verify dfyconfig.toml` checks everything.

Where a promise of the source's comments or names does not hold of its code, the code is
modelled as it is and the exact condition is proved:

* `IntCodecs.DeltaRoundTrip`, `IntCodecs.DodRoundTrip`: an empty list comes back as a single
  zero; every other list comes back.
* `IntCodecs.ForRoundTrip`, `IntCodecs.BitPackedRoundTrip`: frame of reference comes back exactly
  when the spread of the list is at most `i64::MAX`; bit packing exactly when no number is negative.
* `Runs.Coalesce`: counts stop at 2^32 - 1, so merging runs keeps the values exactly when no
  neighbouring runs of one value stand for more (`CoalesceLoses`).
* `EditSteps.DistanceIffSingle`: the Damerau-Levenshtein distance is the least number of edits
  exactly when some least sequence edits no stretch twice, and larger otherwise
  (`TwiceEditedCounterexample`).
* `JoinsAgree.AllAgree`: hash join and sort-merge join match nulls with nulls and the nested loops
  do not; they agree exactly on the condition given there for each kind of join
  (`NullsCounterexample`).
* `MixedKeys.MergeIff`: sort-merge join pairs an integer with a real that compares equal, and hash
  join does not; where pairs are returned the two agree exactly when such keys are aligned
  (`JoinsAgree.MixedCounterexample`).
* `JoinsAgree.LeftOnlyPromise`, `JoinsAgree.RightRowsKept`: Semi and Anti by hash or merge keep the
  rows they are to keep exactly when no left row has two matches, for Semi, and when there are no
  left rows, for Anti (`LeftOnlyCounterexample`); right outer joins by nested loops exactly when
  every right row has a match.
* `Values.TotalCmpOrders`, `Values.OrderedIffNoneBlurred`: comparing an integer with a real
  rounds it to 53 bits, so the order is total on a set of values exactly when no real in it is
  what two different integers in it round to (`BlurredCounterexample`).
* `LoserTrees.WholeIffNoSentinel`: a merge delivers everything if and only if no run holds
  `i64::MAX`; what it delivers otherwise is what stands before that (`SentinelCounterexample`).
* `RangeSets.ComplementRightIff`: the complement is wrong exactly when both the universe and
  the set hold `i64::MAX` (`ComplementOfLast`).
* `HashIndexes.HashIndex.LengthRight`, `HashIndexes.LengthRightIff`: removing a pair drops every
  copy of it but takes one off the length, so the length is right exactly as long as no removal
  met more than one copy (`RemoveMiscounts`).
* `Storage.RepackKeepsMapIff`, `Storage.Database.Compact`: repacking renumbers slots without
  writing the row-id map, so over a whole pass the map stays right exactly when no page was
  repacked while a live slot followed a tombstone (`RepackCounterexample`, `RepackLosesMap`).
* `Storage.Database.Insert`: a given id that is already taken leaves the older row live but
  unnamed, so the map stays one to one exactly when the id was new (`TakenIdLosesRow`).
* `Logical.DroppedTrueIsExact`: rewriting `true AND e` to `e` keeps the value exactly when
  `e` is boolean or null (`DroppedTrueCounterexample`, `Optimizer.IntegerPredicateCounterexample`).
* `OperatorLaws.BetweenIs`: SQL defines `x BETWEEN lo AND hi` as `x >= lo AND x <= hi`; the code
  gives null instead of false exactly when one bound is null and the other rules the value out
  (`BetweenCounterexample`).
* `Optimizer.SinksIffPassedThrough`, `Optimizer.OneRowSinks`: a filter is pushed below a
  projection by its columns' names; that keeps the rows exactly when the projection hands the
  column on under its own name (`AliasCounterexample`).
* `Optimizer.CollapseFilters`: collapsing two filters evaluates the upper predicate on rows the
  lower one rejects, and keeps the result exactly when it has a value there
  (`OverflowCounterexample`).
* `Calendars.CivilInverseIff`, `Calendars.NextDayIff`, `Calendars.AddMonthsIff`,
  `Calendars.PartsIff`, `Calendars.MicrosIff`: counts of days have 32 bits and timestamps 64;
  the conversions are inverse exactly for dates from -5877641-06-23 to 5881580-07-11 and for
  seconds that start within the timestamps (`FarDateCounterexample`, `LastMonthCounterexample`,
  `FarTimeCounterexample`).
* `Formats.RunsComeBackIff`: runs come back from their bytes exactly when all their values are
  of the column's kind; a null is written as eight bytes whatever the kind
  (`NullRunCounterexample`).
* `CsvRecords.WrittenIsRead`: rows are read back exactly when none is blank, that is of no cells
  or of a single empty one (`BlankRowCounterexample`); and `CsvRecords.RoundTripsIffSane`: so it
  is for exactly those ASCII delimiters and quotes that differ and are not a line feed
  (`EmptyTwice`).
* `JsonText.PrintedIsRead`: a document is read back exactly when it is nested at most 128
  deep; the printers have no such bound (`DeepCounterexample`).
* `KeyedHeaps.PriorityQueue.Push`: the comment in src/pqueue.rs speaks of taking the lower
  priority; the code takes the given one, which is the lower exactly when the key is new or had
  no lower one (`PushRaises`).
* `TxnStates.WhatIsSeenDirty`, `TxnStates.DirtyReadIff`: a dirty read is to see the newest version; it does exactly when that
  is uncommitted or was current when the reader began (`Transactions.DirtyReadVanishes`).
* `TxnStates.OneWriter`, `Transactions.TxnManager.RollbackToSavepoint`,
  `Transactions.TxnManager.Update`: write locks are to keep a row to one writer; a transaction
  gives up the lock of a row it still has writes on exactly when it undoes some of them but not
  all, or updates or deletes a row that it does not see any more (`BothWrite`,
  `BothWriteAfterDelete`).
* `Transactions.TxnManager.Rollback`: rolling back a committed transaction leaves its commits
  and marks it aborted (`AbortedYetCommitted`).
* `TxnEnds.StampedIff`, `Transactions.TxnManager.Commit`: committing is to stamp every version of
  the transaction, and an uncommitted version is to be visible to its writer only; a commit leaves
  versions uncommitted exactly when it wrote a row twice, and dirty reads show them for ever
  (`Transactions.LeftoverSeen`).
* `TxnEnds.OverwroteIff`, `Transactions.TxnManager.Commit`: repeatable read is to detect write
  conflicts; it overwrites a commit that it does not see exactly when a row of its write set was
  committed since it began (`Transactions.LostWrite`). A serializable transaction never does
  (`TxnStates.SerializableOverwritesNone`).
* `TxnStates.CouldRunAtCommit`, `TxnEnds.UndisturbedIff`, `Transactions.TxnManager.Commit`: a
  serializable commit is to fail if a row the transaction read was committed since it began; rolling
  back to a savepoint forgets the reads since, so a commit that goes through keeps the promise
  exactly when no forgotten row was committed since (`Transactions.ForgottenRead`).
* `VersionChains.ReadsOwn`: a transaction's own writes are always to be visible to it; at read
  committed one is exactly when the version of the last commit does not stand above it
  (`Transactions.OwnWriteCovered`).
* `Transactions.PreparedRefused`: a prepared transaction has promised to commit; a serializable one
  is refused under the same condition as any other.
* `TxnSteps.SavepointsKept`: rolling back to a savepoint is to discard later ones; it keeps exactly
  those with no write in between (`Transactions.LaterSavepointStays`).

## Model

| member | source | states |
|---|---|---|
| DiGraphs.DiGraph.constructor | src/graph.rs:18-22 | a graph on `n` vertices without edges |
| DiGraphs.DiGraph.AddEdge | src/graph.rs:35-45 | the graph grows to hold both ends; exactly one list gains exactly one entry, at its end |
| DiGraphs.DiGraph.InDegrees | src/graph.rs:53-61 | every vertex's count is the number of edges into it, parallel edges included |
| DiGraphs.DiGraph.TopoSort | src/graph.rs:64-87 | an order holds every vertex once with every edge forward; `None` if and only if the graph has a cycle |
| DiGraphs.DiGraph.Reachable | src/graph.rs:95-114 | true if and only if a path leads from one vertex to the other, for vertices outside the graph too |
| DiGraphs.DiGraph.StronglyConnectedComponents | src/graph.rs:118-172 | the components are non-empty, sorted and partition the vertices; two vertices share one if and only if each reaches the other; an edge between two components leads to the one emitted earlier |
| DiGraphs.Search.EnterTop | src/graph.rs:134-140 | entering the vertex on top of the work stack keeps the whole search invariant and takes it out of the unseen ones |
| DiGraphs.Search.LookAtEdge | src/graph.rs:141-148 | looking at the next edge keeps the invariant, whether it descends, lowers the low link or is skipped, and leaves less to look at |
| DiGraphs.Search.FinishTop | src/graph.rs:149-168 | finishing the top vertex keeps the invariant, whether it closes a component or passes its low link to its parent |
| DiGraphs.Search.PopComponent | src/graph.rs:152-162 | popping down to a vertex whose low link is its own index emits exactly its strongly connected component |
| DiGraphs.Search.PopUntil | src/graph.rs:152-160 | the stack loses everything from the vertex on, and exactly those vertices are off the stack |
| DiGraphs.Search.Step | src/graph.rs:133-168 | one round of the loop keeps the invariant and makes progress |
| DiGraphs.Search.Explore | src/graph.rs:132-169 | a traversal from an unseen vertex ends with an empty path and that vertex seen |
| DiGraphs.Search.Run | src/graph.rs:128-171 | the outer loop ends with every vertex in its component |
| DiGraphs.TogetherIffMutual | src/graph.rs:118-172 | when the search is over, sharing a component is mutual reachability, both ways |
| DiGraphs.ReachesEarlier | src/graph.rs:149-162 | from a vertex whose component is out, only components emitted no later can be reached |
| DiGraphs.FinalPartition | src/graph.rs:118-172 | the emitted components cover every vertex exactly once |
| DiGraphs.FinalOrder | src/graph.rs:118-172 | the emission order is reverse topological |
| DiGraphs.Conclude | src/graph.rs:170-171 | the invariant at the end gives all the promises of the result |
| Tarjan.EnterKeepsInv | src/graph.rs:134-140 | first visit of a vertex keeps Tarjan's invariant |
| Tarjan.LookKeepsInv | src/graph.rs:144-147 | an edge to a vertex seen before keeps it, with the low link lowered only over vertices still on the stack |
| Tarjan.DescendKeepsInv | src/graph.rs:141-148 | an edge to a new vertex keeps it |
| Tarjan.LeaveKeepsInv | src/graph.rs:163-167 | returning from a vertex that does not close a component keeps it |
| Tarjan.CloseKeepsInv | src/graph.rs:149-167 | closing a component keeps it, so what is popped is a whole component and nothing that is left can reach into it wrongly |
| Kahn.StuckHasCycle | src/graph.rs:64-87 | vertices that all have a predecessor among themselves contain a cycle |
| Kahn.OrderedHasNoCycle | src/graph.rs:64-87 | a graph with a topological order has no cycle |
| Kahn.QueueDry | src/graph.rs:82-86 | when the queue runs dry, its length decides: all vertices were ordered, or there is a cycle |
| DisjointSets.DisjointSet.constructor | src/dsu.rs:21-28 | `n` elements, each alone in its class |
| DisjointSets.DisjointSet.Ensure | src/dsu.rs:41-49 | growing keeps every label and adds singletons only |
| DisjointSets.DisjointSet.Find | src/dsu.rs:52-65 | returns the class's representative; afterwards everything on the way there is linked to it directly, and no element changes its class |
| DisjointSets.DisjointSet.Compress | src/dsu.rs:58-63 | path compression changes no representative, rank or size |
| DisjointSets.DisjointSet.Union | src/dsu.rs:69-87 | merges exactly the two classes, by rank, reports whether they were different, and counts one set less in that case only; the classes are always those of the equivalence the united pairs generate |
| DisjointSets.DisjointSet.Link | src/dsu.rs:80-85 | hanging a root below one of at least its rank relabels its class only, and the rank grows by one exactly on a tie |
| DisjointSets.DisjointSet.Connected | src/dsu.rs:90-92 | true if and only if a chain of united pairs links the two |
| DisjointSets.DisjointSet.SetSize | src/dsu.rs:95-98 | the number of elements a chain of united pairs links to this one |
| DisjointSets.UnitePartitions | src/dsu.rs:69-87 | relabelling one class to the other gives exactly the equivalence generated with one more pair |
| DisjointSets.ClassIsLinked | src/dsu.rs:90-98 | a class is exactly what chains of united pairs link |
| DisjointSets.CompressRanked | src/dsu.rs:58-63 | linking an element to its representative keeps labels and ranks right |
| DisjointSets.LinkValid | src/dsu.rs:80-85 | union by rank keeps labels, ranks and sizes right, and there is one root less |
| DisjointSets.RanksLogarithmic | src/dsu.rs:69-87 | 2 to the power of any element's rank is at most its class's size, hence at most the number of elements |
| LoserTrees.LoserTree.constructor | src/kmerge.rs:32-65 | building plays every leaf in and ends with a complete tournament |
| LoserTrees.LoserTree.Play | src/kmerge.rs:68-89 | playing a leaf in decides its matches and leaves all others decided |
| LoserTrees.LoserTree.Match | src/kmerge.rs:77-86 | one match: the loser stays in the slot, the winner goes on |
| LoserTrees.LoserTree.Next | src/kmerge.rs:97-107 | delivers a head that is least among all heads with the run it came from, and moves that run's cursor only; `None` only when every head is the sentinel |
| LoserTrees.LoserTree.Replay | src/kmerge.rs:97-107 | replaying the winner's path after its run moved on restores the tournament |
| LoserTrees.LoserTree.Collect | src/kmerge.rs:110-116 | each run is delivered in its own order up to its first sentinel, tagged with its true index; the whole is sorted if the runs are, and is the bag of what the runs hold |
| LoserTrees.MergeRuns | src/kmerge.rs:120-122 | the output is sorted if the runs are, is the bag of what stands before each run's first sentinel, and holds all inputs if and only if no run holds the sentinel |
| LoserTrees.PlayMatch | src/kmerge.rs:77-86 | one match keeps the tournament invariant with the hole one level higher |
| LoserTrees.RootIsLeast | src/kmerge.rs:68-89 | the overall winner's key is at most that of every subtree's winner |
| LoserTrees.WonOnPath | src/kmerge.rs:68-89 | the overall winner won every match on its way up |
| LoserTrees.ForgetWinner | src/kmerge.rs:97-107 | when the winner's key changes, the stored losers are exactly what its replay needs |
| LoserTrees.CountByRun | src/kmerge.rs:11-16 | every element of the output is attributed to exactly one run |
| LoserTrees.LiveIsAll | src/kmerge.rs:48-51 | a run is delivered whole if and only if it never holds `i64::MAX` |
| LoserTrees.WholeIffNoSentinel | src/kmerge.rs:28-28 | the merge loses nothing if and only if no run holds `i64::MAX` |
| LoserTrees.SentinelCounterexample | src/kmerge.rs:28-28 | of the run 1, `i64::MAX`, `i64::MAX` only the 1 is delivered |
| BitMatrices.BitMatrix.constructor | src/bitmatrix.rs:20-28 | all bits clear |
| BitMatrices.BitMatrix.Get | src/bitmatrix.rs:55-61 | the bit at a position, false outside the matrix |
| BitMatrices.BitMatrix.Set | src/bitmatrix.rs:64-74 | changes that bit only; bits past the last column stay zero |
| BitMatrices.BitMatrix.OrRowInto | src/bitmatrix.rs:95-108 | the row becomes the union of both, no other row changes, and a change is reported if and only if there was one |
| BitMatrices.BitMatrix.OrWords | src/bitmatrix.rs:99-106 | the same word by word, also when both rows are the same |
| BitMatrices.BitMatrix.TransitiveClosure | src/bitmatrix.rs:113-122 | in place: afterwards bit `(i, j)` is set if and only if a non-empty path led from `i` to `j` before |
| BitMatrices.ViaRound | src/bitmatrix.rs:113-122 | what one round of Warshall does to a row, and that the round's own row does not move under it |
| BitMatrices.WalkIsVia | src/bitmatrix.rs:113-122 | every walk of any length is found by Warshall's recurrence |
| BitMatrices.ViaAllIsConnected | src/bitmatrix.rs:113-122 | with every inner vertex allowed the recurrence is reachability, both ways |
| EditDistance.Levenshtein | src/editdist.rs:11-31 | the rolling-row loop computes the distance, which is the least cost of any edit script (`Attained`, `Minimal`) |
| EditDistance.LevenshteinBounded | src/editdist.rs:35-62 | `Some` of the distance if it is at most the bound, `None` otherwise, in spite of both early exits |
| EditDistance.DamerauLevenshtein | src/editdist.rs:65-93 | the table computes the least cost of a script with adjacent transpositions in which no stretch is edited twice; that is more than the least number of edits on some strings (`EditSteps.DistanceIffSingle`) |
| EditDistance.Closest | src/editdist.rs:110-120 | the first of the closest candidates within the bound; `None` if and only if there is none within it |
| EditDistance.Attained | src/editdist.rs:11-31 | some edit script turns one string into the other at the computed cost |
| EditDistance.Minimal | src/editdist.rs:11-31 | no edit script costs less |
| EditDistance.LengthGap | src/editdist.rs:38-40 | the difference of the lengths is a lower bound, which justifies the first exit |
| EditDistance.RowsGrow | src/editdist.rs:51-53 | when a whole row is at least `m` so is everything below it, which justifies the second exit |
| EditDistance.TriangleInequality | src/editdist.rs:11-31 | the distance without transpositions obeys the triangle inequality; with them it does not (`EditSteps.TwiceEditedCounterexample`) |
| EditDistance.Symmetric | src/editdist.rs:11-31 | the distance is symmetric, with or without transpositions |
| EditDistance.ZeroIffEqual | src/editdist.rs:11-31 | the distance is zero if and only if the strings are equal |
| EditDistance.SwapsHelp | src/editdist.rs:65-93 | allowing transpositions never makes the distance larger |
| EditSteps.DistanceIffSingle | src/editdist.rs:64-93 | the least number of single edits, transpositions among them, that turn one string into the other is at most the computed distance, and equal to it if and only if some least sequence of edits never edits a stretch twice |
| EditSteps.TwiceEditedCounterexample | src/editdist.rs:64-93 | two edits turn CA into ABC, by way of AC, and the table says three; so the triangle inequality fails with transpositions |
| EditSteps.LeastSteps | src/editdist.rs:64-93 | any two strings have a least number of edits between them |
| EditSteps.DistanceReached | src/editdist.rs:64-93 | the distance is the length of some sequence of edits that edits no stretch twice |
| EditSteps.MadeSingly | src/editdist.rs:64-93 | every script can be carried out as single edits, one for each unit of its cost, none inside what an earlier one wrote |
| EditSteps.SingleIsPath | src/editdist.rs:64-93 | edits that touch no stretch twice lead from the one string to the other and make up one script, whose cost is their number |
| Values.TotalCmpOrders | src/value.rs:72-86 | reflexive, and outcomes turn round with the operands, for any values; transitive at three values if and only if they are not two integers in the wrong order around the double both round to |
| Values.OrderIs | src/value.rs:72-86 | the comparison says less of two values if the first comes first: nulls before all, false before true, numbers by size, an integer beside a real by its double, texts by their numbers, booleans before numbers before texts |
| Values.OrderedIffNoneBlurred | src/value.rs:72-86 | a set of values is totally ordered if and only if no real in it is what two different integers in it round to |
| Values.SmallIntegersOrdered | src/value.rs:72-86 | so it is when its integers have at most 53 bits |
| Values.BlurredCounterexample | src/value.rs:80-81 | 2^53 + 1 and 2^53 both compare equal to the real 2^53, and yet the one is greater than the other |
| Doubles.NearestMonotone | src/value.rs:80-81 | rounding an integer to 53 significant bits, ties to even, never turns an order round |
| Doubles.RoundsToNearest | src/value.rs:80-81 | what an integer is converted to has at most 53 significant bits, no such number is nearer, and of two equally near it is the one of even significand |
| Doubles.NearestMultiple | src/value.rs:80-81 | the same among the multiples of one spacing |
| Doubles.RoundedMonotone | src/value.rs:80-81 | nor does it for negative integers |
| Doubles.SmallIsExact | src/value.rs:80-81 | integers up to 2^53 are converted exactly |
| Doubles.FirstInexact | src/value.rs:80-81 | the next one is not: it ties and goes to the even neighbour |
| ExprVm.Compiler.Compile | src/exprvm.rs:88-92 | compiling reports exactly the first reason to refuse an expression, and otherwise a program that computes it on any stack and row |
| ExprVm.Compiler.Emit | src/exprvm.rs:101-143 | the code appended computes the expression: run on any stack it pushes exactly the structural value, or stops on an overflow exactly when that has none |
| ExprVm.Compiler.EmitInList | src/exprvm.rs:131-137 | the same for IN, whose items are pushed in order and popped in reverse |
| ExprVm.Compiler.EmitBetween | src/exprvm.rs:125-130 | the same for BETWEEN |
| ExprVm.Eval | src/exprvm.rs:147-210 | the loop over the program with its mutable stack runs it, and gives the top of the final stack |
| ExprVm.FindMember | src/exprvm.rs:184-206 | the scan gives SQL's three-valued membership: a match wins over nulls, a null without a match gives null |
| ExprVm.PopItems | src/exprvm.rs:179-182 | pops the listed number of values, last pushed first |
| ExprVm.RunAppend | src/exprvm.rs:147-210 | running two programs in a row is running the second on the first one's stack |
| ExprVm.MemberIgnoresOrder | src/exprvm.rs:184-206 | membership depends on which values are listed, not on their order |
| ExprVm.ComputesInList | src/exprvm.rs:131-137 | code for the probe and for the items, then the membership test, computes the IN expression |
| ExprVm.ComputesBetween | src/exprvm.rs:125-130 | code for the three operands, then the range test, computes the BETWEEN expression |
| ExprVm.CompileAndEval | src/exprvm.rs:88-210 | compiling and running gives the structural value of the expression, for every expression and every row; otherwise the compile error is the first refusal |
| ExprVm.CompiledValue | src/exprvm.rs:147-210 | a program that computes an expression evaluates to its value from the empty stack |
| OperatorLaws.IntegerArithmetic | src/exprvm.rs:265-274 | sums, differences and products of integers are right modulo 2^64, and are the mathematical ones if these have 64 bits |
| OperatorLaws.OneRepresentative | src/exprvm.rs:265-274 | which tells them: two 64-bit integers congruent modulo 2^64 are the same |
| OperatorLaws.IntegerDivision | src/exprvm.rs:272-273 | quotient and remainder make up the dividend, the remainder is smaller than the divisor and has the sign of the dividend; both are null for a zero divisor and overflow for the least integer by -1 only |
| OperatorLaws.IntegerNegation | src/exprvm.rs:212-228 | negating is subtracting from zero, and overflows for the least integer only |
| OperatorLaws.AddThenSubtract | src/exprvm.rs:265-274 | adding and subtracting the same gives every integer back, whatever wraps around |
| OperatorLaws.Distributes | src/exprvm.rs:265-274 | multiplication distributes over addition, also where these wrap around |
| OperatorLaws.RealArithmetic | src/exprvm.rs:276-287 | other numbers are computed with as reals, integers by their doubles, booleans as one and zero; the quotient times the divisor is the dividend, and the remainder is smaller than the divisor, of the sign of the dividend and a whole number of divisors away from it |
| OperatorLaws.RealNegation | src/exprvm.rs:212-228 | negating a real is subtracting it from zero |
| OperatorLaws.NoArithmetic | src/exprvm.rs:249-288 | texts and nulls have no arithmetic |
| OperatorLaws.ComparisonsDecide | src/exprvm.rs:252-263 | each comparison decides what it says by which of the two values comes first |
| OperatorLaws.NullComparisons | src/exprvm.rs:249-251 | a comparison with a null is unknown |
| OperatorLaws.ThreeValued | src/exprvm.rs:212-247 | AND is the less true of both operands, OR the truer, and NOT turns them round, with unknown between false and true |
| OperatorLaws.BetweenIs | src/exprvm.rs:166-175 | BETWEEN is `x >= lo AND x <= hi` if and only if it is not so that one bound is null while the other makes that false; then it is null |
| OperatorLaws.BetweenCounterexample | src/exprvm.rs:166-175 | 5 BETWEEN NULL AND 3 is null, and 5 >= NULL AND 5 <= 3 is false |
| OperatorLaws.MemberIsEither | src/exprvm.rs:176-206 | IN is the OR of equalities with the values listed |
| Logical.FoldPreservesValue | src/logical.rs:227-274 | folding keeps the value on every row on which there is one, nulls included, for expressions whose AND and OR have boolean operands |
| Logical.FoldStaysSafe | src/logical.rs:227-274 | folding keeps an expression within that class, and boolean ones boolean |
| Logical.BooleanValue | src/logical.rs:227-274 | expressions of boolean type evaluate to a boolean or null |
| Logical.AndTrueIdentity | src/logical.rs:267-268 | `true AND v` is `v` if and only if `v` is a boolean or null |
| Logical.DroppedTrueIsExact | src/logical.rs:267-268 | dropping a literal `true` keeps the value if and only if the other operand's value is a boolean or null |
| Logical.DroppedTrueCounterexample | src/logical.rs:267-268 | `TRUE AND 5` is `true`, folded it is `5` |
| Logical.FoldIdempotent | src/logical.rs:227-274 | folding twice is folding once |
| Logical.FoldReduces | src/logical.rs:227-291 | no operator is left that literals decide: no sign or NOT on a literal, no arithmetic or comparison of two integers but a division by zero, no AND with a truth value, no OR with true or of two truth values |
| Logical.SplitConjuncts | src/logical.rs:294-300 | the operands of the top-level ANDs, left to right |
| Logical.SplitInto | src/logical.rs:299-307 | the recursive helper appends exactly those |
| Logical.CombineConjuncts | src/logical.rs:310-316 | a left-leaning chain of all of them, `None` for none |
| Logical.ConjunctsValue | src/logical.rs:294-307 | an AND tree has the value of the three-valued conjunction of its leaves |
| Logical.CombineAfterSplit | src/logical.rs:294-316 | combining what was split off has the same value on every row, nulls and overflows included |
| Logical.ConjunctsAreAtoms | src/logical.rs:299-307 | no conjunct is itself an AND |
| Logical.SplitAfterCombine | src/logical.rs:294-316 | splitting a combined list of atoms gives the list back |
| Optimizer.Optimize | src/logical.rs:336-346 | the loop applies rewriting passes until nothing changes or the cap is reached; then no filter is left that a rule applies to, unless every pass up to the cap changed something |
| Optimizer.OptimizePreserves | src/logical.rs:336-438 | the optimized plan denotes the same relation, same columns, same rows, same order, whatever the other operators do, when every filter's predicate is of boolean type and has a value on every row that comes from below the filters under it |
| Optimizer.RewriteImproves | src/logical.rs:348-438 | one pass keeps the relation and everything a further pass relies on, under the same condition |
| Optimizer.CollapseFilters | src/logical.rs:358-373 | the filter by the conjunction has a result if and only if the upper predicate has a value on every row, also those the lower one rejects, and then keeps exactly what the two filters keep |
| Optimizer.FilterBelowProject | src/logical.rs:374-383 | filtering a projection's output is projecting the filtered input, for predicates that read passed-through columns only; the one overflows if and only if the other does |
| Optimizer.ConjunctionIsExact | src/logical.rs:358-373 | the conjunction holds exactly when both predicates do if and only if no integer operand stands in for true |
| Optimizer.FoldKeeps | src/logical.rs:353-357 | folding makes an expression read no more columns |
| Optimizer.FoldEvaluable | src/logical.rs:353-357 | folding a predicate of boolean type keeps it a value on every row it had one on |
| Optimizer.LiteralsSuffice | src/logical.rs:227-274 | a predicate that negates and divides by literals only has a value on any row |
| Optimizer.KeptIffDefined | src/physical.rs:65-79 | a filter has a result if and only if its predicate has a value on every row |
| Optimizer.DefinedAbove | src/logical.rs:374-383 | a predicate that sinks through projections and has a value on every row below them has one on every row above |
| Optimizer.RewriteIffFolds | src/logical.rs:348-438 | a pass goes through if and only if folding the filters' predicates does not overflow, and then so does the next one |
| Optimizer.OptimizesIffFolds | src/logical.rs:336-346 | so does the whole optimizer, whatever the number of passes |
| Optimizer.SameValue | src/exprvm.rs:147-210 | an expression's value depends on the columns it reads only |
| Optimizer.ProjectedValue | src/physical.rs:90-93 | a predicate over passed-through columns has the same value before and after a projection |
| Optimizer.StopsAtFixpoint | src/logical.rs:336-346 | when a pass changes nothing, any number of further passes changes nothing |
| Optimizer.FixedIsSettled | src/logical.rs:348-438 | a plan that a pass leaves as it is has no filter above another filter or a projection, and none whose predicate is true or can be folded |
| Optimizer.OptimizedSettles | src/logical.rs:336-438 | so has an optimized plan, unless every pass up to the cap changed something |
| Optimizer.AliasCounterexample | src/logical.rs:374-383 | `SELECT b AS a` filtered on `a` keeps a row that the rewritten plan loses |
| Optimizer.SinksIffPassedThrough | src/logical.rs:374-383 | over a projection of columns, filtering by a column may be pushed below for all rows if and only if the projection hands that column on under its own name |
| Optimizer.OneRowSinks | src/logical.rs:374-383 | a single row is kept below the projection as above it if and only if the predicate is true of the row exactly when it is true of its output |
| Optimizer.OverflowCounterexample | src/logical.rs:358-373 | `b / a` guarded by `a <> -1` filters to no rows; the collapsed plan divides the smallest integer by -1 |
| Optimizer.IntegerPredicateCounterexample | src/logical.rs:358-373 | an integer predicate keeps no row as a filter, but lets rows through once it is collapsed into a conjunction |
| SearchTrees.InsertWellFormed | src/btree.rs:272-388 | inserting, with leaf and inner splits, keeps every leaf at one depth, every node sorted and at most full, and every separator between its neighbours |
| NodeFills.InsertFills | src/btree.rs:272-388 | inserting keeps every node but the root at least half full, where it was so: both halves of a split are, and no other node gets smaller |
| NodeFills.FilledHolds | src/btree.rs:272-388 | a subtree so filled holds at least four entries times five for every level above its leaves |
| NodeFills.GrownHolds | src/btree.rs:257-268 | so the height of a tree that only grew is at most logarithmic in the number of its keys |
| SearchTrees.InsertLookup | src/btree.rs:272-388 | afterwards the key has the row at the end of its list, or an unchanged list if it had that row, and every other key what it had |
| SearchTrees.InsertChained | src/btree.rs:341-363 | splits keep every leaf's link pointing at the next leaf |
| SearchTrees.InsertDistinct | src/btree.rs:241-246 | no page is used twice, and new pages are new |
| SearchTrees.RemoveWellFormed | src/btree.rs:448-479 | removing keeps shape, separators and leaf links |
| SearchTrees.RemoveLookup | src/btree.rs:448-479 | afterwards the key has lost that row, or nothing if it never had it, and every other key has what it had |
| SearchTrees.RemoveDistinct | src/btree.rs:448-479 | removing uses exactly the pages that were used |
| SearchTrees.SeparatorPosition | src/btree.rs:314-336 | the place found by searching for a new separator is the place of the child that split |
| LeafChains.LeavesLinked | src/btree.rs:497-518 | the leaf links thread exactly the tree's leaves, in order |
| LeafChains.ListingGood | src/btree.rs:391-441 | the leaves' entries are strictly ascending and hold exactly what descending from the root finds |
| LeafChains.PairsMembers | src/btree.rs:410-441 | a range holds a pair if and only if its key is within bounds and the row is listed under it |
| LeafChains.PairsOrdered | src/btree.rs:410-441 | ranges come out in key order |
| LeafChains.LeavesBefore | src/btree.rs:414-422 | the leaves before the one a search starts at hold only smaller keys |
| BTrees.BTree.constructor | src/btree.rs:210-227 | one empty leaf; the abstract index is empty |
| BTrees.BTree.Alloc | src/btree.rs:241-246 | a page number never used before |
| BTrees.BTree.Insert | src/btree.rs:257-268 | the abstract index gains this row at the end of the key's list unless the list has it; the pages still hold a height-balanced tree, at most one higher, and as long as nothing was removed every node but the root is at least half full |
| BTrees.BTree.InsertRec | src/btree.rs:272-339 | the pages below hold what inserting into the stored subtree gives, a split is reported, and no other page changes |
| BTrees.BTree.InsertLeaf | src/btree.rs:275-302 | the same for a leaf, which may split |
| BTrees.BTree.InsertInner | src/btree.rs:303-338 | the same for an inner page |
| BTrees.BTree.Splice | src/btree.rs:314-336 | the parent takes the new separator and child in their place and may split itself |
| BTrees.BTree.Lookup | src/btree.rs:391-407 | the rows of the key in the abstract index, in order |
| BTrees.BTree.Remove | src/btree.rs:444-446 | the abstract index loses that row and a key left without rows; true if and only if it was there; the height stays |
| BTrees.BTree.RemoveRec | src/btree.rs:448-479 | the same on the pages of a subtree, and no other page changes |
| BTrees.BTree.Iter | src/btree.rs:497-518 | every pair of the index in key order, rows in list order |
| BTrees.BTree.Range | src/btree.rs:410-441 | exactly the pairs with a key within the bounds, in key order |
| BTrees.BTree.Descend | src/btree.rs:414-422 | the leaf found has only smaller keys before it |
| BTrees.BTree.Walk | src/btree.rs:424-440 | following the links from there emits exactly what is left of the range |
| BTrees.TreeListing | src/btree.rs:391-518 | the leaves list the abstract index |
| BTrees.ListingUnique | src/btree.rs:497-518 | an index has one listing only, so scanning order is determined |
| BTrees.GrownRoot | src/btree.rs:257-268 | whether the root splits or not, the new tree represents the index with the row added |
| BTrees.RemovedRoot | src/btree.rs:444-446 | the tree after a removal represents the index without the row, on the same pages |
| Runs.RunTotal | src/rle.rs:94-96 | the number of values the runs stand for |
| Runs.Coalesce | src/rle.rs:99-111 | stands for the same values if and only if no stretch of neighbouring runs of one value has more than 2^32 - 1 of them, and for fewer otherwise; no two neighbours are equal, and there are no more runs than before |
| Runs.CoalesceLoses | src/rle.rs:104-104 | a run of 2^32 - 1 and a run of one of the same value lose a value |
| Runs.FewAreCountable | src/rle.rs:99-111 | runs for at most 2^32 - 1 values in all lose none, which is what tables rely on |
| Runs.Materialize | src/rle.rs:115-124 | exactly the values the runs stand for |
| Runs.DropFirst | src/rle.rs:127-142 | stands for the values without the first `n`, none if there are fewer |
| Pages.ReadCell | src/format.rs:112-152 | the value at a slot, for plain and run-length regions, null past the end |
| Pages.AppendCell | src/mutation.rs:169-181 | the region holds one more value, as its column keeps it |
| Pages.SelectRegion | src/compact.rs:131-157 | exactly the values at the listed slots, in that order |
| Pages.ExtendRegion | src/compact.rs:283-303 | another region's values at the listed slots after its own |
| Pages.SelectedRows | src/compact.rs:65-129 | a page of selected rows scans as those rows |
| Pages.CompactedRows | src/compact.rs:65-129 | keeping the live rows keeps what a scan reads |
| Pages.SplitRows | src/compact.rs:171-226 | the two halves of a page scan as the whole did |
| Pages.ExtendedRows | src/compact.rs:259-325 | a merged page scans as its own rows and then the moved ones |
| Pages.NoGapIffKept | src/compact.rs:106-127 | compacting a page leaves every live row its slot number if and only if no live slot follows a tombstone |
| Storage.Database.constructor | src/pager.rs:236-243 | an empty table |
| Storage.Database.Alloc | src/pager.rs:246-256 | the number freed last, or one more; no other page changes |
| Storage.Database.Free | src/pager.rs:269-275 | the page is gone and its number is the next to be reused; freeing nothing changes nothing |
| Storage.Database.PageWithSpace | src/fsm.rs:69-80 | the first of the pages with most room, if that is enough |
| Storage.Database.DataPages | src/pager.rs:301-303 | exactly the data pages, ascending |
| Storage.Database.ScanAll | src/query.rs:48-78 | the live rows of the data pages, page by page in order, and so the bag the whole table stands for |
| Storage.Database.ScanPage | src/query.rs:55-72 | the live rows of a page, in slot order |
| Storage.Database.Insert | src/mutation.rs:56-100 | the table gains exactly this row under its id, the one given or else the next, at the end of the first page with most room or of a new one; the row-id map gains exactly that place and still names live slots carrying their ids; it stays one to one if and only if the id was new; a wrong number of values changes nothing; no run of a run-length column loses a value as long as the table has fewer than 2^32 slots |
| Storage.Database.InsertRow | src/mutation.rs:63-99 | the same once the number of values is right |
| Storage.NewRowReads | src/mutation.rs:56-157 | the row reads as it was given wherever its values are of their columns' kinds, with the id in an integer first column |
| Storage.Database.PageForRow | src/mutation.rs:81-89 | the first page with most room, or a fresh one under the number freed last; the rows stay |
| Storage.Database.AppendRow | src/mutation.rs:102-157 | the page gains the row at its end and the row-id map its place |
| Storage.Database.DeleteRows | src/mutation.rs:247-273 | the listed ids leave the map and their rows the table, nothing else does, and the count is right |
| Storage.Database.DeleteRow | src/mutation.rs:251-270 | one mapped id and exactly its row |
| Storage.Database.CollectMatching | src/mutation.rs:347-390 | by the scan, exactly the ids whose row meets the comparison, ascending |
| Comparisons.ApplyDecides | src/value.rs:137-149 | what each operator decides of two values that are not null, by which of them comes first; equality is that of the values |
| Comparisons.IntsCompare | src/value.rs:137-149 | of two integers each operator says what it says of the numbers |
| Comparisons.RealsCompare | src/value.rs:137-149 | so it does of two reals |
| Comparisons.MixedCompare | src/value.rs:137-149 | an integer and a real are ordered by the double of the integer and never equal |
| Comparisons.OthersCompare | src/value.rs:137-149 | booleans are ordered false first, texts by their numbers |
| Comparisons.NullsCompare | src/value.rs:133-140 | against a null only inequality holds |
| CellUpdates.IntsMatch | src/mutation.rs:380-390 | in a column of integers a row matches if and only if the operator says so of the numbers |
| CellUpdates.UpdatedInts | src/mutation.rs:276-295 | so exactly those rows are updated |
| Storage.Database.DeleteWhere | src/mutation.rs:247-273 | exactly the matching rows are gone, the map stays one to one with the live rows, and the count is that of the rows gone; in a column of integers a row is gone if and only if the operator says so of its number |
| Storage.Database.RewriteCell | src/mutation.rs:297-343 | that cell only changes, to the value as its column keeps it |
| Storage.Database.UpdateWhere | src/mutation.rs:276-295 | on every page exactly the matching rows have the new value, in place; the map stays one to one; the count is that of the matching rows; in a column of integers those rows are the ones of whose numbers the operator says so |
| Storage.Database.Repack | src/compact.rs:65-129 | scans stay the same; the page holds exactly its live rows, in order |
| Storage.Database.Split | src/compact.rs:171-226 | scans stay the same; from four live rows on, the upper half is on a new page; the row-id map stays right |
| Storage.Database.MoveUpperHalf | src/compact.rs:180-211 | the page keeps exactly its first live rows and the others are on a page under a fresh number, in order |
| Storage.Database.SelectPage | src/compact.rs:131-157 | a page of exactly the selected rows |
| Storage.Database.RelocateAll | src/compact.rs:214-220 | the map names the new place of every moved row that was mapped, and is otherwise unchanged |
| Storage.Database.Merge | src/compact.rs:259-325 | scans stay the same; the live rows are behind those of the first other data page and the page is free; the row-id map stays right |
| Storage.Database.Neighbor | src/compact.rs:260-268 | the first other data page |
| Storage.Database.ExtendPage | src/compact.rs:277-310 | the neighbour's rows and then the moved ones |
| Storage.Database.Compact | src/compact.rs:29-55 | a whole pass over the data pages leaves the bag of scanned rows unchanged whatever mix of split, merge and repack it takes; each page gets exactly the operation its fill calls for; the count is that of the operations; a map that was one to one is right afterwards if and only if no page was repacked while a live slot followed a tombstone on it |
| Storage.Database.CompactPage | src/compact.rs:38-52 | one page of the pass; the map stays one to one, or a row of this page is misnamed if it is repacked with a live slot behind a tombstone |
| Storage.RepackKeepsMapIff | src/compact.rs:106-127 | repacking, which does not write the row-id map, keeps it right if and only if no live slot follows a tombstone on the page |
| Storage.RepackCounterexample | src/compact.rs:106-127 | a good one-column page of a tombstone and a live row with a map one to one: repacked, the row is in slot 0 while the map says slot 1 |
| Storage.RepackLosesMap | src/compact.rs:29-127 | inserting two rows, deleting the first and repacking leaves a map that does not name the row |
| Storage.RepackDisturbs | src/compact.rs:65-129 | repacking keeps a map one to one if no live slot follows a tombstone, and misnames a row otherwise; rows of other pages keep their places |
| Storage.SplitDisturbs | src/compact.rs:171-226 | splitting keeps the places of the rows of other pages |
| Storage.MergeDisturbs | src/compact.rs:259-325 | merging does not put right a row misnamed on another page |
| Storage.LostStays | src/compact.rs:29-55 | so a row misnamed on a page already passed stays misnamed to the end of the pass |
| Storage.InsertMap | src/mutation.rs:154-155 | the map stays right after an insert, and one to one if and only if the id was new |
| Storage.AutoIdIsNew | src/mutation.rs:63-67 | the id given is already taken only if the first value is a positive integer below the next automatic id |
| Storage.TakenIdLosesRow | src/mutation.rs:63-67 | two inserts with the same given id leave the first row live but named by no entry of the map |
| Storage.SplitKeeps | src/compact.rs:171-226 | splitting keeps all pages in order and the bag of rows |
| Storage.SplitMap | src/compact.rs:214-220 | and the relocated map names live slots that carry their ids |
| Storage.MergeKeeps | src/compact.rs:259-325 | merging keeps all pages in order and the bag of rows |
| Storage.MergeMap | src/compact.rs:315-318 | and the relocated map names live slots that carry their ids |
| Storage.ExactMoved | src/compact.rs:171-325 | when live rows only move, a map one to one with them stays so |
| Storage.TombstoneExact | src/mutation.rs:255-268 | a tombstone takes exactly that row out of the table |
| Storage.UpdatedPages | src/mutation.rs:276-295 | rewriting the cells of the matching ids is updating the matching rows |
| Storage.HitsAreMatches | src/mutation.rs:347-390 | on each page the ids found are exactly the rows that match |
| CellUpdates.SetCell | src/mutation.rs:313-334 | one value of a region is replaced, in plain and in run-length form; past the end nothing is |
| CellUpdates.RewriteRegion | src/mutation.rs:297-343 | one cell of a page is replaced and nothing else |
| CellUpdates.RewrittenRows | src/mutation.rs:276-295 | a scan of the rewritten page reads the updated rows |
| Formats.CellRoundTrip | src/format.rs:95-152 | reading a slot of encoded cells gives the value as its column keeps it, zero for what is not of its kind, null past the end |
| Formats.ValueRoundTrip | src/format.rs:95-152 | a value the column can hold is read back, and takes the column's width |
| Formats.RunRoundTrip | src/rle.rs:41-91 | a run of the column's kind is read back |
| Formats.RunsRoundTrip | src/rle.rs:41-91 | a list of such runs is read back |
| Formats.RunsComeBackIff | src/rle.rs:41-91 | a list of runs is read back if and only if all their values are of the column's kind: a null among them is written in eight bytes whatever the kind |
| Formats.NullRunCounterexample | src/rle.rs:61-64 | a null run in a boolean column cannot be decoded, and in an integer column is read as zero |
| Formats.EncodeRunsLoop | src/rle.rs:41-68 | the loop builds exactly the encoding the round trip is about |
| Formats.DecodeRunsLoop | src/rle.rs:71-91 | the loop decodes exactly what the round trip is about, errors included |
| Formats.RegionsRoundTrip | src/format.rs:155-193 | regions are read back whatever follows them |
| Formats.BodyRoundTrip | src/format.rs:155-193 | a page body is read back from its bytes |
| Formats.EmptyIsTruncated | src/format.rs:169-172 | an empty buffer is no body, which is why a new page is treated apart |
| Formats.SlotsRoundTrip | src/format.rs:196-228 | a slot directory is read back, tombstones included |
| Formats.RegionSurvives | src/format.rs:95-152 | a region of a page in order loses nothing in its bytes |
| Formats.RegionLength | src/format.rs:84-108 | the bytes of a region are as many as its cells or runs times their width |
| Formats.BodyLenIsSize | src/format.rs:155-166 | the room a page is reckoned to take, which decides when it is split, is the number of bytes written for it |
| Bytes.WriteVarint | src/encoding.rs:119-125 | appends the little-endian base-128 form of the number |
| Bytes.ReadVarint | src/encoding.rs:129-143 | reads one from any position, or reports that the buffer ends inside it or it runs past 64 bits |
| Bytes.VarintRoundTrip | src/encoding.rs:119-143 | any 64-bit number is read back from the middle of any buffer, ending right behind it |
| Bytes.VarintsRoundTrip | src/encoding.rs:119-143 | so is a list of them |
| Bytes.ZigZagRoundTrip | src/encoding.rs:109-116 | zig-zag is undone for every 64-bit integer, the smallest included |
| Bytes.FromLeOfLe | src/encoding.rs:228-253 | little-endian bytes give a number that fits back |
| BitPacking.BitsNeeded | src/encoding.rs:94-99 | the least width a number fits in |
| BitPacking.BitsNeededFits | src/encoding.rs:94-99 | no smaller width would do |
| BitPacking.BitPack | src/encoding.rs:152-171 | the buffer's bits are the values' low bits, one value after the other, in the fewest bytes, the rest zero |
| BitPacking.PackValue | src/encoding.rs:161-168 | one value's bits are set behind those already there, and no other bit changes |
| BitPacking.BitUnpack | src/encoding.rs:174-193 | reads the numbers those bits make, zeros past the end |
| BitPacking.UnpackPacked | src/encoding.rs:152-193 | unpacking gives back what was packed whenever every value fits the width |
| IntCodecs.EncodeIntsBest | src/encoding.rs:548-587 | the codec chosen is that of the heuristic, and what it writes is decoded back, for every list |
| IntCodecs.BestRoundTrip | src/encoding.rs:548-606 | whatever bytes follow the chosen codec's layout are decoded to the list, for every list of 64-bit integers |
| IntCodecs.BitPackedIsUnreachable | src/encoding.rs:548-587 | the lossy bit-packed codec is never chosen: its guard implies an earlier one |
| IntCodecs.ConstRoundTrip | src/encoding.rs:417-435 | the constant layout is decoded back |
| IntCodecs.ZigZagRoundTripAll | src/encoding.rs:443-467 | the zig-zag layout is decoded back, for every list |
| IntCodecs.DeltaRoundTrip | src/encoding.rs:262-297 | the delta layout is decoded back if and only if the list is not empty; an empty one comes back as a single zero |
| IntCodecs.DodRoundTrip | src/encoding.rs:306-353 | the same for delta-of-delta |
| IntCodecs.ForRoundTrip | src/encoding.rs:228-253 | the frame-of-reference layout is decoded back if and only if the largest number exceeds the smallest by at most `i64::MAX`; beyond that adding the smallest back overflows |
| IntCodecs.BitPackedRoundTrip | src/encoding.rs:197-220 | the bit-packed layout is decoded back if and only if no number is negative |
| IntCodecs.UndeltaOfDeltas | src/encoding.rs:262-297 | wrapping running sums undo wrapping differences |
| IntCodecs.EncodeConst | src/encoding.rs:417-423 | writes exactly the constant layout |
| IntCodecs.EncodeZigZag | src/encoding.rs:443-451 | writes exactly the zig-zag layout |
| IntCodecs.EncodeDelta | src/encoding.rs:262-275 | writes exactly the delta layout |
| IntCodecs.EncodeDod | src/encoding.rs:306-324 | writes exactly the delta-of-delta layout |
| IntCodecs.EncodeFor | src/encoding.rs:228-240 | writes the minimum, the width and the packed offsets if the spread is at most `i64::MAX`; the subtraction overflows if and only if it is more |
| IntCodecs.PackFor | src/encoding.rs:228-240 | the same layout for any list, with subtraction that wraps as a release build has it |
| IntCodecs.EncodeBitPacked | src/encoding.rs:197-208 | writes the bit-packed layout, with zero for every negative number |
| IntCodecs.OffsetsInRange | src/encoding.rs:252-252 | no sum of the minimum and an offset overflows if and only if the spread is at most `i64::MAX` |
| IntCodecs.RunDecodeInts | src/encoding.rs:590-606 | the dispatch on the tag decodes what the round trips are about, errors included |
| IntCodecs.RunDecodeConst | src/encoding.rs:425-435 | so does the loop of each codec: constant |
| IntCodecs.RunDecodeZigZag | src/encoding.rs:453-467 | zig-zag |
| IntCodecs.RunDecodeDelta | src/encoding.rs:277-297 | delta |
| IntCodecs.RunDecodeDod | src/encoding.rs:326-353 | delta-of-delta |
| IntCodecs.RunDecodeFor | src/encoding.rs:242-253 | frame of reference |
| IntCodecs.RunDecodeBitPacked | src/encoding.rs:210-220 | bit-packed |
| Compression.Frame | src/compress.rs:84-96 | with each codec the frame is unframed to the block, for every block shorter than 2^32 bytes; its bytes are the header and that codec's code |
| Compression.Unframe | src/compress.rs:112-136 | checks magic, tag and length and decodes the body, with each of its errors |
| Compression.FramedBack | src/compress.rs:84-136 | any body that decodes to the block makes a frame that unframes to it |
| Compression.CompressBest | src/compress.rs:99-109 | the first smallest of the three frames; it unframes to the block and is at most six bytes longer |
| Compression.RleCompress | src/compress.rs:146-182 | the code is decoded to the block; every run of three or more, cut at 130, is a repeat and everything else a literal |
| Compression.RleDecompress | src/compress.rs:185-210 | the loop decodes exactly what the round trip is about, truncation included |
| Compression.FlushLiterals | src/compress.rs:152-160 | pending bytes go out in chunks of at most 128, and decode to themselves |
| Compression.RunLength | src/compress.rs:163-168 | the number of equal bytes from here on, at most 130 |
| Compression.RleLiteral | src/compress.rs:152-160 | a literal token behind a code decodes to its bytes behind what the code stands for |
| Compression.RleRepeat | src/compress.rs:169-175 | so does a repeat token |
| Compression.LzCompress | src/compress.rs:224-251 | the code is decoded to the block; it consists of groups of up to eight units, each the best reference if that is long enough, else a literal |
| Compression.CompressGroup | src/compress.rs:229-247 | a group's units take the decoder from the input before it to the input after it under its control byte |
| Compression.LongestMatch | src/compress.rs:254-279 | the first of the starts in the window with a longest match; distance and length fit their fields |
| Compression.BestIsLongest | src/compress.rs:254-279 | that is a match, none in the window is longer, and none that starts earlier is as long |
| Compression.MatchLength | src/compress.rs:265-268 | how far the bytes at two places agree |
| Compression.LzDecompress | src/compress.rs:282-316 | the loop decodes exactly what the round trip is about, truncation and bad distances included |
| Compression.CopyBytes | src/compress.rs:305-308 | byte by byte, so a copy may run into itself |
| Compression.CopyReproduces | src/compress.rs:254-308 | copying a match reproduces the input, even where it overlaps what it copies |
| Compression.FullGroup | src/compress.rs:229-247 | a control byte with its eight units extends a code |
| Compression.LastGroup | src/compress.rs:229-247 | the last group may stop early |
| Compression.LiteralUnit | src/compress.rs:242-245 | a clear bit and a byte stand for that byte |
| Compression.ReferenceUnit | src/compress.rs:237-241 | a set bit and three bytes stand for the copy; the control byte stays a byte |
| BufferPools.BufferPool.constructor | src/bufferpool.rs:99-111 | an empty pool of at least one frame |
| BufferPools.BufferPool.Install | src/bufferpool.rs:136-154 | the page's latest bytes are the given ones, cut or zero-filled only when the page was not resident; a displaced dirty page comes back with its latest bytes; pinned pages stay; it fails only if every frame is pinned, and then nothing is lost |
| BufferPools.BufferPool.Pin | src/bufferpool.rs:158-171 | the latest bytes of a resident page, one more pin, and the hit or miss counted |
| BufferPools.BufferPool.PinMut | src/bufferpool.rs:174-188 | what is written is the page's latest bytes, and its frame is dirty |
| BufferPools.BufferPool.Unpin | src/bufferpool.rs:191-197 | one pin less, never below zero |
| BufferPools.BufferPool.MarkDirty | src/bufferpool.rs:200-204 | only that frame's dirty bit is set |
| BufferPools.BufferPool.Flush | src/bufferpool.rs:216-227 | the store has the page's latest bytes and its frame is clean; nothing is returned for a clean page |
| BufferPools.BufferPool.FlushAll | src/bufferpool.rs:230-240 | afterwards the store has the latest bytes of every resident page; exactly the dirty ones are returned, in page order |
| BufferPools.BufferPool.SortedPages | src/bufferpool.rs:230-233 | the resident pages, ascending |
| BufferPools.BufferPool.AcquireFrame | src/bufferpool.rs:243-262 | a free frame, or the victim's, written back if dirty; table, frames and free list stay a bijection and nothing is lost |
| BufferPools.BufferPool.ChooseVictim | src/bufferpool.rs:266-284 | the first unpinned frame from the hand on that was not referenced, or else the first unpinned one; within two sweeps it fails if and only if every frame is pinned |
| SkipLists.SkipList.constructor | src/skiplist.rs:62-70 | the empty map |
| SkipLists.SkipList.Descend | src/skiplist.rs:103-113 | on every level the last node with a smaller key |
| SkipLists.SkipList.Insert | src/skiplist.rs:100-145 | whatever level is drawn, the map has this value under the key and is otherwise unchanged; the previous value is returned; a new node is linked in its place on exactly that many levels |
| SkipLists.SkipList.Splice | src/skiplist.rs:127-143 | the new node is between its neighbours on each of its levels |
| SkipLists.SkipList.Get | src/skiplist.rs:148-166 | the map's value under the key |
| SkipLists.SkipList.Ceiling | src/skiplist.rs:210-228 | the entry with the smallest key not below; `None` if and only if there is none |
| SkipLists.SkipList.ToSortedVec | src/skiplist.rs:174-182 | every entry once, ascending |
| SkipLists.SkipList.Range | src/skiplist.rs:185-207 | exactly the entries within the half-open range, ascending |
| SkipLists.LevelsNest | src/skiplist.rs:100-145 | every level is a strictly ascending sublist of the level below |
| SkipLists.Inserted | src/skiplist.rs:127-143 | linking in a new node keeps all levels right |
| SkipLists.LeastFrom | src/skiplist.rs:210-228 | the node behind the last smaller one is the least entry not below |
| SkipLists.PairsList | src/skiplist.rs:174-207 | a stretch of the lowest level lists exactly the entries between its ends |
| RadixSorts.CountDigits | src/radixsort.rs:28-32 | how many items each bucket gets |
| RadixSorts.PrefixSums | src/radixsort.rs:33-35 | where each bucket starts |
| RadixSorts.Scatter | src/radixsort.rs:36-40 | the items bucket by bucket, each bucket in input order |
| RadixSorts.CountingPass | src/radixsort.rs:27-42 | one whole pass |
| RadixSorts.SortU64 | src/radixsort.rs:18-44 | in place: a sorted permutation |
| RadixSorts.SortI64 | src/radixsort.rs:57-63 | in place: a sorted permutation in signed order |
| RadixSorts.SortPairs | src/radixsort.rs:66-92 | sorted by key and stable, although passes with one full bucket are skipped |
| RadixSorts.HasFullBucket | src/radixsort.rs:79-81 | true if and only if one bucket holds every item |
| RadixSorts.PassIsStable | src/radixsort.rs:27-42 | a pass keeps the items of every key, in their order |
| RadixSorts.BucketsSorted | src/radixsort.rs:27-42 | a pass on a byte turns order by the lower bytes into order by those and this one |
| RadixSorts.SortedByAll | src/radixsort.rs:18-44 | order by all eight bytes is order by key |
| RadixSorts.StableIsPermutation | src/radixsort.rs:66-92 | a stable permutation is a permutation |
| RadixSorts.OneBucket | src/radixsort.rs:79-81 | when one bucket holds everything the pass would change nothing |
| RadixSorts.SortableOrder | src/radixsort.rs:47-54 | the sign flip is a bijection and keeps order |
| Joins.NestedLoopJoin | src/join.rs:88-132 | for any of the six comparisons, all kinds of join and any keys: every match once, padded left rows where the kind keeps them, for Semi and Anti each left row with and without a match once; right rows without a match are never padded |
| Joins.HashJoin | src/join.rs:37-72 | for all kinds of join and any keys, the bag defined by pairs of equal keys, nulls included, and padded rows, though the left side is hashed and the right side probes |
| MergeJoins.SortMergeJoin | src/join.rs:136-201 | if the keys of both sides that compare equal are aligned, the same bag, though both sides are sorted and runs of one key are paired; for the kinds that return pairs, only then |
| JoinsAgree.AllAgree | src/join.rs:37-201 | for all six kinds, hash join and sort-merge join return the same bag if keys that compare equal are aligned: on both sides they begin with the same key and the same keys are together; for the kinds that return pairs, only then. The nested loops return what the hash join does if and only if: for Inner, not both sides hold a null key; for LeftOuter, that, or only one right row has a null key and is all nulls; for RightOuter and FullOuter, besides, every right row has a match; for Semi, no null meets a null and no left row has two matches; for Anti, every left row has a null key and only one right row has one |
| JoinsAgree.UnlikeAligned | src/join.rs:136-201 | where no integer and no real among the keys compare equal there is nothing to align |
| JoinsAgree.MixedCounterexample | src/value.rs:80-80 | the integer 1 against the real 1: one row from the merge, none from the hash join |
| JoinsAgree.SwappedMatches | src/join.rs:23-24 | for Semi being aligned is not needed: an integer and a real on both sides, in opposite order, give the same rows |
| JoinsAgree.SemiOrAnti | src/join.rs:23-26 | whatever the comparison, Semi and Anti by nested loops share out the left rows |
| JoinsAgree.EqualOrNot | src/join.rs:204-215 | the joins by equality and by inequality together are every pair, nulls included |
| JoinsAgree.PairKinds | src/join.rs:37-132 | that condition for the kinds that return pairs, of the bags themselves |
| JoinsAgree.LeftOnlyKinds | src/join.rs:37-132 | the same for Semi and Anti |
| JoinsAgree.NullsDiffer | src/join.rs:88-132 | where nulls match there are the pairs of nulls, and where they do not the padded rows they stand in for; nothing else differs |
| JoinsAgree.PairsArePads | src/join.rs:63-114 | pairs of nulls are those padded rows if and only if a single right row has a null key and holds nothing but nulls |
| JoinsAgree.PickedIff | src/join.rs:116-130 | a bag with each left row once for each match is the bag of the left rows picked if and only if every row picked has one match and every other one none |
| JoinsAgree.LeftOnlyPromise | src/join.rs:23-26 | a hash join or merge for Semi keeps the left rows with a match, as promised, if and only if none has two; for Anti it keeps those without one only if there are no left rows |
| JoinsAgree.RightRowsKept | src/join.rs:19-22 | the nested loops keep every right row for RightOuter and FullOuter, as promised, if and only if all have a match, whatever the comparison |
| JoinsAgree.NullsCounterexample | src/value.rs:137-141 | one null key on either side: one row from the hash join, none from the nested loops |
| JoinsAgree.LeftOnlyCounterexample | src/join.rs:74-84 | Anti returns a row that has a match, and Semi returns one twice |
| Joins.JoinRow | src/join.rs:97-110 | one left row's matches, and whether there are any |
| Joins.PickRows | src/join.rs:116-130 | exactly the left rows that are marked, or not marked |
| Joins.BuildTable | src/join.rs:44-48 | every key's positions, in order |
| Joins.ProbeAll | src/join.rs:50-62 | all pairs and the padded right rows, with exactly the matched left rows marked |
| Joins.Probe | src/join.rs:51-57 | one right row's matches, and the matched left rows marked |
| Joins.PadUnmatched | src/join.rs:63-70 | every left row without a match, padded with nulls |
| Joins.PairsByRight | src/join.rs:37-72 | collecting pairs by right rows is collecting them by left rows |
| Joins.LeftParts | src/join.rs:37-72 | the left rows' part of a join is its pairs and, where the kind keeps them, the padded rows |
| MergeJoins.MergeRows | src/join.rs:147-199 | the loops emit what the merge from the beginning gives, on any two lists; `MergeIff` says when that is their join |
| MergeJoins.RunEnd | src/join.rs:170-177 | where the run of equal keys ends |
| MergeJoins.EmitRuns | src/join.rs:178-182 | every pair of two runs |
| MergeJoins.EmitRow | src/join.rs:178-182 | every pair of one row of the left run |
| MixedKeys.MergeIff | src/join.rs:147-199 | the merge of two sorted sides is their join by equal keys if they are aligned; when pairs are returned and left rows are of one width, only then |
| MixedKeys.FirstDiffer | src/join.rs:168-182 | when keys that compare equal begin with different ones, the merge pairs two rows that do not match |
| MixedKeys.FirstRecurs | src/join.rs:168-182 | when the first of them comes again after another one, the merge misses a pair that matches |
| MixedKeys.StepBound | src/join.rs:147-199 | no step emits a pair more often than it matches in the rows it passes |
| MergeSteps.RestJoins | src/join.rs:147-199 | from any two places of aligned sides the merge emits what is missing from the join |
| MergeSteps.RunsMeet | src/join.rs:168-177 | in aligned sides two runs that meet have the same key, and no more rows have it |
| MergeSteps.LeftStep | src/join.rs:154-160 | a left row behind what is left of the right side has no match, and is padded if the kind keeps it |
| MergeSteps.RightStep | src/join.rs:161-167 | and the other way round |
| KeyOrders.RowsSorted | src/sort.rs:42-45 | keys none of which are blurred come out sorted |
| KeyOrders.ClassSorted | src/sort.rs:42-45 | sorting keeps keys that compare equal in their order |
| KeyOrders.AlignedSorted | src/join.rs:143-146 | so whether two sides are aligned can be told before they are sorted |
| JoinBags.FlipMatches | src/value.rs:137-149 | a row matches another if and only if the other matches it under the flipped comparison, by which right rows without a match are told |
| JoinBags.LeftPermuted | src/join.rs:136-146 | the order of the left rows does not matter |
| JoinBags.RightPermuted | src/join.rs:136-146 | nor does that of the right rows |
| JoinBags.JoinPermuted | src/join.rs:136-146 | nor that of both, so sorting them first changes no bag, if the rows to pad beside are of one width |
| Calendars.CivilInverse | src/temporal.rs:64-85 | as arithmetic over all integers, every valid date is got back from its day count |
| Calendars.CivilInverseIff | src/temporal.rs:64-101 | with the count kept in 32 bits, a valid date is got back if and only if it lies from -5877641-06-23 to 5881580-07-11 |
| Calendars.CountableIffFits | src/temporal.rs:64-71 | these are exactly the dates whose day count fits 32 bits |
| Calendars.OrderOfDays | src/temporal.rs:64-85 | dates are in the order of their day counts, both ways |
| Calendars.FarDateCounterexample | src/temporal.rs:70-101 | 6000000-01-01 gets the day count -2104231824 and comes back as another date |
| Calendars.DaysInverse | src/temporal.rs:64-85 | every day count is got back from its date, which is valid |
| Calendars.NextDayIsOneMore | src/temporal.rs:64-71 | as arithmetic over all integers, the next date by the calendar's rules is one day more, so with the epoch every day count is fixed |
| Calendars.NextDayIff | src/temporal.rs:64-71 | with 32 bits the next date is one day more if and only if the count is not at its end, where it starts again |
| Calendars.CivilSteps | src/temporal.rs:73-85 | one day more is the next date by the calendar's rules |
| Calendars.Epoch | src/temporal.rs:64-71 | 1970-01-01 is day 0 |
| Calendars.WeekdaysFollow | src/temporal.rs:112-115 | weekdays follow one another, before the epoch as well, and the epoch was a Thursday |
| Calendars.AddMonthsLands | src/temporal.rs:125-132 | as arithmetic over all integers, the month that many months away, on the same day or its last one |
| Calendars.AddMonthsIff | src/temporal.rs:125-132 | for every 32-bit day and number of months, the date lands on the same day or the last one of that month if and only if that date is countable |
| Calendars.LastMonthCounterexample | src/temporal.rs:125-132 | a month after the last countable date there is no count for |
| Calendars.PartsInverse | src/temporal.rs:190-222 | as arithmetic over all integers, date and time of day take a timestamp apart, negative ones included, and building one from parts is the inverse, both ways |
| Calendars.PartsIff | src/temporal.rs:195-222 | in 64 bits a date and time of day are got back if and only if their second starts within the timestamps and they are not beyond the last one |
| Calendars.MicrosIff | src/temporal.rs:195-222 | a timestamp is got back from its parts if and only if its second starts within the timestamps |
| Calendars.FarTimeCounterexample | src/temporal.rs:210-222 | no time of day 106751992 can be built, and the least timestamp is not got back |
| Calendars.YearOfDay | src/temporal.rs:73-85 | the year formula finds the year of every day of a 400-year era |
| Calendars.YearFormula | src/temporal.rs:73-85 | what its three correction terms stand for |
| Calendars.MonthOfDay | src/temporal.rs:73-85 | the month formula finds the month of every day of the year |
| Snapshots.SnapshotStore.Write | src/snapshot.rs:64-72 | the history of all pages gains exactly this version of this page, at its end; no page changes as of any earlier version |
| Snapshots.SnapshotStore.Take | src/snapshot.rs:75-80 | a snapshot of the current version, counted |
| Snapshots.SnapshotStore.Release | src/snapshot.rs:83-90 | one holder less; the last one frees the version; releasing an unknown one changes nothing |
| Snapshots.SnapshotStore.Read | src/snapshot.rs:94-112 | the bytes as of the snapshot in the whole history of writes, for every live snapshot, whatever was collected since |
| Snapshots.SnapshotStore.OldestSnapshot | src/snapshot.rs:120-122 | the least live version, or the current one |
| Snapshots.SnapshotStore.Gc | src/snapshot.rs:127-143 | nothing a live snapshot or the present can see changes, nothing older than the oldest of them needs is left, and the count is that of the versions reclaimed |
| Snapshots.SnapshotStore.Trim | src/snapshot.rs:130-141 | one page loses exactly the versions before the last one not after the watermark |
| Snapshots.KeepFrom | src/snapshot.rs:133-136 | where the last version not after the watermark stands |
| Snapshots.StoredView | src/snapshot.rs:94-112 | for live versions the stored chains show what the whole history shows |
| Snapshots.Written | src/snapshot.rs:64-72 | a write keeps that |
| Snapshots.Collected | src/snapshot.rs:127-143 | so does collecting |
| Snapshots.SeenAppended | src/snapshot.rs:64-72 | a later version does not change what an earlier one shows |
| KeyedHeaps.PriorityQueue.Push | src/pqueue.rs:51-66 | the key has this priority, and no other key changes; that is the lower of the old and the new one if and only if the key is new or the given one is not higher |
| KeyedHeaps.PushRaises | src/pqueue.rs:51-66 | pushing a key of priority 1 with priority 2 raises it to 2 |
| KeyedHeaps.PriorityQueue.DecreaseKey | src/pqueue.rs:70-79 | true and lowered if and only if the key is there with a higher priority |
| KeyedHeaps.PriorityQueue.Pop | src/pqueue.rs:87-101 | a key of least priority, which is gone afterwards; `None` if and only if the queue is empty |
| KeyedHeaps.PriorityQueue.Remove | src/pqueue.rs:104-118 | exactly that key is gone, and its priority returned |
| KeyedHeaps.PriorityQueue.IntoSorted | src/pqueue.rs:160-166 | every entry once, by ascending priority |
| KeyedHeaps.PriorityQueue.Swap | src/pqueue.rs:153-157 | the position map keeps naming every key's place |
| KeyedHeaps.PriorityQueue.SiftUp | src/pqueue.rs:120-130 | repairs a heap that is only out of order above one entry |
| KeyedHeaps.PriorityQueue.SiftDown | src/pqueue.rs:132-151 | repairs a heap that is only out of order below one entry |
| KeyedHeaps.RootIsLeast | src/pqueue.rs:87-101 | no entry is below the first |
| KeyedHeaps.SwapUp | src/pqueue.rs:120-130 | one step up keeps all but one place in order |
| KeyedHeaps.SwapDown | src/pqueue.rs:132-151 | one step down with the smaller child does |
| KeyedHeaps.TakenOut | src/pqueue.rs:104-118 | the last entry in a removed one's place leaves that place only in doubt |
| KeyedHeaps.DrainStep | src/pqueue.rs:160-166 | popping a least entry extends an ascending list of everything popped |
| LruCaches.LruCache.constructor | src/lru.rs:37-48 | an empty recency list, of capacity at least one |
| LruCaches.LruCache.Get | src/lru.rs:112-124 | the key's value, whose entry moves to the front, or `None` and no change; the hit or miss is counted |
| LruCaches.LruCache.Put | src/lru.rs:138-165 | the entry is at the front and all others keep their order; a new key in a full cache pushes out exactly the last entry, which is returned; nothing is returned otherwise; hits and misses stay |
| LruCaches.LruCache.Remove | src/lru.rs:180-186 | exactly that entry is gone, and its value returned |
| LruCaches.LruCache.EvictLru | src/lru.rs:167-177 | exactly the last entry is gone, and returned |
| LruCaches.LruCache.KeysMru | src/lru.rs:189-198 | following the links from the head gives the keys in order of use |
| LruCaches.LruCache.AddNew | src/lru.rs:149-163 | a free slot or a new one is taken, filled and put in front |
| LruCaches.LruCache.Touch | src/lru.rs:112-120 | detaching and pushing a node moves exactly its entry to the front |
| LruCaches.LruCache.Detach | src/lru.rs:78-93 | the doubly linked list threads the others in their order |
| LruCaches.LruCache.PushFront | src/lru.rs:95-109 | the doubly linked list threads the node and then the others |
| LruCaches.KeysUnique | src/lru.rs:112-186 | no key is listed twice |
| LruCaches.Detached | src/lru.rs:78-93 | bypassing a node between its neighbours, or at an end, keeps the links of the rest right |
| LruCaches.Pushed | src/lru.rs:95-109 | so does putting one in front of the head |
| RadixTries.RadixTree.Insert | src/radix.rs:65-71 | the map has this value under the key and is otherwise unchanged; the previous value is returned |
| RadixTries.RadixTree.Get | src/radix.rs:116-131 | the map's value under the key, found by consuming edges |
| RadixTries.RadixTree.ListAll | src/radix.rs:144-161 | every pair once, keys in lexicographic order |
| RadixTries.RadixTree.WithPrefix | src/radix.rs:164-203 | exactly those pairs whose key starts with the prefix, in order, even when the prefix ends inside an edge |
| RadixTries.InsertInto | src/radix.rs:78-113 | the node's map gains the pair; edges stay non-empty, with different first bytes in order, and no node is superfluous; the count is right |
| RadixTries.SplitEdge | src/radix.rs:90-106 | an edge split at the common prefix keeps what was behind it and holds the new pair |
| RadixTries.CommonPrefix | src/radix.rs:37-43 | the length of the longest common prefix |
| RadixTries.Collect | src/radix.rs:151-161 | appends exactly the pairs of a subtree, in order |
| RadixTries.ListingSorted | src/radix.rs:144-161 | collecting gives strictly ascending keys |
| RadixTries.ListingIsLookup | src/radix.rs:116-161 | a pair is collected if and only if looking its key up finds its value |
| RadixTries.ListingCount | src/radix.rs:65-71 | there are as many pairs as the length says |
| RadixTries.StartingBelow | src/radix.rs:164-203 | the pairs with a prefix all lie below one edge |
| RadixTries.KidReplaced | src/radix.rs:78-113 | replacing the child behind an edge changes what the edge leads to, and nothing else |
| RangeSets.RangeSet.Single | src/rangeset.rs:18-31 | the numbers from one end to the other, none if the ends are the wrong way round |
| RangeSets.RangeSet.Add | src/rangeset.rs:66-96 | exactly the union with the range; the ranges stay sorted with a gap between neighbours |
| RangeSets.RangeSet.Contains | src/rangeset.rs:99-115 | the binary search decides membership |
| RangeSets.RangeSet.Union | src/rangeset.rs:118-124 | exactly the union |
| RangeSets.RangeSet.Intersect | src/rangeset.rs:127-145 | exactly the intersection, in normal form |
| RangeSets.RangeSet.Complement | src/rangeset.rs:156-173 | exactly the members of the universe outside the set, except that `i64::MAX` stays when it is in both |
| RangeSets.ComplementRightIff | src/rangeset.rs:165-169 | so it is the complement if and only if not both the universe and the set hold `i64::MAX` |
| RangeSets.ComplementOfLast | src/rangeset.rs:156-173 | the complement of the set of `i64::MAX` within the two last numbers holds both |
| RangeSets.NormalUnique | src/rangeset.rs:66-96 | a set has one normal form only |
| Intervals.NewInterval | src/interval.rs:22-28 | an interval between the two ends, whichever way round they are given |
| Intervals.IntervalTree.Build | src/interval.rs:60-68 | a tree over exactly the given intervals, by their lower ends |
| Intervals.IntervalTree.Balanced | src/interval.rs:59-68 | every way down from the root through left and right children has at most one more node than the logarithm of their number |
| Intervals.IntervalTree.BuildRange | src/interval.rs:70-95 | appends a search tree of a part of the list, every node with the largest upper end below it, and leaves the nodes before it alone |
| Intervals.IntervalTree.QueryOverlapping | src/interval.rs:108-112 | exactly the intervals that overlap the query, in sorted order, in spite of the pruning |
| Intervals.IntervalTree.QueryNode | src/interval.rs:114-134 | the same for a subtree |
| Intervals.IntervalTree.AnyOverlap | src/interval.rs:142-144 | true if and only if some interval overlaps |
| Intervals.IntervalTree.Stab | src/interval.rs:146-164 | the early exit finds an overlap if and only if there is one |
| Intervals.OverlapsIffMeets | src/interval.rs:31-38 | overlapping is having a number in common |
| Intervals.OverlappingMembers | src/interval.rs:108-134 | the brute-force filter keeps every overlapping interval as often as it is there |
| Intervals.QueryParts | src/interval.rs:114-134 | why the pruned parts hold nothing to report |
| Intervals.MaxJoined | src/interval.rs:70-95 | a node's maximum is its own end and those of its parts |
| HashIndexes.HashIndex.constructor | src/hashindex.rs:58-70 | the empty bag in at least four buckets |
| HashIndexes.HashIndex.Insert | src/hashindex.rs:96-100 | the bag has this pair once more, for any hash function |
| HashIndexes.HashIndex.InsertInto | src/hashindex.rs:102-121 | in the primary bucket or behind it |
| HashIndexes.HashIndex.InsertOverflow | src/hashindex.rs:126-158 | the first bucket of the chain with room has the pair, or a new one at its end; chains stay acyclic and disjoint |
| HashIndexes.HashIndex.Lookup | src/hashindex.rs:161-180 | every row as often as the bag pairs it with the key |
| HashIndexes.HashIndex.Remove | src/hashindex.rs:183-204 | every copy of the pair is gone and nothing else; true if and only if it was there; the length falls by one only, never below the number of pairs held |
| HashIndexes.HashIndex.Purge | src/hashindex.rs:184-200 | every copy of the pair is gone from its bucket and the chain behind it, and nothing else |
| HashIndexes.HashIndex.LengthRight | src/hashindex.rs:183-204 | whatever the run, the length is the number of pairs exactly while the copies that removals left uncounted are none; `Remove` says how many each leaves and `Rehash` that it counts anew |
| HashIndexes.HashIndex.Iter | src/hashindex.rs:207-219 | the whole bag |
| HashIndexes.HashIndex.Rehash | src/hashindex.rs:222-228 | the same bag in another number of buckets |
| HashIndexes.LengthRightIff | src/hashindex.rs:183-204 | the length is right after a removal if and only if the pair was held at most once |
| HashIndexes.RemoveMiscounts | src/hashindex.rs:183-204 | a pair inserted twice and removed once leaves nothing held and a length of one |
| HashIndexes.ChainGrown | src/hashindex.rs:102-158 | a pair put into a chain is put into the bag, and all other chains stay |
| HashIndexes.PurgedAll | src/hashindex.rs:183-204 | a pair purged from its chain is gone from the bag, and nothing else is |
| HashIndexes.AtHome | src/hashindex.rs:161-180 | a key's pairs are all in its bucket's chain |
| CsvRecords.ParseRecords | src/csvio.rs:55-124 | the loop reads exactly the records the round trip is about, with the header and each error; with a header the first record is the header and the others the rows, without one all are rows |
| CsvGrammar.RecordsIff | src/csvio.rs:55-124 | a text is read as some records if and only if it is that of lines with these records: cells with a quoted part or none, any line ends, a last line with or without one, empty lines left out |
| CsvGrammar.AnyLineEnds | src/csvio.rs:90-106 | rows written with any mixture of line feeds, carriage returns and both are read as the rows that are not blank |
| CsvGrammar.OpenIsRefused | src/csvio.rs:107-112 | a quoted part that is never closed is an error with the number of records before it |
| CsvGrammar.FileRead | src/csvio.rs:55-124 | the text of lines is read as their records |
| CsvGrammar.FileOf | src/csvio.rs:55-124 | whatever is read is the text of lines |
| CsvGrammar.CellRead | src/csvio.rs:68-106 | a cell is read as its quoted part with quotes undoubled and what follows it |
| CsvGrammar.EndRead | src/csvio.rs:90-101 | each line end ends the record, a carriage return together with a line feed behind it |
| CsvRecords.WriteRows | src/csvio.rs:292-300 | the rows' texts, one after the other |
| CsvRecords.WriteRow | src/csvio.rs:313-337 | appends the row's text, cells quoted where they must be |
| CsvRecords.WriteCell | src/csvio.rs:320-334 | a quoted cell with its quotes doubled, or the cell as it is |
| CsvRecords.WrittenIsRead | src/csvio.rs:55-337 | reading what was written gives the rows back if and only if none is blank, that is of no cells or of a single empty one; such rows, and only they, are lost |
| CsvRecords.BlankRowCounterexample | src/csvio.rs:55-337 | a row of one empty cell is lost, and so is a row of no cells |
| CsvRecords.RoundTripsIffSane | src/csvio.rs:55-337 | among ASCII delimiters and quotes, those that are different and not a line feed are exactly the ones under which all rows that are not blank are read back |
| CsvRecords.EmptyTwice | src/csvio.rs:55-337 | under any others a row of two empty cells is not |
| CsvRecords.ReadRows | src/csvio.rs:55-337 | the same behind any rows already read |
| CsvRecords.ReadCells | src/csvio.rs:55-337 | a row's text is read as its cells |
| CsvRecords.ReadCell | src/csvio.rs:55-337 | a cell's text is read as the cell, whatever delimiters, quotes and line ends it holds |
| JsonText.PrintedIsRead | src/json.rs:46-55 | a document printed in either form is read back if and only if it is nested no deeper than 128; a deeper one is refused for that reason |
| JsonText.AnyOrderIsRead | src/json.rs:337-366 | the text of any value, its objects' fields in any order and with repeated keys, compact or pretty, is read as what it means, or refused as too deep |
| JsonText.FieldsAreRead | src/json.rs:337-366 | of an object that is the sorted list of fields which gives each listed key its last value and no other key |
| JsonText.PutGets | src/json.rs:356-356 | inserting a field gives its key the new value, leaves every other key what it had and keeps the order |
| JsonText.PutAllGets | src/json.rs:350-363 | so inserting a list of fields gives each key the last value listed |
| JsonText.SortedUnique | src/json.rs:337-366 | there is one sorted list with given values under its keys |
| JsonText.KeyLessIs | src/json.rs:337-366 | keys are in the order of their first different characters, a prefix first |
| JsonGrammar.DocumentIff | src/json.rs:46-55 | a document is read as a value if and only if it is derived by the grammar of RFC 8259 (white space anywhere between tokens, every escape, fields in any order), nested at most 128 deep, and that is what it means |
| JsonGrammar.DeeperIsRefused | src/json.rs:337-341 | a deeper one is refused as too deep |
| JsonGrammar.TreeRead | src/json.rs:315-393 | the text of every syntax tree is read as what the tree means, whatever white space it holds |
| JsonGrammar.TreeOf | src/json.rs:315-393 | whatever is read is the text of a syntax tree |
| JsonGrammar.PieceRead | src/json.rs:395-461 | each way to write a character in a string is read as that character |
| JsonGrammar.PiecesOf | src/json.rs:395-461 | whatever is read as a string is made of such pieces |
| JsonGrammar.PairRead | src/json.rs:413-429 | two surrogates are read as the character they encode |
| JsonGrammar.UnitRead | src/json.rs:413-434 | one code unit is read as its character, a lone low surrogate as the replacement character |
| JsonGrammar.QuadRead | src/json.rs:463-476 | four hexadecimal digits in either case are read as their number, and nothing else is |
| JsonGrammar.LetterRead | src/json.rs:403-412 | which letters stand behind a backslash, and for what |
| JsonGrammar.NumRead | src/json.rs:505-544 | digits behind an optional sign are read as the number they stand for |
| JsonText.DeepCounterexample | src/json.rs:315-326 | 129 arrays inside one another are printed but refused when read, 128 are read back |
| JsonText.ValueBack | src/json.rs:139-223 | a printed value is read back at any depth and before whatever may follow it |
| JsonText.StringBack | src/json.rs:242-258 | a string's text is read back, whatever quotes, backslashes and control characters it holds |
| JsonText.NumberBack | src/json.rs:231-240 | an integer's text is read back |
| JsonParsers.Parser.ParseValue | src/json.rs:315-326 | the cursor's parser returns what reading the text gives, value or error, stops right behind it and restores the depth |
| JsonParsers.Parser.ParseArray | src/json.rs:368-393 | so it does for an array |
| JsonParsers.Parser.ParseObject | src/json.rs:337-366 | for an object, whose later equal keys replace earlier ones |
| JsonParsers.Parser.ParseString | src/json.rs:395-461 | for a string |
| JsonParsers.Parser.ParseEscape | src/json.rs:403-431 | for an escape |
| JsonParsers.Parser.ParseUnicode | src/json.rs:413-428 | for a code point or its two halves |
| JsonParsers.Parser.ParseHex4 | src/json.rs:463-476 | for four hexadecimal digits |
| JsonParsers.Parser.ParseNumber | src/json.rs:505-544 | for an integer, whose value is kept exact |
| JsonParsers.Parse | src/json.rs:46-55 | the whole document, with nothing but white space behind it |
| JsonParsers.Writer.WriteCompact | src/json.rs:153-183 | appends the compact text the round trip is about |
| JsonParsers.Writer.WritePretty | src/json.rs:185-223 | appends the indented text the round trip is about |
| JsonParsers.Writer.WriteString | src/json.rs:242-258 | appends the quoted and escaped string |
| JsonParsers.WriteThenParse | src/json.rs:46-223 | writing and parsing gives the value back unless it is nested deeper than 128 |
| Patterns.MatchesLike | src/pattern.rs:28-57 | a LIKE pattern matches a text if and only if the text falls into pieces that its characters, read one by one, stand for |
| Patterns.MatchesGlob | src/pattern.rs:97-127 | so does a glob, classes included |
| Patterns.WildcardMatch | src/pattern.rs:60-79 | the backtracking matcher decides that for the rest of the tokens and of the text |
| Patterns.CompileLike | src/pattern.rs:28-51 | no two runs in a row are left, and the texts matched stay the same |
| Patterns.CompileGlob | src/pattern.rs:97-121 | the same for globs |
| Patterns.Collapse | src/pattern.rs:40-45 | two runs in a row stand for the same texts as one, in any context |
| Patterns.ParseClass | src/pattern.rs:130-159 | the loop reads the class's ranges up to its bracket or the end |
| Patterns.IsMatch | src/pattern.rs:257-268 | a regular expression is found if and only if its atoms stand for some stretch of the text, from its start and up to its end where anchored |
| Patterns.MatchFrom | src/pattern.rs:274-297 | taking greedily and giving back finds a stretch if and only if there is one |
| Patterns.CompileRegex | src/pattern.rs:214-254 | the loop reads the anchors and atoms of the expression |
| Patterns.ParseKind | src/pattern.rs:224-242 | one atom's characters |
| PatternTexts.LikeMeans | src/pattern.rs:28-57 | a LIKE pattern, as it is written, matches exactly the texts that can be cut into parts for which its characters stand: themselves, any one, or any number; a backslash at its end stands for itself |
| PatternTexts.LikeWritten | src/pattern.rs:28-51 | every LIKE pattern is written so |
| PatternTexts.GlobMeans | src/pattern.rs:97-127 | the same for globs whose classes are closed; a backslash at the end is dropped |
| PatternTexts.ClassBack | src/pattern.rs:130-159 | a class is read as the characters and spans written between its brackets, negated by a mark in front; a last hyphen is itself |
| PatternTexts.RegularMeans | src/pattern.rs:214-268 | a regular expression is found exactly where its atoms, starred or not, stand for a stretch of the text, at the start behind a caret and at the end before a dollar sign |
| PatternTexts.SpellsIfMeant | src/pattern.rs:161-189 | tokens spell exactly the texts that what they were written as stands for |
| VersionChains.VisibleFor | src/txn.rs:350-357 | the loop finds the first version a view may see |
| VersionChains.CommitVisible | src/txn.rs:407-431 | a committed version is visible if and only if its commit is the row's last one up to the snapshot; the check against the transactions active then adds nothing |
| VersionChains.ReadsSnapshot | src/txn.rs:350-431 | reading the chain gives the reader's own newest write or else what the whole history had committed as of the snapshot, whatever was collected since |
| VersionChains.ReadsDirty | src/txn.rs:350-431 | a dirty read gives the topmost uncommitted version, whoever wrote it, unless the last version committed when the reader began stands above it; else what the whole history had committed then |
| VersionChains.ReadsOwn | src/txn.rs:350-431 | at any level but read uncommitted, a reader with an intent sees that intent if and only if the version of the last commit up to its snapshot does not stand above it; otherwise it sees what was committed as of the snapshot |
| VersionChains.Finalizes | src/txn.rs:978-1005 | the newest intent becomes the row's last commit and closes the one before, wherever in the chain the two stand |
| VersionChains.OneCurrent | src/txn.rs:993-1000 | a chain has at most one current version, the row's last commit |
| VersionChains.Pushed | src/txn.rs:319-321 | a new intent is its writer's newest and no one else's |
| VersionChains.Removed | src/txn.rs:1343-1354 | taking out an intent leaves the committed versions in step with the history |
| VersionChains.Retained | src/txn.rs:1535-1549 | so does dropping versions closed before a time no view goes back to |
| VersionChains.QuietSame | src/txn.rs:56-59 | a row without commits between two times is the same at both |
| TxnStates.CouldRunAtCommit | src/txn.rs:56-59 | for a committed serializable transaction: no row it ever read was committed by another while it ran if and only if that holds of the rows its read set has lost; and what it saw of any row, but for lost ones that were committed meanwhile, is what was committed just before its own commit: it could have run at that moment |
| TxnStates.SerializableOverwritesNone | src/txn.rs:56-59 | no serializable transaction has committed a write over a commit made since it began |
| TxnStates.OneWriter | src/txn.rs:61-68 | two active transactions have both written a row only if one of them gave up its lock on it in one of the two ways below |
| TxnStates.WhatIsSeen | src/txn.rs:1059-1076 | with a view fixed at begin, or holding the row's lock, a transaction sees its own newest write or else what was committed as of its snapshot |
| TxnStates.WhatIsSeenDirty | src/txn.rs:1059-1076 | in any reachable state and on any chain, a dirty read sees the topmost uncommitted version if no version of the last commit up to its begin stands above it, and what was committed at its begin otherwise |
| TxnStates.DirtyReadIff | src/txn.rs:48-49 | it sees the newest version if and only if that is uncommitted or was current when it began |
| TxnEnds.CommittedRows | src/txn.rs:949-974 | committing keeps every chain in step with the history, which gains one commit for each row written |
| TxnEnds.CommittedSerial | src/txn.rs:949-974 | nothing a committed serializable transaction has in its read set or under a predicate was committed while it ran; later commits change for no row, lost or not, whether that is so |
| TxnEnds.UndisturbedIff | src/txn.rs:56-59 | when a transaction commits, no row it ever read was committed since it began if and only if none of the rows its read set has lost was |
| TxnEnds.CommittedSeen | src/txn.rs:949-974 | what a transaction with a fixed view saw earlier stays what was committed as of its snapshot |
| TxnEnds.ConflictIff | src/txn.rs:1421-1433 | a row's chain shows a conflicting version if and only if the row was committed since the transaction began; collecting does not hide it |
| TxnEnds.StampedIff | src/txn.rs:945-948 | committing leaves no version of the transaction uncommitted if and only if its undo log has every row once at most |
| TxnEnds.OverwroteIff | src/txn.rs:53-59 | a commit is made over one since the transaction began if and only if some row of its write set was committed since |
| TxnEnds.UndoneLocks | src/txn.rs:1342-1370 | undoing a write makes its row's lock loose if and only if the transaction still has intents there |
| TxnEnds.HolderLeaves | src/txn.rs:1132-1167 | when a holder gives up a lock only active transactions hold it still, and one that may write holds it alone |
| TxnEnds.HoldersLeave | src/txn.rs:1132-1150 | so it is of all locks once a transaction has ended |
| TxnEnds.SweptRows | src/txn.rs:1529-1554 | collecting keeps the chains in step with the history for every view there is and will be |
| TxnSteps.SeesRight | src/txn.rs:48-59 | a look at a row shows exactly what this says for each isolation level: at read uncommitted on every chain; at read committed the own newest write unless a commit covers it, which takes a lock given up early, else what is committed now; at the others the own newest write or what was committed at begin |
| TxnSteps.ReadRecalls | src/txn.rs:1059-1066 | a read puts its row into the read set, whether it was lost before or not, and loses no other |
| TxnSteps.CutRecalls | src/txn.rs:1314-1317 | rolling back to a savepoint loses exactly what was read since, but for rows under a predicate |
| TxnSteps.SweptViews | src/txn.rs:1529-1554 | collecting takes no version that the view of an active transaction shows |
| TxnSteps.SweptExactly | src/txn.rs:1529-1554 | what collecting leaves is exactly what is not committed, is current, or was current at the snapshot of some active transaction or later |
| TxnSteps.SavepointsKept | src/txn.rs:1290-1308 | rolling back to a savepoint keeps it, all earlier ones and of the later ones exactly those with no write in between |
| TxnSteps.CanLockIff | src/txn.rs:1084-1096 | the test for the lock to write passes if and only if no other active transaction holds the row |
| TxnSteps.GoesThroughIff | src/txn.rs:1190-1258 | a write goes through if and only if its transaction is active, no other active one holds the row, and the row is there to be changed, or not there to be inserted |
| TxnSteps.HoldersUnlocked | src/txn.rs:1361-1369 | undoing writes leaves no lock with one who has ended, and none for writing that is shared |
| Transactions.TxnManager.constructor | src/txn.rs:790-803 | no transactions, no rows |
| Transactions.TxnManager.Begin | src/txn.rs:900-912 | a new transaction with a view of this moment |
| Transactions.TxnManager.Prepare | src/txn.rs:929-938 | a live transaction is prepared and stays live |
| Transactions.TxnManager.Read | src/txn.rs:1059-1076 | the value `SeesRight` says; the read is recorded, and its row counts again if the read set had lost it |
| Transactions.TxnManager.LooksRight | src/txn.rs:44-59 | the same for any look at a row in any reachable state, at every isolation level |
| Transactions.TxnManager.AcquireExclusive | src/txn.rs:1083-1109 | granted if and only if no other active transaction holds the row; the transaction then holds it alone |
| Transactions.TxnManager.AcquireShared | src/txn.rs:1112-1128 | granted if and only if no one else holds the row exclusively |
| Transactions.TxnManager.AcquireLock | src/txn.rs:1171-1178 | either, for live transactions: the lock to write if and only if no other active transaction holds the row, and so whenever all who held it have ended |
| Transactions.TxnManager.ReleaseOneLock | src/txn.rs:1154-1167 | the transaction does not hold the row any more and everyone else holds what they held; the row becomes loose if the transaction has intents there |
| Transactions.TxnManager.Attempt | src/txn.rs:1190-1244 | why a write is refused, in this order: no live transaction, the row locked by another, the row missing or there |
| Transactions.TxnManager.Intend | src/txn.rs:1197-1209 | the row has one more intent of this transaction on top, recorded in its undo log |
| Transactions.TxnManager.Insert | src/txn.rs:1190-1210 | goes through if and only if the transaction is active, no other active one holds the row and the row is not there for it; one write more, or none |
| Transactions.TxnManager.Update | src/txn.rs:1214-1234 | goes through if and only if the transaction is active, no other active one holds the row and the row is there; if it is not, the lock is given up, whatever else the transaction wrote there |
| Transactions.TxnManager.Delete | src/txn.rs:1238-1258 | the same, leaving a tombstone |
| Transactions.TxnManager.SetSavepoint | src/txn.rs:1272-1288 | a savepoint of the writes and reads so far, under a new name |
| Transactions.TxnManager.ReleaseSavepoint | src/txn.rs:1322-1331 | that savepoint goes, no other |
| Transactions.TxnManager.RollbackToSavepoint | src/txn.rs:1293-1319 | exactly the writes after the savepoint are undone, for any mix of rows; the locks of their rows are given up, also where earlier writes remain; the reads after it are forgotten, and the read set has lost exactly these but for rows under a predicate |
| Transactions.TxnManager.UndoTo | src/txn.rs:1302-1313 | undoing one mutation after the other takes exactly the transaction's newest intents off its rows |
| Transactions.TxnManager.UndoLast | src/txn.rs:1342-1370 | the same for one |
| Transactions.TxnManager.UndoOne | src/txn.rs:1342-1370 | on the row's chain and lock entry |
| Transactions.TxnManager.AddPredicateLock | src/txn.rs:1377-1399 | the rows count as read, also those the read set had lost |
| Transactions.TxnManager.SerializableConflict | src/txn.rs:1409-1435 | some row read or locked by a predicate that was committed since the transaction began, if and only if there is one |
| Transactions.TxnManager.Commit | src/txn.rs:949-974 | a live transaction is refused if and only if it is serializable and a row of its read set or under a predicate was committed since it began, and is then rolled back; otherwise every row it wrote gains exactly one commit, of its last write there, at one new time; no version of it stays uncommitted if and only if it wrote no row twice; it overwrites a commit since its begin if and only if some row of its write set was committed since; and if it is serializable, no row it ever read was committed since it began if and only if none of those its read set has lost was; either way it holds no lock afterwards, and everyone else what they held |
| Transactions.TxnManager.Publish | src/txn.rs:958-973 | the same once there is no conflict |
| Transactions.TxnManager.FinalizeWrite | src/txn.rs:978-1005 | the first current version is closed and the writer's newest intent becomes current |
| Transactions.TxnManager.ReleaseLocks | src/txn.rs:1132-1150 | on every row the transaction holds nothing, shared or exclusive, and everyone else what they held |
| Transactions.TxnManager.StripWriterVersions | src/txn.rs:1033-1043 | the row loses exactly what the writer has not committed |
| Transactions.TxnManager.Rollback | src/txn.rs:1009-1029 | the rows written lose exactly what the transaction has not committed, it holds no lock and everyone else what they held, and it counts as aborted, committed or not |
| Transactions.TxnManager.OldestActiveSnapshot | src/txn.rs:1513-1523 | the least snapshot of any active transaction |
| Transactions.TxnManager.Sweep | src/txn.rs:1531-1554 | every chain keeps exactly its intents, its current version and what was closed at that snapshot or later; the count is that of the versions gone |
| Transactions.TxnManager.GarbageCollect | src/txn.rs:1529-1561 | no active transaction sees any row differently, exactly the versions stay that are uncommitted, current or needed for some active snapshot, and the collected ones are counted |
| Transactions.DirtyReadVanishes | src/txn.rs:48-49 | a row inserted and committed by another is not seen by a dirty read that began before, although it is the newest version |
| Transactions.LeftoverSeen | src/txn.rs:945-948 | after a commit that wrote a row twice, and a garbage collection, a dirty read still sees the first of the two values, which was never committed |
| Transactions.LostWrite | src/txn.rs:53-55 | a repeatable-read transaction commits its write over a commit it did not see |
| Transactions.ForgottenRead | src/txn.rs:56-59 | a serializable transaction reads a row after a savepoint, rolls back to it and commits, although the row was committed since it began and it had been told otherwise |
| Transactions.OwnWriteCovered | src/txn.rs:373-374 | at read committed a transaction with a write of its own on a row sees the commit of another one instead |
| Transactions.PreparedRefused | src/txn.rs:160-163 | a prepared serializable transaction, which has promised to commit, is refused |
| Transactions.BothWrite | src/txn.rs:1293-1370 | after undoing its second write of a row a transaction still has its first one there, and another can write the row too |
| Transactions.BothWriteAfterDelete | src/txn.rs:1214-1220 | so can it after the first has deleted a row it inserted and then tried to update it |
| Transactions.AbortedYetCommitted | src/txn.rs:1007-1029 | a committed transaction that is rolled back counts as aborted while its commit stays |
| Transactions.LaterSavepointStays | src/txn.rs:1290-1308 | a later savepoint with nothing written in between survives rolling back to the earlier one |

## Left out

- IntCodecs.ForRoundTrip: an addition that overflows is an outcome of its own; a nine-byte frame-of-reference buffer, on which the source indexes past the end, is an error in the model; widths over 64 are refused.
- IntCodecs.RunDecodeInts: the null-suppressed tag, which the encoder of lists of integers never writes, is refused.
- IntCodecs.RunDecodeFor: widths over 64 are refused.
- IntCodecs.RunDecodeBitPacked: widths over 64 are refused.
- BTrees.BTree.Insert: page numbers and the height are unbounded; encoding a node to bytes, `len` and the node's own copy of its number are not modelled. Removing does not merge nodes, so the fill of nodes is stated for trees that only grew.
- DisjointSets.DisjointSet.Union: ranks and sizes are unbounded where the source has 8 and 32 bits.
- LoserTrees.MergeRuns: which of several runs with equal heads goes first is not stated.
- Storage.Database.Insert: RLE columns must be given non-null values of their kind, because their runs cannot hold anything else (`Formats.RunsComeBackIff`); secondary indexes, zone maps, the per-page row lists and statistics are not modelled; a table with an RLE column has fewer than 2^32 slots, and apart from that numbers of rows and pages are unbounded.
- Storage.Database.InsertRow: the same holds of RLE columns, here and below.
- Storage.Database.AppendRow: the same.
- Storage.Database.RewriteCell: the same.
- Storage.Database.UpdateWhere: the same.
- Pages.AppendCell: the same.
- CellUpdates.SetCell: the same.
- CellUpdates.RewriteRegion: the same.
- Storage.Database.CollectMatching: the path through a secondary index is not modelled.
- Formats.RegionSurvives: how a real is laid out in eight bytes is an arbitrary one-to-one code with zero as all zero bits.
- Storage.Database.Merge: the list of free pages in the free-space map, which nothing reads when pages are chosen, is not modelled.
- Storage.Database.Compact: ghost results record the pages of the pass and its intermediate states.
- Optimizer.OptimizePreserves: the operators other than scan, filter and project are arbitrary functions of their inputs; predicates are of boolean type, as `IntegerPredicateCounterexample` shows they must be.
- ExprVm.CompileAndEval: reals are exact numbers, so NaN, infinities, negative zero and the rounding of real arithmetic are not modelled; integers that meet reals are rounded as the source does; negating or dividing the smallest integer by -1, which stops a debug build, is a distinct outcome.
- Values.TotalCmpOrders: NaN, infinities and negative zero are not modelled.
- Joins.NestedLoopJoin: NaN and negative zero as keys are not modelled.
- Joins.HashJoin: the bytes by which a key is hashed stand for the key; the same keys are left out.
- MergeJoins.SortMergeJoin: keys two integers of which round to a third key are left out, as they are not in order and the standard sort promises nothing for them; rows of a side that is padded for are of one width. For Semi and Anti alignment is enough but not needed (`JoinsAgree.SwappedMatches`), and when else the bags are equal is not stated.
- JoinsAgree.AllAgree: the same; what the nested loops return is compared, for LeftOuter and FullOuter, on left rows of one width.
- SkipLists.SkipList.Insert: the random level is a parameter.
- RadixSorts.SortPairs: the model returns whichever of the two buffers ends up holding the result instead of swapping it back into the caller's vector.
- RadixTries.RadixTree.Insert: nodes are values, as each is owned by its parent; `node_count` is not modelled.
- RangeSets.RangeSet.Union: cardinality and overlap tests are not modelled.
- Intervals.IntervalTree.Build: at most 2^31 - 1 nodes, as node numbers are 32-bit integers.
- HashIndexes.HashIndex.Insert: the hash function is arbitrary; encoding to bytes is not modelled.
- CsvRecords.WrittenIsRead: a character stands for its UTF-8 bytes; delimiters and quotes that are not ASCII are not modelled; neither are header handling on export, type inference and typed import.
- JsonText.PrintedIsRead: numbers are integers, and fractions and exponents an error; line and column of errors and the accessors are not modelled; objects hold their fields by ascending key.
- JsonText.ValueBack: the same.
- JsonText.NumberBack: the same.
- JsonParsers.Parser.ParseNumber: integers beyond 2^53, which the source rounds to the nearest double, are kept exact; fractions and exponents are an error.
- JsonParsers.WriteThenParse: the same.
- Calendars.AddMonthsIff: intermediate years beyond 32 bits, which stop a debug build, have no result in the model; parsing and formatting of dates are not modelled.
- Transactions.TxnManager.Commit: the clock and the numbers of transactions are unbounded; the write-ahead log, recovery from it, checkpoints, counters and the manager's list of predicate locks, which the conflict check does not read, are not modelled.
- Transactions.TxnManager.AcquireExclusive: the wait-for graph that a refused lock adds to, and the search for deadlocks in it, are not modelled.
- Sorting by the standard library is modelled by its contract, and so is binary search in a vector where the source uses it.
- The source's errors for a vanished page or an undecodable body cannot arise in the model, whose pages are kept decoded; `Formats` proves that decoding their bytes gives them back.
- Not modelled because they would add only more of the same kind, or easier members: roaring bitmaps, front coding, decimals, fingerprints, dictionaries, external sorting.
- Not modelled: the WAH bitmap, the index cache of src/index.rs, whole-file encoding, the query planner of src/plan.rs, SQL and script parsing, estimators and sketches, sessions and diagnostics.
