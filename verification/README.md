# A verified model of the spatial engine's core

The engine opens GeoParquet files through DuckDB, admits them (identity, CRS, names, attributes),
streams features for a viewport and can narrow a viewport query with a spatial index. This project
models the parts of the `engine` crate where several pieces of code have to agree, and proves that
they do.

| file | what it models |
|---|---|
| `CancelProtocol.dfy`, `CancelOutcomes.dfy` | one cancellation token: cancellers, guarded sessions, the re-interrupter, and DuckDB as the environment |
| `Grid.dfy`, `SpatialIndex.dfy`, `Candidates.dfy` | the grid index: bucketing, the cancellable build, the candidate query |
| `IdRanges.dfy`, `Narrowing.dfy` | range compression and the planner's use of the index |
| `IndexCaching.dfy` | the index cache, `build_index` and `admitted_index` |
| `SchemaTree.dfy`, `CoveringPaths.dfy` | the file's name tree, the aligned covering walk, the geometry column |
| `OffsetArrays.dfy`, `GeometryArrays.dfy`, `BatchBounds.dfy` | GeoArrow offset arrays, their builders, a batch's bounds |
| `Projection.dfy`, `CrsAdmission.dfy`, `Identity.dfy`, `Descriptor.dfy` | admission decisions |
| `FooterNames.dfy`, `CoveringStatistics.dfy`, `MisleadingNames.dfy` | the footer-statistics level of the sanity check: which columns it takes, what it folds, what a conviction means |
| `Columns.dfy`, `Floats.dfy`, `Boxes.dfy`, `Options.dfy` | column names, doubles without rounding, boxes, optional values |

**Form.** The cancellation token is a step machine rather than a class, because what matters is every
interleaving of its atomic operations: each load, store, swap, lock, unlock and interrupt of the source
is one step, any number of cancellers and sessions take part, and DuckDB may clear its own interrupt
flag at any moment. A query may poll, return or unwind whenever it likes, and the operating system may
refuse the re-interrupter thread. The index cache is a class; the loops of the source are methods
proved against functions on values; the pure decisions are functions.

**Environment.** What DuckDB, Arrow, the file system and SHA-256 do enters as parameters or as stated
assumptions: `count(DISTINCT c)` ignores NULL, a comparison with NULL is not true, NaN sorts above every
number in SQL, row-group statistics are attained by a row, Arrow arrays
have valid offsets, a file does not change while one call reads it, and the hash is an arbitrary
function. A cancel is an instant counted in units of work, reads or chunks, quantified over all
instants.

## Where the code and its documentation differ

The model follows the code in each case.

- *"A wrong index costs time, not correctness"* (`engine/README.md:230-236`, `engine/src/stream.rs:1533-1539`).
  Candidate ranges are joined to the bbox predicate with `AND`, so an index of other rows can drop a
  feature: `Narrowing.AStaleIndexDropsAFeature`, reached by the run in
  `IndexCaching.RewrittenInPlaceRun`. `Narrowing.PlanQuery` says exactly when the planned statement
  returns the scan's rows, for every index, file and view: when the planner cannot narrow, or every row
  the scan returns has an id the index knows in the view.
- *Keeping both predicates makes the result set provably identical* (same places). Even an index of the
  file's own rows can drop a row: the build reads id slots without their validity
  (`engine/src/index.rs:494-496`), so a NULL id, possible where the caller skipped the uniqueness check
  (`engine/src/dataset.rs:1980-1989`), is indexed as whatever its slot holds, and a range predicate on
  NULL is not true. The unnarrowed stream is refused for such a row (`engine/src/stream.rs:2658-2673`);
  the narrowed one is delivered without it: `Narrowing.AFreshIndexDropsANullId`, `Narrowing.NullIdRun`.
  `Narrowing.AFreshIndexIsExactWhen` is the exact condition, and `Narrowing.VerifiedIdentityKeepsTheAnswer`
  shows that a verified identity meets it.
- *A stale index cannot serve a newer revision* (`engine/src/index.rs:676-679`). `build_index` does compare
  a fresh content hash, but `admitted_index` rebuilds the key from the hash the cached entry itself
  recorded (`engine/src/dataset.rs:827-838`), so a file rewritten to the same length within its timestamp
  is served the old index: `IndexCaching.AdmissionIgnoresContent`, `IndexCaching.AdmittedIndexCanBeStale`.
  `IndexCaching.ServedIsCurrentWhen` says exactly when the served entry is the index of the file as it is
  now: where differing contents differ in the indexed columns, when the recorded hash is the file's own.
  A stream also compares the source with what was observed at open (`engine/src/stream.rs:1185-1192`), so a
  dataset opened before the rewrite is refused unless its footer is unchanged too; the cache is
  process-wide, and a dataset opened after the rewrite is served. `IndexCaching.IndexCache.Consult` is the
  composed condition and `IndexCaching.RewrittenInPlaceRun` shows both.
- *Rendered paths are normalised to one segment spelling, and a path that cannot be matched only lowers the
  level* (`engine/src/dataset.rs:1757-1761`). The match is of text. A column named `bbox.xmin` is taken for
  the path `["bbox", "xmin"]`, so an open can be refused though every row lies in the domain:
  `FooterNames.DottedNameIsTaken`, `MisleadingNames.DecoyRun`. And a covering declared in another ASCII case,
  or with a comma or blank in a segment, resolves but loses its statistics: `FooterNames.OwnIsFoundWhen`,
  `MisleadingNames.RespelledRun`. `CoveringStatistics.ConvictedExactlyWhen` says over all leaf columns of a
  file exactly what convicts, and `CoveringStatistics.NoForeignWhen` when only the covering's own columns
  can.
- *A non-finite coordinate suppresses the bound* (`engine/src/envelope.rs:394-397`). Infinities do; NaN is
  skipped by `f64::min` and `f64::max`: `BatchBounds.ANaNIsSkipped`, and the exact condition in
  `BatchBounds.XyBounds`.
- *`None` when the array is none of these* (`engine/src/geoarrow.rs:517-519`). The width of the fixed-size
  list is not looked at, so triples are read as pairs: `OffsetArrays.ATripleIsMisread`, with the exact
  condition in `OffsetArrays.CoordinateValuesIsTheWalk`. All five encodings are pairs.
- `compress_to_ranges` computes `hi + 1` in `u64`. It leaves the type exactly when the largest `u64`
  occurs twice and the limit has not ended the loop before the second one, which distinct ids rule out:
  `IdRanges.Compress`.

## Model

| member | source | states |
|---|---|---|
| `CancelProtocol.StepKeepsInv` | engine/src/cancel.rs:132-213 | every step of every thread, and every move of DuckDB, keeps the protocol's invariant: mutual exclusion, one bound session, the window flag, and a running query under a raised flag is still covered by the first canceller, the re-interrupter or a refused spawn |
| `CancelProtocol.RunKeepsInv` | engine/src/cancel.rs:132-278 | the invariant holds after every finite run of steps |
| `CancelProtocol.NoCancelIsLost` | engine/src/cancel.rs:193-213 | in every run a session ends `Cancelled` exactly when the flag went up before its last check; the guard never answers `Ok` if the flag went up before its read after the closure, and never invents a cancel |
| `CancelOutcomes.ResultsAreTheClosures` | engine/src/cancel.rs:193-213 | in every run the guard says `Err` exactly when the closure failed, `Ok` exactly when it returned `Ok` with no cancel before the guard's read, `Cancelled` otherwise; the outcome is the closure's exactly when no cancel came before the last check; what the closure returned is read off the run's events |
| `CancelProtocol.ARunningQueryIsCovered` | engine/src/cancel.rs:132-177 | whenever a closure runs with the flag up, the call that raised it has not returned, or the re-interrupter is in its loop with the slot naming the running connection, or the thread was refused |
| `CancelOutcomes.GrantedMeansCovered` | engine/src/cancel.rs:146-176 | where the operating system grants every thread, only the first two cases remain |
| `CancelProtocol.OneReinterrupter` | engine/src/cancel.rs:146-176 | at most one re-interrupter per token, and it leaves its loop only when no closure is running |
| `CancelProtocol.OneSessionBound` | engine/src/cancel.rs:250-278 | two sessions are never bound at once; the window flag is up exactly while a bound session's window is open, an unwinding closure included |
| `CancelProtocol.InterruptsAreAttached` | engine/src/cancel.rs:136-144 | whoever interrupts a connection, a session is attached with it at that moment |
| `CancelOutcomes.InterruptsAreRaised` | engine/src/cancel.rs:136-144 | each of the three interrupting places leaves the connection's flag up, and nothing else puts one up |
| `CancelOutcomes.AttachesAsTheTokenStands` | engine/src/cancel.rs:250-268 | an `attach` under a raised flag interrupts before it binds, and is refused exactly when another session is bound |
| `CancelProtocol.NoInterruptAfterDetach` | engine/src/cancel.rs:270-278 | in every run, nothing interrupts a connection once its session's `detach` has returned, until another session attaches with it |
| `CancelProtocol.NothingStartsAfterCancel` | engine/src/cancel.rs:193-200 | no closure starts once the flag is up |
| `CancelProtocol.SurvivalCostsClears` | engine/src/cancel.rs:157-175 | a query outlives a polled tick of the re-interrupter only if DuckDB cleared its own flag in between; counted over any run |
| `CancelProtocol.EnoughTicksEndTheQuery` | engine/src/cancel.rs:157-175 | if DuckDB clears its flag at most `k` more times, `k + 1` polled ticks end the query |
| `CancelProtocol.ATickIsAlwaysNear` | engine/src/cancel.rs:157-175 | from every state in which a query still has to be reached, at most five steps of existing threads lead to a tick: the mutex never blocks it |
| `CancelOutcomes.SessionsEnd` | engine/src/cancel.rs:193-278 | every step brings a session nearer its end, which is a result, a refused `attach` or an unwound closure |
| `CancelOutcomes.TheReinterrupterEnds` | engine/src/cancel.rs:157-175 | with no window open, every step brings the re-interrupter nearer its end |
| `CancelOutcomes.SomeoneMoves` | engine/src/cancel.rs:132-278 | no deadlock: while a session is neither over nor in its closure, it or the holder of the mutex can move |
| `IdRanges.Compress` | engine/src/index.rs:729-752 | `None` exactly when the runs exceed the limit, otherwise exactly the maximal runs; `hi + 1` leaves `u64` exactly when the largest `u64` occurs twice and the runs up to its first occurrence are within the limit plus one, so never for distinct ids |
| `IdRanges.TwoMaximaOverflow` | engine/src/index.rs:729-752 | the smallest list on which it does, under the engine's own limit |
| `IdRanges.RunsDenote` | engine/src/index.rs:723-752 | the union of the ranges is exactly the ids, for every list |
| `IdRanges.RunsSeparated` | engine/src/index.rs:729-752 | for distinct ids the ranges are sorted, disjoint and non-adjacent |
| `IdRanges.RangesAreOptimal` | engine/src/index.rs:723-752 | no list of ranges naming exactly the ids is shorter |
| `Grid.AxisCellMonotone` | engine/src/index.rs:757-764 | clamped bucketing never goes back along an axis |
| `Grid.CellIsItsStretch` | engine/src/index.rs:757-764 | outside the extent the first or last cell; inside it, the cell whose 255th of the extent holds the coordinate |
| `Grid.RectIsTight` | engine/src/index.rs:399-401 | a feature's cell rectangle holds the cell of every point of its bbox, and its corners are such cells |
| `Boxes.IntersectsExactlyWhen` | engine/src/index.rs:540-560 | the query's test holds exactly when bbox and view share a point |
| `Grid.IntersectingShareACell` | engine/src/index.rs:757-764 | a bbox and a view that intersect have a cell in common |
| `Grid.PlaceSlots` | engine/src/index.rs:409-421 | the two insertion loops append a feature once to each covered bucket and to no other |
| `Grid.GridIsExact` | engine/src/index.rs:384-423 | every bucket holds exactly the non-broad features covering it, each once, in file order |
| `Grid.BroadMembers` | engine/src/index.rs:399-408 | a slot is in the overflow list exactly when its feature covers more than `MAX_CELLS_PER_FEATURE` cells |
| `Grid.EachFeatureOnce` | engine/src/index.rs:384-423 | a broad feature is in the overflow list exactly once and in no bucket; any other is exactly once in each bucket of its rectangle and nowhere else |
| `Grid.EntriesAreConserved` | engine/src/index.rs:384-449 | bucket entries plus overflow entries are exactly the features' costs, at most `MAX_CELLS_PER_FEATURE` each |
| `SpatialIndex.MemoryIsBounded` | engine/src/index.rs:280-282 | the declared memory bound is exactly 40 bytes a feature and 4 an entry of what the features cost, and at most a constant per feature |
| `SpatialIndex.Validate` | engine/src/index.rs:345-365 | the first row with a non-finite or inverted bbox is named, or all rows are usable; polling keeps its cadence |
| `SpatialIndex.ComputeExtent` | engine/src/index.rs:367-382 | the hull of all boxes: none sticks out and each side is touched by one; or a stop that really saw the flag, in time |
| `SpatialIndex.ExtentIsTheHull` | engine/src/index.rs:367-382 | the same of the specification, for every list of boxes |
| `SpatialIndex.KeysAgreeWhen` | engine/src/index.rs:164-190 | a key is the one for a hash and an id column exactly when every component is, the builder's own included |
| `SpatialIndex.Scan` | engine/src/index.rs:453-501 | without a cancel a file is accepted exactly when it fits `MAX_INDEXED_FEATURES`; never more rows than that are held |
| `SpatialIndex.ConcatKeepsOrder` | engine/src/index.rs:494-498 | the scanned rows are the chunks' rows, chunk after chunk and in order |
| `SpatialIndex.PlaceFeature` | engine/src/index.rs:409-421 | one feature goes to every cell of its rectangle, with the poll inside the loops |
| `SpatialIndex.PopulateGrid` | engine/src/index.rs:384-423 | the buckets and overflow list are those of the file, both empty where the extent collapses |
| `SpatialIndex.SumEntries` | engine/src/index.rs:439-449 | the sum over buckets does not depend on the map's iteration order |
| `SpatialIndex.Build` | engine/src/index.rs:314-451 | the result is the index of the rows, the first bad row, or `Cancelled`; an index never comes out once the flag was up at the last check; at most `CANCEL_POLL_INTERVAL` units go unpolled in a phase and twice that across phases |
| `Candidates.BuiltIsWellShaped` | engine/src/index.rs:519-573 | every slot a built index stores is in bounds and a non-empty index has an extent |
| `Candidates.HitsAreReachable` | engine/src/index.rs:519-573 | a feature meeting the view is in the overflow list or in a bucket of the view's rectangle |
| `Candidates.AnyOrderPicksTheSame` | engine/src/index.rs:540-570 | visiting distinct slots in any order, missing no hit, picks the scan's multiset of ids |
| `Candidates.CandidateIds` | engine/src/index.rs:503-573 | `Some` exactly when the index is not empty, its grid is not empty and the view is finite and oriented; then the ids are sorted and are exactly the scan's multiset |
| `Candidates.GridIsEmptyWhen` | engine/src/index.rs:384-423 | the grid is empty exactly when the extent collapses or every feature is broad |
| `Narrowing.PlanQuery` | engine/src/stream.rs:1636-1712 | which of the three plans is chosen, exactly, from the index and the view; a narrowing plan's ranges name exactly the indexed ids in the view; over any file, NULLs included, the planned statement returns the scan's rows exactly when the planner cannot narrow or the index knows every row the scan returns |
| `Narrowing.NarrowingIsExactWhen` | engine/README.md:230-236 | for any index, file and view, narrowing gives the scan's answer exactly when every row the scan returns has a non-NULL id of an indexed feature in the view |
| `Narrowing.RowsAsTheStatementSees` | engine/src/stream.rs:1660-1690 | a NULL bound is met by no view and a NULL id is in no range; otherwise the row's own values are compared, NaN above every number |
| `Narrowing.AFreshIndexIsExactWhen` | engine/src/stream.rs:1533-1539 | an index of the file's own rows keeps the answer, rows and order included, exactly when it does not narrow or no row the scan returns has a NULL id |
| `Narrowing.DeliveryIsExactWhen` | engine/src/stream.rs:2658-2691 | a narrowed stream is never refused for a NULL id; it delivers what the scan delivers exactly under the same condition |
| `Narrowing.DeliveredAreTheAnswers` | engine/src/stream.rs:2658-2691 | what is delivered are the answer's own ids in its order, and a NULL among them refuses |
| `Narrowing.VerifiedIdentityKeepsTheAnswer` | engine/src/dataset.rs:1976-2055 | where the open verified the identity column, an index of the file's own rows never changes the answer |
| `Narrowing.AStaleIndexDropsAFeature` | engine/README.md:230-236 | a two-row file whose old index, when it narrows, makes a query return one row of two |
| `Narrowing.AFreshIndexDropsANullId` | engine/src/index.rs:494-496 | a two-row file whose own index drops the row with a NULL id, so that a stream the scan would refuse is delivered short |
| `Narrowing.TwoPointsNarrow` | engine/src/index.rs:519-573 | the indexes of those files meet every condition under which the planner narrows |
| `Narrowing.NullIdRun` | engine/src/index.rs:494-496 | build, plan and answer over the file with a NULL id: refused when scanned, delivered short when narrowed |
| `IndexCaching.ContentHash` | engine/src/index.rs:624-659 | refused exactly when the flag is up at one of the looks, the one before the final empty read included |
| `IndexCaching.IndexCache.Get` | engine/src/index.rs:687-698 | absent, key mismatch, source changed, or the entry, in that order |
| `IndexCaching.HeuristicMatchesWhen` | engine/src/index.rs:222-228 | unchanged means both known, of one length and one known time |
| `IndexCaching.IndexCache.BuildIndex` | engine/src/dataset.rs:740-817 | reuse only under the fresh content hash, this id column and builder, and a known, equal modification time; an inserted index is the index of the scanned rows; every other ending, cancelled ones included, leaves the cache as it was and is for the stated reason; where a key stands for the rows of its content, every call keeps all entries true to their keys |
| `IndexCaching.IndexCache.AdmittedIndex` | engine/src/dataset.rs:827-838 | an entry is served exactly when its heuristic matches and its id column, builder version, predicate and grid are the caller's; the content hash is not compared |
| `IndexCaching.IndexCache.Consult` | engine/src/stream.rs:1185-1192 | an entry reaches a query exactly when no component of the source differs from what was observed at open and the entry is admitted; what it then is of the file now depends exactly on the indexed slots |
| `IndexCaching.EntriesAreLatest` | engine/src/index.rs:681-712 | after any run of inserts, a path's entry is its latest write |
| `IndexCaching.ServedIndexIsLatest` | engine/src/index.rs:579-591 | over every run, a served index is the latest for its path, its key and heuristic equal the caller's with a known modification time; every miss is explained |
| `IndexCaching.BuiltAndReusedAreCurrent` | engine/src/dataset.rs:752-813 | where a key stands for the rows of its content, what `build_index` reuses or inserts is the index of the file now, the cache stays sound, and a plan made with it changes the answer exactly when it narrows past a NULL id |
| `IndexCaching.AdmissionIgnoresContent` | engine/src/dataset.rs:827-838 | `admitted_index` serves an entry for any content with the same length and time, where `build_index` would have refused it |
| `IndexCaching.IndexDeterminesSlots` | engine/src/index.rs:439-450 | an index is the index of exactly the row lists with the same id and bbox slots |
| `IndexCaching.ServedIsCurrentWhen` | engine/src/dataset.rs:827-838 | the served entry is the index of the file now exactly when the content it was built from agrees with the file in the indexed slots; where differing hashes mean differing slots, exactly when the recorded hash is the file's own |
| `IndexCaching.AdmittedIndexCanBeStale` | engine/src/dataset.rs:827-838 | an admitted entry that is not the index of the file and whose use drops a feature in the view |
| `IndexCaching.RewrittenInPlaceRun` | engine/src/dataset.rs:827-838 | the whole run: build and cache, rewrite in place; a dataset opened before is refused, one opened after is served the old index and one of two rows is missing |
| `SchemaTree.CloseComplete` | engine/src/dataset.rs:1462-1471 | the inner loop closes finished nodes without changing which rows the stack stands for, and ends |
| `SchemaTree.FlattenDecodesOnce` | engine/src/dataset.rs:1431-1478 | a pre-order listing decodes in one way, whatever follows it |
| `SchemaTree.TreesBalance` | engine/src/dataset.rs:1431-1478 | in a tree's listing, children announced are one fewer than nodes listed |
| `SchemaTree.OwedRowsBalance` | engine/src/dataset.rs:1473-1477 | rows that leave a node owing children are no tree's listing |
| `SchemaTree.Rebuild` | engine/src/dataset.rs:1431-1478 | the answer is a tree exactly when the rows are that tree's: its name and child count, NULL allowed for a leaf, then its children's rows in order |
| `SchemaTree.RowsAreTheListing` | engine/src/dataset.rs:1450-1452 | being a tree's rows is being its pre-order listing once a NULL count reads as 0 |
| `SchemaTree.RowsOfAreRows` | engine/src/dataset.rs:1431-1478 | every tree is rebuilt from its own rows, the leaves' counts NULL |
| `SchemaTree.ListingIsInjective` | engine/src/dataset.rs:1431-1478 | a tree's rows are no other tree's |
| `CoveringPaths.MatchesAreAll` | engine/src/dataset.rs:1497-1504 | `case_matches` returns exactly the positions whose names agree ignoring ASCII case |
| `CoveringPaths.FoldsAlikeWhen` | engine/src/dataset.rs:1497-1504 | ignoring ASCII case, letter by letter |
| `CoveringPaths.FieldPathExists` | engine/src/dataset.rs:1621-1671 | the two-cursor loop computes the level-by-level walk, every index in bounds once the top levels align |
| `CoveringPaths.WalkSaysExactly` | engine/src/dataset.rs:1621-1671 | each verdict with what it reports, over positions: along an aligned prefix the walk comes to a level with no name or no struct (`Absent`), several names (`Ambiguous`), a field of another name (`Misbound`), a struct of another size (`Inconsistent`), or the last name (`Resolves`), and to no other |
| `CoveringPaths.RefusesExactlyWhen` | engine/src/dataset.rs:1580-1604 | a path refuses the open exactly when it leads to a level with several matches, a misnamed field or a struct of another size |
| `CoveringPaths.ResolvesExactlyWhen` | engine/src/dataset.rs:1621-1671 | a path resolves exactly when at every level one file name matches, the field at its position carries the name, and each step down is through a struct with as many children as the node |
| `CoveringPaths.ResolvesNamesOneColumn` | engine/src/dataset.rs:1621-1671 | a resolving path names exactly one node of the whole file tree, and the resident schema reads that node under the same names |
| `CoveringPaths.AbsentNamesNothing` | engine/src/dataset.rs:1621-1671 | a path reported absent is spelled by no position readable on both sides |
| `CoveringPaths.WalkIgnoresCase` | engine/src/dataset.rs:1621-1671 | changing the ASCII case of a declared path changes nothing about its verdict |
| `CoveringPaths.FindNul` | engine/src/dataset.rs:1377-1394 | the first path with an unaddressable segment, if any |
| `CoveringPaths.JudgePaths` | engine/src/dataset.rs:1560-1607 | the first refusing path wins even behind an absent one; otherwise the first absent path; otherwise usable |
| `CoveringPaths.JudgeCovering` | engine/src/dataset.rs:1550-1607 | no covering exactly when none is declared; unaddressable exactly when a segment holds U+0000; otherwise refused exactly when some path is unreadable, whatever is absent, and usable exactly when all four are readable |
| `CoveringPaths.JudgementsAreExact` | engine/src/dataset.rs:1550-1607 | a justified verdict refuses exactly when some path is ambiguous, misbound or inconsistent, and is usable exactly when all four resolve |
| `CoveringPaths.GeometryIsAcceptedWhen` | engine/src/dataset.rs:2115-2163 | the geometry column is accepted exactly when one file column spells it, no other does ignoring case, and the field at its position is an addressable binary field of that name |
| `CoveringPaths.GeometryIsRefusedWhen` | engine/src/dataset.rs:2115-2163 | what each refusal of the geometry column says about the file and the schema |
| `CoveringPaths.CheckNames` | engine/src/dataset.rs:1482-1495 | misaligned trees are refused first, so no later check indexes out of bounds; then geometry, then covering |
| `OffsetArrays.GatherIsTheWindow` | engine/src/geoarrow.rs:520-563 | row by row, part by part, ring by ring, consecutive rows of a valid array are one run of the leaf, found by the offsets at every level |
| `OffsetArrays.CoordinateValuesIsTheWalk` | engine/src/geoarrow.rs:520-563 | the jump through up to three offset levels reads exactly the coordinates of the array's rows in order over pairs, as in all five encodings; over fixed-size lists of another width exactly when the window is empty and still starts in the leaf; and nothing for any other shape |
| `OffsetArrays.ATripleIsMisread` | engine/src/geoarrow.rs:523-526 | a fixed-size list of three is read as a pair, not refused |
| `OffsetArrays.SlicesReadTheirOwnRows` | engine/src/geoarrow.rs:520-563 | for every array and slice window, exactly the coordinates of the rows in the window |
| `GeometryArrays.EveryTruncationIsCaught` | engine/src/geoarrow.rs:470-487 | narrowed offsets pass the check exactly when no total left `i32`, and then they are the totals |
| `GeometryArrays.AWholeTurnWouldPass` | engine/src/geoarrow.rs:470-487 | the check alone would miss a step of 2^32, so the `u32` counts of WKB are needed |
| `GeometryArrays.BuildIsFaithful` | engine/src/geoarrow.rs:295-430 | a build loses nothing or is refused: it succeeds exactly when every level's count fits `i32`, and then is the faithful encoding |
| `GeometryArrays.ReadBack` | engine/src/geoarrow.rs:295-430 | row `i` of the built array is geometry `i`, part for part and vertex for vertex |
| `GeometryArrays.ASliceReadsItsGeometries` | engine/src/geoarrow.rs:520-563 | geometries to builder to slice to `coordinate_values`: exactly the coordinates of the geometries in the window |
| `BatchBounds.AxisIsFiniteWhen` | engine/src/envelope.rs:377-398 | an axis ends finite exactly when it has a number and no infinity, and is then tight |
| `BatchBounds.XyBounds` | engine/src/envelope.rs:377-398 | a bound is reported exactly when no coordinate is infinite and each axis has a number; it is then the tightest box around the numbers |
| `BatchBounds.ANaNIsSkipped` | engine/src/envelope.rs:394-397 | a run with a NaN for which a bound is reported |
| `BatchBounds.BoundsOfBatch` | engine/src/envelope.rs:377-398 | for decoded geometries, any of the five builders and any slice, a bound is reported exactly when the vertices in the window allow one, and is then their tightest box |
| `Descriptor.Of` | engine/src/descriptor.rs:102-182 | each refusal exactly when the file is too short, lacks the magic or announces a footer longer than itself; at most the ceiling plus eight bytes read; no subtraction below zero; what is recorded is true of the file |
| `Descriptor.LittleEndianRoundTrip` | engine/src/descriptor.rs:102-182 | the announced length reads back every number below 2^32 |
| `Descriptor.AWrittenFooterIsRead` | engine/src/descriptor.rs:120-182 | for every body and footer under the ceiling, a file written as parquet files are announces exactly that length and exactly that footer is read |
| `Descriptor.DifferingComponents` | engine/src/descriptor.rs:432-451 | exactly the components that differ are named, and none exactly when nothing changed |
| `Descriptor.UnchangedIsEquality` | engine/src/descriptor.rs:269-298 | on descriptors read from files, no difference means all four components equal, although an untaken hash is skipped |
| `Descriptor.UnchangedIsTransitive` | engine/src/descriptor.rs:407-451 | so no change is an equivalence on them |
| `Descriptor.RecordedObservationsAreNotTransitive` | engine/src/descriptor.rs:364-378 | recorded observations need not obey the ceiling, and three of them break transitivity |
| `Descriptor.UnchangedAddsUpWhen` | engine/src/descriptor.rs:432-451 | for all observations, two steps without a change add up to none exactly when the middle one took a hash or the outer hashes do not disagree |
| `Descriptor.UnchangedOverRuns` | engine/src/descriptor.rs:407-451 | over every run without a change from step to step, only a hash can have changed unnoticed, and not once every observation in between took one |
| `Descriptor.WhatIsDetected` | engine/src/descriptor.rs:407-451 | with a hash that tells footers apart, what two reads of files detect, exactly |
| `Identity.CountsDecideIdentity` | engine/src/dataset.rs:2021-2050 | equal row and distinct counts with no negative minimum hold exactly when no value is NULL, negative or repeated |
| `Identity.ScanNeverFails` | engine/src/dataset.rs:2057-2098 | the `u64`-then-`i64` reading of the extremes succeeds on every integer column |
| `Identity.JsExactIsTrue` | engine/src/identity.rs:276-278 | `js_exact` is true exactly when every id is below 2^53, and unknown exactly for an empty file |
| `Identity.VerifiedMeansIdentified` | engine/src/dataset.rs:1910-2055 | an identity recorded as verified counts exactly its rows, carries the true maximum and belongs to the column of that name, which identifies every row |
| `Identity.AdmissionIsExact` | engine/src/dataset.rs:1976-2055 | a column present and not waived is admitted exactly when it is addressable, of an integer type and identifies its rows |
| `Identity.UnscannedAdmissions` | engine/src/dataset.rs:1910-1990 | a missing column is an error exactly if it was declared and otherwise numbers the rows; the source and the kind of promise recorded in every other case |
| `Identity.PresentAdmissions` | engine/src/dataset.rs:1955-1990 | a present column is refused for its name first and then its type, a waived one for nothing else |
| `Identity.ScannedRefusals` | engine/src/dataset.rs:2021-2050 | a scanned column is refused for its least value exactly when one is negative, and otherwise with both counts when rows share a value or lack one |
| `Projection.ResolveNames` | engine/src/attributes.rs:549-570 | the first pass succeeds exactly when every name resolves, and otherwise reports the first that does not |
| `Projection.AdmitResolved` | engine/src/attributes.rs:572-601 | the second pass emits the declared order, nullable, with parallel source types, or the first column's own refusal: reserved before repeated before type |
| `Projection.AdmitProjection` | engine/src/attributes.rs:536-601 | admitted exactly when there are at most 32 pairwise distinct names, each resolving to an individually projectable field; unresolved and reserved names are reported before any per-column failure |
| `Projection.PassesIsAdmissible` | engine/src/attributes.rs:451-516 | the interleaved per-column rules together are admissibility as a whole |
| `Projection.ColumnIsAdmittedWhen` | engine/src/attributes.rs:451-516 | which columns are projectable alone, what type is emitted (a dictionary's is its value type), and which refusal each other one gets |
| `CrsAdmission.AdmissionTable` | engine/src/dataset.rs:375-525 | who may open, for every file and assertion; neither internal-inconsistency return can be reached |
| `CrsAdmission.RefusalTable` | engine/src/crs.rs:275-297 | each refusal happens in exactly one situation, and the data's order is the one a table of its own gives |
| `CrsAdmission.ShapeIsRefusedWhen` | engine/src/crs.rs:71-84 | an assertion is refused for its shape exactly when its identifier shows no character, or else its definition is over 65536 bytes |
| `CrsAdmission.RecordsAreTruthful` | engine/src/geoparquet.rs:508-608 | admitted data order is never y-first; a definition's own order is kept whenever there was one; the source is `format-rule` exactly for the format default; which rule is recorded, and when; an assertion is recorded as it was made |
| `FooterNames.FoundWhenPlain` | engine/src/dataset.rs:1757-1766 | a column declared as the file spells it is found in the footer exactly when no segment holds a comma or a blank |
| `FooterNames.OwnIsFoundWhen` | engine/src/dataset.rs:1757-1766 | the column a declared path folds to is found exactly when the declaration spells it letter for letter and holds no comma and no blank |
| `FooterNames.DottedNameIsTaken` | engine/src/dataset.rs:1757-1766 | a column named like a path joined with dots is taken for that path exactly when the path holds no comma and no blank |
| `FooterNames.NoOtherIsTakenWhen` | engine/src/dataset.rs:1757-1766 | where no segment spells a dot, a comma or a blank, no other column is taken |
| `FooterNames.ResolvedIsFoundWhen` | engine/src/dataset.rs:1621-1671 | for a covering path the walk resolves, when its one column's statistics are found, exactly |
| `CoveringStatistics.Extreme` | engine/src/dataset.rs:1762-1779 | the extreme of the statistics of all rows whose normalised name is the key, NaN skipped unless there is nothing else, or nothing as soon as one is missing |
| `CoveringStatistics.FoldStatistics` | engine/src/dataset.rs:1732-1789 | a box exactly when for every declared path some footer row is taken and none of those lacks a statistic |
| `CoveringStatistics.SideInsideWhen` | engine/src/geoparquet.rs:616-622 | a folded bound lies in the domain exactly when no chunk taken for it goes beyond on the fold's side and one reaches the domain from the other |
| `CoveringStatistics.InsideMeans` | engine/src/geoparquet.rs:616-622 | the domain in numbers: four finite bounds within ±180 and ±90 |
| `CoveringStatistics.FoldBoundsTheRows` | engine/src/dataset.rs:1732-1789 | where its own column is found, a folded bound bounds all rows of all row groups; where no foreign column is taken, a row holds it |
| `CoveringStatistics.ConvictedExactlyWhen` | engine/src/dataset.rs:1337-1368 | over all leaf columns and rows of any orientation, what convicts a format default, exactly: on some side a row whose column is found, or a foreign column, beyond the domain, or none of them reaching it |
| `CoveringStatistics.ConvictedExactlyWhenARowLeaves` | engine/src/dataset.rs:1337-1368 | where only the covering's own columns are taken, a conviction means that some row leaves ±180/±90, and over rows that are not inverted exactly that; with foreign columns, exactly that a row or one of them leaves |
| `CoveringStatistics.NoForeignWhen` | engine/src/dataset.rs:1757-1766 | no foreign column is taken where no leaf column or declared path spells a dot, a comma or a blank in a segment |
| `CoveringStatistics.AnInvertedRowIsMissed` | engine/src/geoparquet.rs:616-622 | a row with xmin 500 above its xmax, beside an ordinary one, convicts on no side |
| `CoveringStatistics.OnlyNaNsConvict` | engine/src/geoparquet.rs:616-622 | a folded bound is NaN exactly when its column has only NaN statistics, and that convicts |
| `MisleadingNames.DecoyRun` | engine/src/dataset.rs:1732-1789 | for every covering column name without comma, blank or NUL: a usable covering, its row inside the domain, and a refused open, because of a column spelled like the path |
| `MisleadingNames.RespelledRun` | engine/src/dataset.rs:1732-1789 | for every other ASCII case of the column's name: a usable covering with statistics in every row group, and no box |

## Left out

- IEEE rounding: coordinates are reals plus NaN and the infinities; the index argument needs only that bucketing is monotone.
- DuckDB, Arrow, SHA-256, JSON parsing and file access: parameters and assumptions, as described above; a file changing during one call is not modelled.
- The streaming fetch loop, row-group index, connection pool and lease lifecycle, levels of detail, and attribute predicates: not part of this model.
- WKB byte decoding: builders start from decoded geometries whose counts fit `u32`; per-kind refusals of malformed bytes are not modelled.
- Geometry storage-type validators, which refuse other widths and nestings, and `encoding_for_declared_types`: short matches with nothing to relate.
- The refusal of an index build whose id column DuckDB does not deliver as `u64`, or whose bounds it does not deliver as `f64`: the scan model starts from columns of those types.
- `LIMIT`, ordering and attribute predicates of a planned statement: they are the same in the narrowed and the plain statement.
- The bounded sample level of the sanity check, coordinate units and `geo` metadata parsing: the CRS model starts from parsed metadata.
- Error texts, progress observers, trace stamps, timings and the 10 ms re-interrupt interval: text or time only.
- Whether and when the scheduler runs a thread: liveness of the re-interrupter is stated as the distance to a tick and the number of ticks needed.
- Cancellation inside the identity scan: an instance of the protocol in `CancelProtocol.dfy`, so `Identity` models the scan that is not cancelled.
- The kernel, the renderer and the front end.
