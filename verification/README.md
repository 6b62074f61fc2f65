# Nebula query engine: a verified model

A Dafny model of the parts of a graph query engine where results are easy to
get subtly wrong, with proofs over all inputs, all runs or all interleavings.

| modules | what they model |
|---|---|
| `PathSpec`, `PathJoins`, `FindPath`, `PathResponse` | FIND PATH: two multimaps of half walks grown from both ends and joined at odd and even lengths. The search is proved to hold exactly the walks asked for, each once. |
| `Bytes`, `RowFormat`, `RowLayout`, `RowReader`, `RowWriter`, `RowCodec`, `RowUpdater`, `RowSet` | The row format: writer, lazily caching reader, iterator, updater and row sets. |
| `Filter`, `Go`, `GoResult`, `GoQuery`, `GoFirstRow` | GO: frontiers, traced roots, the join with the input rows, pushing the filter down to storage, and what the whole query returns, and how often. |
| `EdgeStore` | The statements that change edges, and the mirroring of every edge. |
| `Executors` | Sequential, pipe and set executors as a state machine over callbacks. |
| `Aggregates`, `GroupBy`, `SetOps` | GROUP BY over shared aggregators, and the set operations. |
| `LogCodec`, `Snapshot` | The log codec and snapshot delivery over it. |
| `Sessions` | Session id allocation. |
| `Graph`, `Multimaps` | Shared definitions. |

`dafny verify dfyconfig.toml` checks all of it.

## What the model takes as given

- Storage, meta and network are parameters. A neighbour request is answered completely, in any order.
- Clocks, callback answers and library sorts are parameters. `std::multimap` keeps insertion order within a key.
- FIND PATH gets distinct start and target ids (`src/parser/Clauses.cpp:66-92` removes duplicates), distinct positive edge types, and a mirrored edge store, which `EdgeStore` shows every completed statement keeps.
- Float and double values are opaque bytes of fixed width; conversions between them are parameters. A varint that cannot be decoded, which throws in the original, is E_DATA_INVALID.
- Storage answers a property as the graph service does or fails to. It may fail where the graph service supplies a default.

## Where the code is not what its comments or its use suggest

Each of these is kept as the code has it, with the exact condition or an input that shows it.

- `Skip` records a block offset one column late: the offsets stay right exactly when no sixteenth column lies in the skipped range, ends included (`SkipLayoutIff`). A row that stops inside its last block, with a multiple of 16 columns, lacks an offset, and the reader takes it from the data (`LackingParses`, `ReadShort`).
- `size()` is taken before missing columns are filled in: it is the encoded length exactly for full rows (`EncodeTo`, `AddWriter`).
- The reader counts the bytes of a string in 32 signed bits. A column whose string takes 2^31 bytes is written and then refused; it is read exactly if the count does not come out negative, and as a boolean exactly if it comes out positive (`ReadableIff`, `LongStringRefused`). From 2^32 bytes on an iterator can also step short (`ReadCell`).
- An iterator that reads one cell and skips a later one leaves a hole that `skipToField` trusts: after any pass over a row exactly the lost fields cannot be read by index (`Traverse`, `TraverseThenRead`).
- The row set reader moves on rightly exactly if a row and its length take fewer than 2^31 bytes (`AdvanceIff`).
- A batch log is read back with sizes that fit the decoder's 32-bit offsets, not with all sizes below 2^32: keys up to 2^31 - 9 bytes, 2^31 - 5 with an empty value, and before another operation 2^32 - 9 bytes for key and value together (`SingleOpIff`, `FirstOpLost`, `LongValueLost`).
- Traced roots mix walk lengths: with three steps or more an input row can be joined to a vertex its start does not reach in that many steps (`JoinedRows`, `JoinedTooMuch`).
- When YIELD names no input column, the filter is evaluated on the first row joined to a vertex and on no other. An edge whose filter holds on a later row only is lost (`LostEdge`). No filter loses an edge exactly if every row joined to it is the first one in some record (`NeverLostIff`), in a query of one step exactly if no two rows start at its source (`OneStepIff`); and a filter without input or variable properties loses nothing (`NoInputRead`).
- Pushing a filter down can hide an evaluation error, exactly when it fails only on edges that storage drops; otherwise the result is the same (`PushdownSame`, `HiddenError`). A filter that is pushed unchanged hides none (`WholeHidesNothing`).
- An update that reads a property of the source vertex makes the two directions of an edge differ (`UpdateProps`, `SourcePropsDiverge`), and an upsert that can be computed at one end only leaves one direction (`UpdateMirrors`, `HalfUpsertExample`).
- The `overwritable` flag of an insertion is sent to storage, which puts the edges whatever it says (`InsertEdges`).
- INTERSECT moves matched rows out and leaves rows without columns, which a later left row without columns matches (`DoIntersect`).
- UNION DISTINCT with one empty side returns the other with its duplicates (`DoUnion`).

## Model

| member | source | states |
|---|---|---|
| `FindPath.FindPathExecutor.Execute` | src/graph/FindPathExecutor.cpp:148-216 | For every graph and step bound of at least one the search ends within ceil(bound / 2) rounds holding exactly the wanted paths, each once, whatever order storage answers in. |
| `FindPath.FindPathExecutor.FindPath` | src/graph/FindPathExecutor.cpp:218-290 | One round: from exact half walks of k edges and all answers up to 2k to those of the next round, or a finished search with every answer up to the bound, through every exit. |
| `FindPath.FindPathExecutor.ExpandFrom` | src/graph/FindPathExecutor.cpp:220-246 | The forward sweep adds exactly the answers of length 2k + 1 and leaves exactly the half walks of k + 1 edges. |
| `FindPath.FindPathExecutor.ExpandTo` | src/graph/FindPathExecutor.cpp:248-262 | The backward sweep leaves exactly the half walks of k + 1 edges to a target. |
| `FindPath.FindPathExecutor.JoinEven` | src/graph/FindPathExecutor.cpp:264-284 | The even joins add exactly the answers of length 2k + 2, and the early exit in shortest mode loses none. |
| `FindPath.FindPathExecutor.MeetOddPath` | src/graph/FindPathExecutor.cpp:292-335 | What an edge adds is every join of a forward and a backward half across it, filtered by shorter answers in shortest mode. |
| `FindPath.FindPathExecutor.MeetEvenPath` | src/graph/FindPathExecutor.cpp:337-386 | The same for the joins at a common vertex, within the step bound. |
| `FindPath.UpdatePath` | src/graph/FindPathExecutor.cpp:388-415 | Every half path at the source is extended by the edge, at the right end for its direction. |
| `PathSpec.AnswerIffSpliced` | src/graph/FindPathExecutor.cpp:301-315 | The entries that splice a forward and a backward half with a doubled middle edge are exactly the encodings of walks. |
| `PathSpec.SpliceInjective` | src/graph/FindPathExecutor.cpp:346-367 | A walk is determined by its entry, so answers count walks. |
| `PathSpec.DeadEnd` | src/graph/FindPathExecutor.cpp:173-181 | With no half walk of k edges on one side there is no walk of more than 2k edges. |
| `PathSpec.AllFound` | src/graph/FindPathExecutor.cpp:271-284 | In shortest mode, once every target has an answer nothing longer is wanted. |
| `PathSpec.JoinExtends` | src/graph/FindPathExecutor.cpp:317-332 | Dropping joins to targets with shorter answers keeps exactly the minimal ones of the next length. |
| `PathJoins.JoinsExact` | src/graph/FindPathExecutor.cpp:292-335 | The nested join loops produce every join exactly once. |
| `PathJoins.AllExtensionsExact` | src/graph/FindPathExecutor.cpp:388-415 | Extending all half paths by all edges produces every extension exactly once. |
| `PathJoins.OddJoinIffSpliced` | src/graph/FindPathExecutor.cpp:301-315 | Joining exact halves across a stored edge is the same as splicing a walk of odd length, both ways. |
| `PathJoins.EvenJoinIffSpliced` | src/graph/FindPathExecutor.cpp:346-367 | Joining exact halves at a vertex is the same as splicing a walk of even length, both ways. |
| `PathJoins.GrowTo` | src/graph/FindPathExecutor.cpp:248-258 | Reverse edges of a mirrored store give exactly the backward half walks one edge longer. |
| `PathResponse.AllPathsExact` | src/graph/FindPathExecutor.cpp:148-415 | All-paths mode holds every walk of 1 to N edges from the start set to the target set exactly once, and nothing else. |
| `PathResponse.ShortestExact` | src/graph/FindPathExecutor.cpp:264-383 | Shortest mode holds for each target exactly the walks of minimum length over all sources, each once. |
| `PathResponse.BuildPathRow` | src/graph/FindPathExecutor.cpp:663-721 | A spliced path decodes to the row of its walk, position by position: 2n + 1 entries, at 2i the source of edge i, at 2i + 1 its name and rank, and the target last. |
| `PathResponse.SetupResponse` | src/graph/FindPathExecutor.cpp:723-734 | One row per answer, each the row of a walk asked for. |
| `RowFormat.ReadsField` | src/dataman/RowReader.cpp:428-585 | Every accessor, cross-type ones included, gives of a field what is stored there: its view, or the refusal of its type or of the byte count of a string. |
| `RowFormat.ReadableIff` | src/dataman/RowReader.cpp:397-408 | A value is read back through its own accessor if and only if the 32-bit count of its bytes is not negative, a string through the boolean one if and only if it is positive; a count of zero is success without a value, a negative one the error. |
| `RowFormat.StrToBoolIff` | src/dataman/DataCommon.h:44-48 | A string is true if and only if it spells y, t, yes or true in lower case, with a capital or in capitals. |
| `RowFormat.LongStringRefused` | src/dataman/RowReader.cpp:528-546 | A string of 2^31 bytes is refused by both accessors that could read it. |
| `RowFormat.SkipsField` | src/dataman/RowReader.cpp:287-336 | Skipping moves by exactly the bytes of the field. |
| `RowReader.ScanIsStart` | src/dataman/RowReader.cpp:280-345 | On a written row the linear scan from the block offsets gives the true start of every field. |
| `RowReader.RowReader.SkipToNext` | src/dataman/RowReader.cpp:280-345 | The offset found is the linear scan's, the cache stays right, and what it caches is stated exactly. |
| `RowReader.RowReader.SkipToField` | src/dataman/RowReader.cpp:348-372 | From any valid cache the answer is the linear scan's unless the field is a hole, and no hole is made. |
| `RowReader.RowReader.GetField` | src/dataman/RowReader.cpp:606-644 | Access by index agrees with reading at the scanned offset, with its errors, for any bytes with string lengths below 2^63. |
| `RowReader.RowReader.ReadAll` | src/dataman/RowReader.cpp:348-372 | Any accesses to a written row in any order give what the accessors give of the written values. |
| `RowReader.RowIterator.Next` | src/dataman/RowReader.cpp:78-96 | The iterator stands at the true start of its field whether the cell was read or skipped. |
| `RowReader.RowIterator.ReadCell` | src/dataman/RowReader.h:365-378 | Reading a cell gives what the accessor gives of the field; a refused read ends the iteration; the iterator stays right if and only if the read did not take fewer bytes than the field has. |
| `RowReader.ShortNotCut` | src/dataman/RowReader.h:365-378 | No read of a field below 2^32 bytes does. |
| `RowReader.Traverse` | src/dataman/RowReader.cpp:78-108 | Reading cells through any accessors and skipping others makes one increment per cell up to the end or the first refused read; afterwards a field is a hole if and only if it is inside a block, the cell before it was read and the end of a later cell of the block was looked up. |
| `RowReader.TraverseThenRead` | src/dataman/RowReader.cpp:355-361 | A field read by index after such a pass is reported missing if and only if it is lost, and read as ever otherwise. |
| `RowReader.LostExample` | src/dataman/RowReader.cpp:355-361 | After reading the first of three boolean cells and passing the others, the second field is reported missing by index. |
| `RowWriter.WriteStores` | src/dataman/RowWriter.cpp:103-187 | A write, mistyped or not, is read back as a value exactly when its bytes have the width of the column type. |
| `RowWriter.StoredOwn` | src/dataman/RowWriter.cpp:103-187 | A value of the column type is stored as it is, a float or double converted, and anything else as zero. |
| `RowWriter.DefaultIsZero` | src/dataman/RowWriter.cpp:221-251 | A skipped column holds false, zero, zero bytes or the empty string, and can be read. |
| `RowWriter.RowWriter.Write` | src/dataman/RowWriter.h:130-148 | A value write appends its bytes and keeps one block offset for every sixteen columns, each the start of its column. |
| `RowWriter.RowWriter.Skip` | src/dataman/RowWriter.cpp:213-261 | Skipping writes defaults; the block offsets stay right exactly when no sixteenth column is in the range. |
| `RowWriter.SkipLayoutIff` | src/dataman/RowWriter.cpp:254-258 | The late offsets equal the right ones if and only if no sixteenth column lies in the skipped range. |
| `RowWriter.CalcOccupiedBytes` | src/dataman/RowWriter.cpp:87-95 | The loop counts the bytes of a value without leading zeros. |
| `RowWriter.OccupiedLeast` | src/dataman/RowWriter.cpp:87-95 | That is the least width that holds the value. |
| `RowWriter.RowWriter.EncodeTo` | src/dataman/RowWriter.cpp:49-75 | Appends the row with defaults for missing columns; the size before equals the length appended exactly for full rows. |
| `RowCodec.ProcessHeader` | src/dataman/RowReader.cpp:222-267 | Succeeds exactly on rows long enough for their header and then gives header length and block offsets. |
| `RowCodec.RowParses` | src/dataman/RowReader.cpp:222-267 | The header of a written row decodes to the offsets and data that were written, and to the version if and only if that is below 2^31. |
| `RowCodec.VersionParses` | src/dataman/RowReader.cpp:178-203 | A version below 2^32 takes at most four bytes, which the three-bit width tells, and is read back if and only if it is below 2^31. |
| `RowCodec.HeaderByteDecodes` | src/dataman/RowWriter.cpp:54-67 | The two three-bit fields of the header byte decode to what was encoded. |
| `RowCodec.OffsetsWithin` | src/dataman/RowWriter.cpp:69-72 | No block offset points past the data, and each is read back from the width taken from the data size. |
| `RowCodec.ReadBack` | src/dataman/RowReader.cpp:206-372 | Any reads of a full row, in any order, give what the accessors give of the stored values: through its own accessor the value itself if and only if it is readable. |
| `RowCodec.WriteThenRead` | src/dataman/RowWriter.cpp:49-75 | A row whose first columns are written reads back as what is stored, through any accessors in any order; through its own accessor a value of the column type comes back as it was written, and a column not written as zero. The row is full, or no sixteenth column lies in the skipped range, ends included. |
| `RowCodec.LackingParses` | src/dataman/RowReader.cpp:222-267 | A row that lacks one block offset: the reader takes it from the first bytes of the data and everything behind it for the data. |
| `RowCodec.ReadShort` | src/dataman/RowWriter.cpp:213-261 | With 15 of 16 boolean columns written, the first field read gives the second one written. |
| `RowUpdater.RowUpdater.Set` | src/dataman/RowUpdater.cpp:91-185 | Succeeds if and only if setter, column type and value go together; then the value set is the one kept, a float or double converted to the column type, and it is what the updated row holds; otherwise nothing changes. Other columns are not affected. |
| `RowUpdater.KeptIs` | src/dataman/RowUpdater.cpp:91-185 | Exactly which pairs of setter and column type are accepted, and what is kept. |
| `RowUpdater.ViewKeptAgrees` | src/dataman/RowUpdater.cpp:220-309 | The accessors of the updater give of a kept value what the reader gives of the encoded column, and exactly where they give more. |
| `RowUpdater.RowUpdater.OverlayIs` | src/dataman/RowUpdater.h:98-125 | What a column resolves to: the value set, else the old value, else the default, and when the old value is refused. |
| `RowUpdater.RowUpdater.Output` | src/dataman/RowUpdater.h:98-125 | The value for a field is the kept one, else the old row's, else the default; a missing default and a refused old value are told apart. |
| `RowUpdater.RowUpdater.Encode` | src/dataman/RowUpdater.cpp:40-83 | Succeeds exactly when every column resolves and then writes the overlay of updates, old row and defaults. |
| `RowUpdater.RowUpdater.EncodeThenRead` | src/dataman/RowUpdater.cpp:40-309 | Decoding an updated row gives the overlay in every column, across schema versions, if and only if the value there is readable. |
| `RowSet.RowSetWriter.AddRow` | src/dataman/RowSetWriter.cpp:36-39 | Adds one row to the set. |
| `RowSet.RowSetWriter.AddAll` | src/dataman/RowSetWriter.cpp:41-43 | Adding the bytes of a set is concatenation of rows. |
| `RowSet.RowSetWriter.AddWriter` | src/dataman/RowSetWriter.cpp:30-34 | The length prefix is the length of the row exactly for full rows. |
| `RowSet.RowSetIterator.Next` | src/dataman/RowSetReader.cpp:64-69 | Moves to the next row and strictly forward. |
| `RowSet.ReadRows` | src/dataman/RowSetReader.cpp:32-73 | Iterating written rows yields them in order and stops. |
| `RowSet.AdvanceIff` | src/dataman/RowSetReader.cpp:32-51 | The reader moves to the next row if and only if the row and its length take fewer than 2^31 bytes, and just above that backwards. |
| `Filter.Rewrite` | src/graph/TraverseExecutor.cpp:449-511 | Whatever is pushed mentions no input, variable or destination property. |
| `Filter.RewriteWeakens` | src/graph/TraverseExecutor.cpp:449-511 | What the filter accepts on the graph side storage does not drop, for every expression and environment. |
| `Filter.RewriteWhole` | src/graph/TraverseExecutor.cpp:513-526 | Exactly when the whole filter is pushed as it stands. |
| `Filter.RewriteComplete` | src/graph/TraverseExecutor.cpp:449-511 | Nothing is held back: a filter is pushed if and only if it has a part that can be, and the pushed filter drops exactly what those parts rule out. |
| `Filter.CanPushdownIff` | src/graph/TraverseExecutor.cpp:513-526 | An expression can be pushed if and only if it mentions no input, variable or destination property. |
| `Filter.PushedMentions` | src/graph/TraverseExecutor.cpp:449-511 | What is pushed mentions none of those. |
| `Filter.PushedIff` | src/graph/GoExecutor.cpp:529-533 | Something is pushed if and only if pushdown is on, the step is the last, the direction forward and the filter has such a part. |
| `Filter.LogicalLaws` | src/common/filter/Expressions.cpp:1194-1222 | AND, OR and XOR of operands that evaluate; an error of one operand is an error of the whole. |
| `Filter.FalseValues` | src/common/filter/Expressions.h:284-298 | Which values count as false; a string does if it is not empty. |
| `Filter.EvalAgrees` | src/storage/query/QueryBaseProcessor.inl:538-597 | An expression of local properties evaluates in storage as on the graph side, or not at all. |
| `Go.GoExecutor.Execute` | src/graph/GoExecutor.cpp:589-605 | Each step starts from exactly the vertices reached by that many edges, stops early only at a dead end, behind which nothing is reached, and traces exactly the starts with a walk of 1 to steps - 1 edges; how often each, if storage lists every edge once. |
| `Go.GoExecutor.GetDstIdsWithBackTrack` | src/graph/GoExecutor.cpp:663-702 | The destinations without duplicates, and the back trace read before it is extended. |
| `Go.TraceStep` | src/graph/GoExecutor.cpp:681-700 | One step extends the traced walk lengths by exactly one. |
| `Go.CountStep` | src/graph/GoExecutor.cpp:681-700 | How often a root is traced: every edge a step goes along brings the roots of its source, each as often as the source has it. |
| `Go.FrontierStep` | src/graph/GoExecutor.cpp:589-605 | The destinations of a complete answer are exactly the next frontier. |
| `GoResult.GetRoots` | src/graph/GoExecutor.h:216-228 | The vertex itself in the first record, all its traced roots later. |
| `GoResult.BuildIndex` | src/graph/InterimResult.cpp:205-222 | Every input row is indexed under its vertex id. |
| `GoResult.RowsOfVids` | src/graph/InterimResult.h:95-104 | The rows of all given ids, in order. |
| `GoResult.JoinedRows` | src/graph/GoExecutor.h:216-228 | Exactly which input rows are joined to a vertex of a record; all with an exact walk are among them. |
| `GoResult.JoinedExactly` | src/graph/GoExecutor.h:216-228 | With up to two steps the join is exact. |
| `GoResult.JoinedTooMuch` | src/graph/GoExecutor.cpp:681-700 | A graph on which three steps join a row to an edge although its start has no walk of that length. |
| `GoResult.AllCtxIff` | src/graph/GoExecutor.cpp:1073-1138 | The filter is evaluated on exactly the edges listed in the records from the first one on, each with the inputs its source has there: every joined row if the input is yielded, and else the first one. |
| `GoResult.ProcessFinalResult` | src/graph/GoExecutor.cpp:1065-1316 | Fails if and only if some evaluation does, and else returns what the filter accepts, in order. |
| `GoResult.AcceptedCounts` | src/graph/GoExecutor.cpp:1274-1284 | Every accepted pair of row and edge is returned as often as it was evaluated. |
| `GoResult.PrunedSame` | src/graph/GoExecutor.cpp:1274-1284 | Dropping edges the filter does not accept changes the result if and only if the filter fails on a dropped edge and on nothing else. |
| `GoResult.PushdownSame` | src/graph/GoExecutor.cpp:529-533 | The same for the filter the executor pushes on the last forward step; what is accepted is the same in any case. |
| `GoResult.HiddenError` | src/graph/GoExecutor.cpp:529-533 | A query that fails without pushdown and returns nothing with it. |
| `GoResult.WholeHidesNothing` | src/graph/GoExecutor.cpp:529-533 | A filter that is pushed as it stands hides no error. |
| `GoQuery.Run` | src/graph/GoExecutor.cpp:92-131 | The whole query: it fails if and only if the filter does on a pair it is evaluated on, and else returns exactly the pairs of input row and edge where the edge leaves a vertex reached by k - 1 edges for a step k among those asked for, the row is joined to that vertex (only the first such row when no input column is yielded), and the filter holds. If storage lists every edge once, each pair is returned as often as it is evaluated over all these steps. |
| `GoQuery.WeightIs` | src/graph/GoExecutor.cpp:1113-1127 | A pair is evaluated once in a record without a yielded input and in the first record, and else as often as the start of the row is traced for the vertex, counted on the graph. |
| `GoQuery.FirstRowIs` | src/graph/GoExecutor.cpp:1113-1118 | Every vertex reached has a joined row; the first one starts at its first root, and no earlier row does. |
| `GoQuery.ReturnsReached` | src/graph/GoExecutor.cpp:1065-1316 | With a sound pushdown these are all such pairs, kept by storage or not. |
| `GoQuery.WhereDecides` | src/graph/GoExecutor.cpp:1274-1284 | Whatever is pushed down, a query returns exactly the reached pairs on which WHERE holds, all of them without WHERE, or fails because WHERE does on a reached pair. |
| `GoFirstRow.FirstRowDecides` | src/graph/GoExecutor.cpp:1118-1127 | Without a yielded input column an edge is returned if and only if the filter holds on the first row joined to its source in some record. |
| `GoFirstRow.ReturnedUnlessLost` | src/graph/GoExecutor.cpp:1118-1127 | It is returned if and only if some joined row passes and the filter does not lose it. |
| `GoFirstRow.NeverLostIff` | src/graph/GoExecutor.cpp:1118-1127 | No filter loses an edge if and only if every row joined to it is the first one in some record. |
| `GoFirstRow.OneRowFirst` | src/graph/GoExecutor.cpp:1118-1127 | With one joined row nothing is lost. |
| `GoFirstRow.OneStepIff` | src/graph/GoExecutor.cpp:1118-1127 | In a query of one step the condition is that no two input rows start at the source of the edge. |
| `GoFirstRow.NoInputRead` | src/graph/GoExecutor.cpp:1217-1223 | A filter that reads no input or variable property loses nothing. |
| `GoFirstRow.LostEdge` | src/graph/GoExecutor.cpp:1118-1127 | Two rows with one start and a filter that holds on the second only: nothing is returned. |
| `EdgeStore.Space.InsertEdges` | src/graph/InsertEdgeExecutor.cpp:95-251 | Both directions of every row are stored with the same properties, and mirroring is kept. |
| `EdgeStore.InsertedLookup` | src/graph/InsertEdgeExecutor.cpp:207-227 | What is stored under any key after an insertion. |
| `EdgeStore.Space.DeleteEdges` | src/graph/DeleteEdgesExecutor.cpp:81-132 | Exactly the named edges and their mirrors go. |
| `EdgeStore.Space.UpdateEdge` | src/graph/UpdateEdgeExecutor.cpp:205-266 | A false WHEN gives FILTER_OUT and a failing one FAILED, both with nothing changed, as does a missing edge without upsert; it succeeds if and only if the filter lets it through and the properties can be computed at both ends, and then each direction holds its own; no other key changes. Mirroring is kept exactly unless it is an upsert of a new edge that can be computed at its source and not at its destination. |
| `EdgeStore.UpdateLookup` | src/storage/mutate/UpdateEdgeProcessor.cpp:490-515 | What is stored under any key after an update of any store, completed or not. |
| `EdgeStore.UpdateCodes` | src/graph/UpdateEdgeExecutor.cpp:226-260 | When an update is filtered out and when it succeeds, told from any store before it. |
| `EdgeStore.UpdateMirrors` | src/graph/UpdateEdgeExecutor.cpp:205-266 | The keys stay mirrored if and only if it is not such an upsert. |
| `EdgeStore.HalfUpsertExample` | src/graph/UpdateEdgeExecutor.cpp:205-266 | An upsert into an empty store that leaves one direction. |
| `EdgeStore.HalfUpdateProps` | src/graph/UpdateEdgeExecutor.cpp:226-260 | An update of a stored edge that fails at the other end leaves the directions agreeing if and only if it changed nothing. |
| `EdgeStore.UpdateProps` | src/storage/mutate/UpdateEdgeProcessor.cpp:283-330 | After a completed update the directions agree if and only if the new properties do not depend on which end is the source. |
| `EdgeStore.SourcePropsDiverge` | src/storage/mutate/UpdateEdgeProcessor.cpp:286-301 | An update that breaks the agreement. |
| `EdgeStore.Space.CollectEdges` | src/graph/DeleteVerticesExecutor.cpp:109-171 | The keys of all edges found and of their mirrors, and no others. |
| `EdgeStore.Space.DeleteVertices` | src/graph/DeleteVerticesExecutor.cpp:44-231 | No edge touches a deleted vertex afterwards and every other edge is unchanged. |
| `EdgeStore.LeftBehind` | src/graph/DeleteVerticesExecutor.cpp:62-178 | In any store an edge is left behind if and only if one led to a deleted vertex without its mirror. |
| `EdgeStore.RunMirrored` | src/graph/InsertEdgeExecutor.cpp:207-227 | Every run of completed statements keeps the store mirrored, and the properties too if no update reads the source vertex. |
| `EdgeStore.RunLookup` | src/graph/InsertEdgeExecutor.cpp:207-227 | After every completed run an edge is what the last statement that touched it made of it, and absent if none did. |
| `Executors.ExactlyOne` | src/graph/Executor.h:64-73 | In every run of every tree the root invokes at most one callback, has invoked one exactly when nothing can happen any more, and runs are bounded. |
| `Executors.EachOnce` | src/graph/Executor.h:64-73 | Every executor of the tree is executed at most once and invokes at most one callback, only after it was executed. |
| `Executors.StepKeeps` | src/graph/PipeExecutor.cpp:30-80 | Every event anywhere keeps the invariant of the whole tree and uses up work. |
| `Executors.Progress` | src/graph/SequentialExecutor.cpp:90-92 | A tree executed and not finished can always go on. |
| `Executors.SetAfterBoth` | src/graph/SetExecutor.cpp:104-167 | A set operation runs only after both sides signalled, and succeeds only if both did. |
| `Executors.CombineOutcome` | src/graph/SetExecutor.cpp:120-165 | In every run a set operation reports success if and only if both sides finished and the operation itself succeeds, and else an error. |
| `Executors.FireOutcome` | src/graph/Executor.h:64-73 | In every run a leaf reports what it was fired with, and nothing else. |
| `Executors.PipeResponse` | src/graph/PipeExecutor.cpp:30-64 | In every run the right side of a pipe is executed if and only if the left one finished; the pipe reports what the right side does, or the error of the left. |
| `Executors.SeqResponse` | src/graph/SequentialExecutor.cpp:54-97 | The response comes from the first executor that returned, else the last; later ones never ran; a failure is reported if and only if one failed. |
| `Aggregates.AggFun.Apply` | src/graph/AggregateFunction.h:130-299 | Each aggregator's state is that of the values applied so far. |
| `Aggregates.AggFun.GetResult` | src/graph/AggregateFunction.h:130-299 | The result is the aggregate of the values applied. |
| `Aggregates.MaxAttained` | src/graph/AggregateFunction.h:260-278 | Max is one of the values and none is greater. |
| `Aggregates.MinAttained` | src/graph/AggregateFunction.h:281-299 | Min is one of the values and none is less. |
| `Aggregates.SumIs` | src/graph/AggregateFunction.h:163-209 | The first summable value fixes the type and the sum is that of all values of this type. |
| `Aggregates.AggregateLaws` | src/graph/AggregateFunction.h:130-299 | What every function gives of a group: the count, zero for a sum of nothing summable, one of the values for a grouping column, and attained bounds for Max and Min. |
| `Aggregates.SumResult` | src/graph/AggregateFunction.h:163-209 | The result of Sum has the type of the first summable value and adds up all values of it. |
| `Aggregates.GroupIsLast` | src/graph/AggregateFunction.h:130-142 | A grouping column gives the value applied last. |
| `Aggregates.CountDistinctIs` | src/graph/AggregateFunction.h:241-257 | The length of any list of the values without duplicates. |
| `Aggregates.IntegerExtremes` | src/graph/AggregateFunction.h:260-299 | Among integers Max is the greatest number and Min the least. |
| `Aggregates.DoubleExtremes` | src/graph/AggregateFunction.h:260-299 | The same among doubles. |
| `Aggregates.LessWithin` | src/interface/graph.thrift:80-90 | The order within each type; strings by their first difference. |
| `Aggregates.TypesInOrder` | src/interface/graph.thrift:80-90 | Values of different types are in the order of the union. |
| `GroupBy.GroupRow` | src/graph/GroupByExecutor.cpp:243-317 | One row changes only the aggregators of its own group, through the shared references. |
| `GroupBy.GroupingData` | src/graph/GroupByExecutor.cpp:236-331 | One output row per distinct key, each column the aggregate of its group's values in order; fails exactly when an expression does. |
| `GroupBy.CountsAddUp` | src/graph/AggregateFunction.h:145-160 | The counts of the groups add up to the number of rows. |
| `SetOps.DoIntersect` | src/graph/SetExecutor.cpp:311-319 | Each row with columns as often as both sides have it, the first copies of the left in order; one without columns if the right has one or anything matched before it. |
| `SetOps.DoMinus` | src/graph/SetExecutor.cpp:367-375 | All copies of the left rows absent from the right, in order. |
| `SetOps.DoDistinct` | src/graph/SetExecutor.cpp:269-273 | Strictly sorted with the same rows. |
| `SetOps.DoUnion` | src/graph/SetExecutor.cpp:169-221 | Concatenation, made distinct only if both sides have rows. |
| `LogCodec.EncodeKV` | src/kvstore/LogEncoder.cpp:16-27 | The bytes of a pair. |
| `LogCodec.KVRoundTrip` | src/kvstore/LogEncoder.cpp:29-35 | A pair is read back if and only if both sizes are below 2^32, and otherwise cut to them. |
| `LogCodec.EncodeMultiValues` | src/kvstore/LogEncoder.cpp:64-89 | The bytes of a multi-value log. |
| `LogCodec.EncodeMultiKVs` | src/kvstore/LogEncoder.cpp:92-120 | Pairs are encoded as twice as many values. |
| `LogCodec.EncodeTwoValues` | src/kvstore/LogEncoder.cpp:123-146 | Two values are encoded as a list of two. |
| `LogCodec.DecodeMultiValues` | src/kvstore/LogEncoder.cpp:149-165 | The pointer walk reads the counted fields one after the other, or leaves the log. |
| `LogCodec.MultiRoundTrip` | src/kvstore/LogEncoder.cpp:149-165 | Values are read back if and only if their count and sizes are below 2^32. |
| `LogCodec.HeadHolds` | src/kvstore/LogEncoder.cpp:64-82 | The head of a log holds the timestamp and the log type. |
| `LogCodec.EncodeBatchValue` | src/kvstore/LogEncoder.cpp:167-196 | The bytes of a batch. |
| `LogCodec.DecodeBatchValue` | src/kvstore/LogEncoder.cpp:198-219 | The pointer walk reads the operations one after the other with 32-bit offsets. |
| `LogCodec.BatchRoundTrip` | src/kvstore/LogEncoder.cpp:198-219 | Batches are read back if every operation fits the decoder's offsets and every one but the last its advance. |
| `LogCodec.OpDecodes` | src/kvstore/LogEncoder.cpp:206-216 | Such an operation is decoded, and the pointer behind it is right if and only if the advance fits. |
| `LogCodec.SingleOpIff` | src/kvstore/LogEncoder.cpp:198-219 | A log of one operation is read back if and only if the operation fits. |
| `LogCodec.FirstOpLost` | src/kvstore/LogEncoder.cpp:206-216 | A batch whose first operation does not fit is not read back. |
| `LogCodec.LongValueLost` | src/kvstore/LogEncoder.cpp:206-216 | After a first value of 2^32 - 8 bytes the decoder comes back into it and leaves the log. |
| `Snapshot.AccessAllRows` | src/kvstore/SnapshotManagerImpl.cpp:15-53 | Batches concatenate to the scan, or to a prefix if refused; running totals are exact; every batch but the last reaches the limit with its last row. |
| `Snapshot.AcceptedDelivery` | src/kvstore/SnapshotManagerImpl.cpp:33-52 | An accepting callback gets everything, with exactly one DONE, last. |
| `Snapshot.DeliveryDecodes` | src/kvstore/SnapshotManagerImpl.cpp:44-45 | What was delivered decodes to a prefix of the scan, to all of it exactly after DONE. |
| `Sessions.SessionManager.CreateSession` | src/graph/SessionManager.cpp:43-58 | A new nonzero id that no active session has, the first such after the counter, even across the wraparound. |
| `Sessions.FreeId` | src/graph/SessionManager.cpp:46-52 | Fewer than 2^64 - 1 sessions leave an id free, so the loop ends. |
| `Sessions.SessionManager.NewSessionId` | src/graph/SessionManager.cpp:74-80 | The next nonzero id, passing over nothing but zero. |
| `Sessions.SessionManager.RemoveSession` | src/graph/SessionManager.cpp:61-71 | Removes the session with that id only. |
| `Sessions.SessionManager.FindSession` | src/graph/SessionManager.cpp:32-40 | Finds the session that has the id. |
| `Sessions.SessionManager.ReclaimExpiredSessions` | src/graph/SessionManager.cpp:83-106 | Removes exactly the sessions idle for at least the timeout; a timeout of zero removes none. |

## Left out

- Execute: FIND PATH with a step bound of zero, whose final step `src/graph/FindPathExecutor.h:65-67` is never reached.
- BatchRoundTrip: one direction only for several operations; behind an operation that does not fit the decoder goes on from other bytes of the log, which can happen to be right. The failing side is stated for first operations (`FirstOpLost`, `SingleOpIff`), without the last 18 key sizes below 2^32, where a size is taken from the timestamp.
- SkipToNext: string lengths of 2^63 or more in malformed data are E_DATA_INVALID here; the original takes them as negative and goes on to read outside the row.
- GetField: the same.
- Traverse: patterns that read a string of 2^32 bytes or more whose count comes out positive; `ReadCell` states that the iterator is then wrong.
- WriteThenRead: what is read from a row that skips a sixteenth column, other than one that stops inside its last block (`LackingParses`).
- Run: a filter that reads an input property in a query with literal starts, for which the original has no row.
- AccessAllRows: running totals and batch sizes beyond the widths of the original's counters; batches are bounded under `Fits`.
- ApplySum: 64-bit overflow of integer sums.
- ReadBack: rows of 2^63 bytes or more, and versions of 2^32 or more.
- ReadRows: row sets with a row that, with its length, takes 2^31 bytes or more (`AdvanceIff`).
- PrepareEdges: the vector is filled by appending rather than by index, and evaluation errors of the row expressions are not modelled.
- ProcessFinalResult: yielded columns, and DISTINCT, which compares hashes of rows.
- Avg, Stdev and the bitwise aggregates; date and path columns; NaN.
- Casting of the right rows in set operations, and the checks of column counts before them.
- The writer without a schema, which builds one as it goes.
- Partial answers and exceptions of storage, more than one version of an edge, indexes and expiry.
- Index ranking of LOOKUP, the parser, the console, authentication, meta data, raft and the key-value engine.
