# pensieve RecordReader, modelled in Dafny

pensieve records a Python program's allocations to a binary trace. The
trace holds a header followed by a stream of typed records. `RecordReader`
reads the trace back as a single-threaded, pull-based decoder.

Each call of `nextAllocationRecord` reads one record-type tag at a time:

- FRAME pushes or pops a frame id on a per-thread stack.
- FRAME_INDEX defines a frame id once.
- NATIVE_TRACE_INDEX appends a link to the 1-based native chain table.
- MEMORY_MAP_START starts a new symbol-resolver generation.
- SEGMENT_HEADER registers a module's segments under the current generation.

The call stops at one of three points:

- At an ALLOCATION. The top of that thread's stack is rewritten to a "precise" frame carrying the allocation's line. The stack is turned into a deduplicated trace index. The allocation is returned with the current generation.
- At the end of the stream.
- At an error: an unknown tag, a duplicate frame id, or an undefined frame.

Two bounded walks turn an allocation's indices back into stacks:

- `Py_GetStackFrame` follows the trace tree's parent links.
- `Py_GetNativeStackFrame` follows native chain links and expands each instruction pointer through the resolver.

The project has two layers.

- `Reader.RecordReader` (record_reader.dfy) is the reader as a class.
  - Its tables are fields updated in place by methods with `modifies` clauses.
  - The dispatch loop and both walks are `while` loops over a cursor and step counters.
  - Each method is proved against a specification. The dispatch loop, the switch on one record, the correction, the trace-index lookup and both walks are proved equal to functions of the `Decoder` module (decoder.dfy).
  - The smaller parsers are tied to the table update they make. `Open` is tied to `Records.ReadHeader`, and `ParseSegmentHeader` to `SymbolResolvers.AddSegments`. `ParseFrameIndex` and `ParseNativeFrameIndex` state their map and sequence updates directly.
- `Decoder` states the same behaviour on values, and the properties are proved there:
  - `Step` is the effect of one record.
  - `DecodeNext` is one call of `nextAllocationRecord`.
  - `PythonStack` and `NativeStack` are the two walks.

Sources of the other modules:

- `FrameTrees`, `AllocationFrames` and `SymbolResolvers` give the contracts the reader uses from the trace tree, the precise-frame table and the symbol resolver. Their own sources are not part of this model.
- `Records` holds the record and header types and the header check.
- `Scenarios` reads small traces end to end.

## Model

| member | source | states |
|---|---|---|
| Records.ReadHeader | src/bloomberg/pensieve/_pensieve/record_reader.cpp:25-34 | the header is accepted exactly when both the magic and the version match; a wrong magic is refused whatever the version, a right magic with a wrong version is refused as incompatible, an accepted header is kept unchanged |
| Reader.RecordReader.Open | src/bloomberg/pensieve/_pensieve/record_reader.cpp:41-45 | opening fails exactly when the header check fails, with the same error and no reader; otherwise a fresh reader holds the header, all records and the resolver lookup it was given, with the cursor at 0 and empty tables |
| Reader.RecordReader.constructor | src/bloomberg/pensieve/_pensieve/record_reader.cpp:41-45 | the initialisation of a reader whose header passed the check: cursor 0, every table empty, the precise-frame table at its first id |
| Reader.RecordReader.GetHeader | src/bloomberg/pensieve/_pensieve/record_reader.cpp:278-282 | returns the stored header, which always carries the expected magic and version |
| Decoder.ApplyFrameEntry | src/bloomberg/pensieve/_pensieve/record_reader.cpp:64-74 | PUSH appends the frame id to exactly that thread's stack, creating it if absent; POP on a non-empty stack removes exactly its last element; every other thread's stack is unchanged |
| Decoder.PushThenPop | src/bloomberg/pensieve/_pensieve/record_reader.cpp:64-74 | a POP undoes the PUSH before it on the same thread; the map then has an entry for that thread |
| Reader.RecordReader.ParseFrame | src/bloomberg/pensieve/_pensieve/record_reader.cpp:59-75 | requires a non-empty stack for a POP; the stacks become exactly `ApplyFrameEntry` of the old stacks |
| Reader.RecordReader.ParseFrameIndex | src/bloomberg/pensieve/_pensieve/record_reader.cpp:77-91 | fails with DuplicateFrameId exactly when the id is already defined, leaving the table unchanged; otherwise the table gains exactly that one entry, with no line of its own |
| Reader.RecordReader.ParseNativeFrameIndex | src/bloomberg/pensieve/_pensieve/record_reader.cpp:93-99 | the chain table grows by exactly that one link at its end |
| Decoder.SegmentList | src/bloomberg/pensieve/_pensieve/record_reader.cpp:119-122 | the list passed on has twice as many entries as were announced: first that many default segments, then the parsed segments in order |
| Reader.RecordReader.ParseSegmentHeader | src/bloomberg/pensieve/_pensieve/record_reader.cpp:109-124 | the loop builds `SegmentList` of the parsed segments and registers it under the current generation |
| SymbolResolvers.AddSegments | src/bloomberg/pensieve/_pensieve/record_reader.cpp:123 | one module is registered after those already in the current generation; the generation and every other generation's modules are unchanged |
| SymbolResolvers.ClearSegments | src/bloomberg/pensieve/_pensieve/record_reader.cpp:196-198 | the generation goes up by one; the new generation has no modules; every earlier generation keeps its modules |
| SymbolResolvers.Resolve | src/bloomberg/pensieve/_pensieve/record_reader.cpp:256 | resolves an instruction pointer against the modules of the generation asked for, not the current one, through the supplied lookup. It has no `ensures` of its own: `SymbolResolvers.ResolvePastGenerationStable` states its property |
| SymbolResolvers.ResolvePastGenerationStable | src/bloomberg/pensieve/_pensieve/record_reader.cpp:256 | resolving at a generation that has already ended gives the same answer after a later memory-map change or registration |
| AllocationFrames.GetIndex | src/bloomberg/pensieve/_pensieve/record_reader.cpp:160 | `is_new` holds exactly when the frame was absent; equal frames get one id; the table changes only for a new frame, whose minted id no other frame has |
| Decoder.CorrectAllocationFrame | src/bloomberg/pensieve/_pensieve/record_reader.cpp:148-165 | empty stack: nothing changes. Undefined top: MissingFrame. Otherwise only the top is replaced, by the id of a precise frame with the old top's function, file and caller line and the allocation's line. A known precise frame reuses its id and changes no table; a new one gets a fresh id, the precise-frame table gains exactly that entry, and the frame is added to the frame table unless that id is taken. The change stays in the stored stack. |
| Reader.RecordReader.CorrectAllocationFrame | src/bloomberg/pensieve/_pensieve/record_reader.cpp:148-165 | fails exactly when `Decoder.CorrectAllocationFrame` does, with the same error and no change; otherwise the tables become its result |
| FrameTrees.GetTraceIndex | src/bloomberg/pensieve/_pensieve/record_reader.cpp:145 | the returned index names the stack; the tree only grows; a stack already stored gets its old index with nothing added; the empty stack is index 0 |
| FrameTrees.LookupWalk | src/bloomberg/pensieve/_pensieve/record_reader.cpp:145 | walking parent links from a stack's index visits the stack from top to bottom |
| FrameTrees.DistinctStacksDistinctIndices | src/bloomberg/pensieve/_pensieve/record_reader.cpp:145 | distinct stacks never share an index |
| FrameTrees.PrefixIsAncestor | src/bloomberg/pensieve/_pensieve/record_reader.cpp:145 | every prefix of a stored stack is stored and is an ancestor of the stack's node |
| FrameTrees.SharedPrefixSharedNode | src/bloomberg/pensieve/_pensieve/record_reader.cpp:145 | two stored stacks with a common prefix reach the same node for it |
| FrameTrees.LookupExtends | src/bloomberg/pensieve/_pensieve/record_reader.cpp:145 | an index issued for a stack stays that stack's index as the tree grows |
| FrameTrees.WalkExtends | src/bloomberg/pensieve/_pensieve/record_reader.cpp:223 | walking from an index the tree already had gives the same frames after the tree grows |
| FrameTrees.NextNode | src/bloomberg/pensieve/_pensieve/record_reader.cpp:223 | one step of the walk: the parent index is smaller, and the walk is this node's frame followed by the parent's walk |
| Decoder.GetAllocationFrameIndex | src/bloomberg/pensieve/_pensieve/record_reader.cpp:137-146 | a thread with no stack gets index 0 and nothing changes. Otherwise it fails exactly when the correction fails. On success the returned index is the corrected stack's index in the grown tree, its walk is that stack from top to bottom, and the resolver and native table are unchanged. |
| Reader.RecordReader.GetAllocationFrameIndex | src/bloomberg/pensieve/_pensieve/record_reader.cpp:137-146 | returns what `Decoder.GetAllocationFrameIndex` returns and leaves its tables; a failure leaves every table unchanged |
| Decoder.Step | src/bloomberg/pensieve/_pensieve/record_reader.cpp:177-204 | the five side-effect records let the loop go on, except a duplicate FRAME_INDEX, which fails; only MEMORY_MAP_START moves the generation, by one. An ALLOCATION yields its record with the current generation and leaves the resolver alone, or fails with MissingFrame exactly when the thread's stack is non-empty and its top names no defined frame. A yielded allocation's trace index is in the tree, and walking back from it visits the thread's corrected stack from top to bottom; a thread with no stack gets the empty walk. An unknown tag fails with InvalidRecordType. No other failure is possible. |
| Reader.RecordReader.DispatchRecord | src/bloomberg/pensieve/_pensieve/record_reader.cpp:177-204 | the switch on one record takes the tables to `Step`'s state: go on, return the allocation, or fail with nothing changed |
| Reader.RecordReader.ReadRecord | src/bloomberg/pensieve/_pensieve/record_reader.cpp:174-204 | one pass of the loop consumes one record; a pass that goes on keeps the loop's remaining result equal to the one the call started with, and a pass that stops returns exactly that result |
| Decoder.DecodeNext | src/bloomberg/pensieve/_pensieve/record_reader.cpp:169-209 | one call of `nextAllocationRecord` on a state and the remaining records: its outcome, the records consumed and the tables afterwards. Its own contract gives only that the tables stay valid and that no more records are consumed than remain; its properties are the `Decoder.DecodeNext*` lemmas |
| Reader.RecordReader.NextAllocationRecord | src/bloomberg/pensieve/_pensieve/record_reader.cpp:169-209 | returns `DecodeNext` of the tables and the remaining records, advances the cursor by exactly the records it consumed, and leaves the tables in `DecodeNext`'s state |
| Decoder.DecodeNextConsumes | src/bloomberg/pensieve/_pensieve/record_reader.cpp:173-208 | end of stream is reported only once every remaining record has been consumed; any other result consumes at least one record |
| Decoder.DecodeNextPassesSideEffects | src/bloomberg/pensieve/_pensieve/record_reader.cpp:187-201 | every record the loop passes over without stopping is one of the five side-effect records |
| Decoder.DecodeNextStops | src/bloomberg/pensieve/_pensieve/record_reader.cpp:178-186 | the loop never reads past an ALLOCATION or an unknown tag |
| Decoder.DecodeNextOutcome | src/bloomberg/pensieve/_pensieve/record_reader.cpp:178-204 | a returned allocation is the record of the last record consumed, an ALLOCATION, with the generation current at that point, and its trace index walks back through its thread's corrected stack from top to bottom; a failure is explained by the last record consumed: an unknown tag; a FRAME_INDEX whose id is already defined; or an ALLOCATION whose thread's stack is non-empty with the error's id on top and that id undefined, both judged on the tables returned with the failure |
| Decoder.DecodeNextGeneration | src/bloomberg/pensieve/_pensieve/record_reader.cpp:184 | the generation after a call, and so the one a returned allocation carries, is the starting generation plus the number of MEMORY_MAP_START records consumed |
| Scenarios.FirstAllocationFirst | src/bloomberg/pensieve/_pensieve/record_reader.cpp:173-186 | a returned allocation comes from the first ALLOCATION left in the stream |
| Scenarios.UnseenThreadAllocation | src/bloomberg/pensieve/_pensieve/record_reader.cpp:140-143 | an ALLOCATION on a thread with no stack is returned after one record with index 0 and the current generation, nothing changes, and its Python stack is empty |
| Scenarios.DefineThenPush | src/bloomberg/pensieve/_pensieve/record_reader.cpp:187-192 | FRAME_INDEX then PUSH on fresh tables are passed over and leave exactly one frame defined and one one-frame stack |
| Scenarios.CorrectOnPushed | src/bloomberg/pensieve/_pensieve/record_reader.cpp:148-165 | when the first precise id differs from the defined frame's id: on a one-frame stack of fresh tables the correction succeeds, the stack becomes the first precise id alone, and that id names the defined frame with the allocation's line |
| Scenarios.YieldOnPushed | src/bloomberg/pensieve/_pensieve/record_reader.cpp:178-186 | under the same condition on the ids, the ALLOCATION step on that stack yields the record, and the thread's stack is the precise frame alone |
| Scenarios.AllocateOnPushed | src/bloomberg/pensieve/_pensieve/record_reader.cpp:178-186 | under the same condition on the ids, an ALLOCATION on that one-frame stack is returned, and its Python stack is the defined frame with the allocation's line, paired with -1 |
| Scenarios.OneFrameTrace | src/bloomberg/pensieve/_pensieve/record_reader.cpp:169-241 | FRAME_INDEX, PUSH, ALLOCATION, with the first precise id differing from the defined frame's id: the allocation is returned after three records, and its Python stack is exactly the one precise frame |
| Decoder.PythonStack | src/bloomberg/pensieve/_pensieve/record_reader.cpp:214-236 | at most `max_stacks` frames; index 0 or a zero bound gives the empty list; the first frame is paired with -1 and each later frame with the previous frame's caller line |
| Decoder.PythonStackFollowsWalk | src/bloomberg/pensieve/_pensieve/record_reader.cpp:222-235 | the walk yields the frames of the first min(depth, max_stacks) nodes of the trace, in order, and succeeds exactly when all of them are defined |
| Decoder.PythonStackOfStack | src/bloomberg/pensieve/_pensieve/record_reader.cpp:211-241 | walking from a stored stack's index, with a bound no smaller than the stack, yields that stack's frames from top to bottom |
| Decoder.PythonStackStable | src/bloomberg/pensieve/_pensieve/record_reader.cpp:211-241 | a walk that succeeded gives the same result in any grown tree and frame table; `Decoder.LaterRecordsKeepPythonStack` applies it to the tables after later records |
| Reader.RecordReader.GetStackFrame | src/bloomberg/pensieve/_pensieve/record_reader.cpp:211-241 | the loop returns exactly `PythonStack` from the index with line -1, and it changes nothing, so repeated calls agree |
| Scenarios.OneFrameWalk | src/bloomberg/pensieve/_pensieve/record_reader.cpp:222-236 | a trace whose walk is one defined frame gives that frame alone, paired with -1 |
| Decoder.ChainSteps | src/bloomberg/pensieve/_pensieve/record_reader.cpp:253-255 | the links the native walk visits: at most `max_stacks`, each a valid 1-based index, starting at `index`, each one the previous link's `index`, and ending before the bound only at a 0 link |
| Decoder.NativeStackIsConcat | src/bloomberg/pensieve/_pensieve/record_reader.cpp:253-271 | the native stack is the resolved frames of the visited links, in chain order and resolver order; an unresolved link adds nothing but still uses a step |
| Decoder.NativeStackAppendStable | src/bloomberg/pensieve/_pensieve/record_reader.cpp:98 | appending chain links leaves every walk over the old table unchanged |
| Decoder.NativeStackPastGenerationStable | src/bloomberg/pensieve/_pensieve/record_reader.cpp:256 | the native stack at a generation depends only on that generation's modules |
| Decoder.CorrectionGrows | src/bloomberg/pensieve/_pensieve/record_reader.cpp:160-164 | a correction that succeeds only grows the tables: the frames already defined keep their definitions and every precise frame keeps its id |
| Decoder.AllocationGrows | src/bloomberg/pensieve/_pensieve/record_reader.cpp:137-146 | an ALLOCATION that succeeds only grows the tables: the trace tree is extended and nothing else is lost |
| Decoder.StepGrows | src/bloomberg/pensieve/_pensieve/record_reader.cpp:177-204 | every record that does not fail only grows the tables. The tree is extended, defined frames and precise-frame ids are kept, the native table is only appended to, and the generation never goes back. Every generation that has ended keeps its modules. |
| Decoder.DecodeNextGrows | src/bloomberg/pensieve/_pensieve/record_reader.cpp:169-209 | a whole call of `nextAllocationRecord`, whatever it returns, only grows the tables in that sense, so an index issued earlier stays in the tree |
| Decoder.LaterRecordsKeepPreciseIds | src/bloomberg/pensieve/_pensieve/record_reader.cpp:160-162 | after any later call a precise frame still has the id it was given, so a later ALLOCATION in the same frame at the same line reuses that id |
| Decoder.LaterRecordsKeepPythonStack | src/bloomberg/pensieve/_pensieve/record_reader.cpp:211-241 | an issued index stays in the tree after any later call, and a Python stack that could be read from it reads the same afterwards |
| Decoder.LaterRecordsKeepNativeStack | src/bloomberg/pensieve/_pensieve/record_reader.cpp:243-276 | after any later call, the native stack of a chain index at a generation that has already ended is still in range and reads the same |
| Reader.RecordReader.AppendAll | src/bloomberg/pensieve/_pensieve/record_reader.cpp:260-270 | appending the resolved frames one by one gives the list followed by all of them, in order |
| Decoder.NativeStack | src/bloomberg/pensieve/_pensieve/record_reader.cpp:253-271 | at most `max_stacks` chain links from `index`, 1-based and ending at 0, each adding its resolved frames. It has no `ensures` of its own: `Decoder.ChainSteps` and `Decoder.NativeStackIsConcat` state what it yields |
| Reader.RecordReader.GetNativeStackFrame | src/bloomberg/pensieve/_pensieve/record_reader.cpp:243-276 | the loop returns exactly `NativeStack` from the index at the given generation, and changes nothing |

## Left out

- The byte layout and the `Source` I/O (`read`, `getline`, `close`, `isOpen`, the struct casts, `reserve(4096)`) are not modelled. The model reads a sequence of decoded records through a cursor. The end of the sequence is the `IoError` that makes `nextAllocationRecord` return false. A record cut off by the end of the stream is not modelled separately.
- Python C-API handling is not modelled. This covers `PyList_New`, `PyList_Append`, `toPythonObject`, the string cache, reference counts, the `goto error` paths and the early `return nullptr` in the native walk. Both walks return a Dafny sequence, with `PyFrame` pairing each frame with its line.
- The symbol resolver's lookup is not modelled. This covers segment intervals, debug information and inlining. It is a function of one generation's modules, supplied by the caller. Only the generation counter and the per-generation registration are modelled.
- The trace tree and the precise-frame table are given by the contracts the reader relies on, not by their own code. The header types and constants are not part of this model either: `MAGIC` and `CURRENT_HEADER_VERSION` are declared without a value, and the header check is proved for whatever values they have. The precise-frame table's first id and stride are parameters of `Open`.
- The `stats` blob, the `native_traces` flag and the command line are carried in the header without being interpreted.
- Integer widths are not modelled. This covers the `unsigned int` index of `Py_GetStackFrame`, `size_t` and the 32-bit line numbers; all are unbounded here.
- The tag check of `parseSegment` is an `assert` on the segment record tag. It is not modelled: a SEGMENT_HEADER record carries its parsed segments.
- A frame's own line: in the source it is the plain integer field `lineno` of `Frame`. `parseFrameIndex` leaves it at its default, and the correction fills it from the allocation's line at record_reader.cpp:159. The model writes it as `Option<int>`. `None` stands for the default, whose value comes from the header types, which are not part of this model.
- FrameAction values other than PUSH and POP are not modelled; the switch at record_reader.cpp:66 ignores them.
- Reader.RecordReader.NextAllocationRecord: POP on an empty stack is only an `assert` in the source. It is a precondition here (`PopsSafe`), so that case has no modelled behaviour.
- Reader.RecordReader.ParseFrame: the same POP precondition.
- Reader.RecordReader.GetStackFrame: requires the index to be in the trace tree. The source takes any `unsigned int`, and what the tree does for an index out of range is not part of this model.
- Reader.RecordReader.GetNativeStackFrame: requires every chain link it reads to be in the table (`ChainInRange`). The source indexes `d_native_frames` without a bounds check, so an out-of-range link is undefined behaviour there.
- Reader.RecordReader.ReadRecord, Reader.RecordReader.DispatchRecord and Reader.RecordReader.AppendAll are the body of the dispatch loop and of the native walk's inner loop, written as separate methods.
- The precise frame's id can equal an id already defined by FRAME_INDEX. `emplace` then adds nothing, and the stack's new top names the older frame. The model keeps this behaviour: `Decoder.CorrectAllocationFrame` states it. `Scenarios.CorrectOnPushed`, `Scenarios.YieldOnPushed`, `Scenarios.AllocateOnPushed` and `Scenarios.OneFrameTrace` assume the ids differ.
- The corrected top of a stack persists: record_reader.cpp:164 writes through a reference into the stored stack. The corrected top stays until it is popped.
- The doubled segment list of `parseSegmentHeader` (record_reader.cpp:119-122) is modelled as written, by `Decoder.SegmentList`.
