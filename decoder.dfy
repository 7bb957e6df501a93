/**
 * What `RecordReader` does, stated on values: the reader's tables as one
 * state, the effect of one record on them, the decoding of the next
 * allocation, and the two bounded walks back from an allocation's indices.
 * The class in record_reader.dfy is proved to do exactly this.
 */
module Decoder {
  import opened Wrappers
  import opened Records
  import FrameTrees
  import AllocationFrames
  import SymbolResolvers

  type Stacks = map<ThreadId, seq<FrameId>>

  /** The reader's tables: per-thread stacks, frame table, native chain table, trace tree, precise frames, resolver. */
  datatype ReaderState = ReaderState(
    stacks: Stacks,
    frames: map<FrameId, Frame>,
    native: seq<UnresolvedNativeFrame>,
    tree: FrameTrees.FrameTree,
    allocationFrames: AllocationFrames.FrameCollection,
    resolver: SymbolResolvers.SymbolResolver)

  /** Every id the precise-frame table has handed out names an entry of the frame table. */
  ghost predicate Valid(st: ReaderState)
  {
    && FrameTrees.Valid(st.tree)
    && AllocationFrames.Valid(st.allocationFrames)
    && SymbolResolvers.Valid(st.resolver)
    && (forall f :: f in st.allocationFrames.ids ==> st.allocationFrames.ids[f] in st.frames)
  }

  function InitialState(firstPreciseId: FrameId, stride: nat): (st: ReaderState)
    requires stride > 0
    ensures Valid(st)
  {
    ReaderState(map[], map[], [], FrameTrees.EmptyTree, AllocationFrames.Init(firstPreciseId, stride),
                SymbolResolvers.InitialResolver)
  }

  datatype ReadError =
    | DuplicateFrameId(id: FrameId)   // "Two entries with the same ID found!"
    | InvalidRecordType(tag: byte)    // "Invalid record type"
    | MissingFrame(id: FrameId)       // `d_frame_map.at` on an id never defined

  /** The reader's output: the raw record, its trace index and the resolver generation at capture time. */
  datatype Allocation = Allocation(record: AllocationRecord, frameIndex: nat, nativeSegmentGeneration: nat)

  datatype StepResult = Next(state: ReaderState) | Yield(allocation: Allocation, state: ReaderState) | Fail(error: ReadError)

  datatype DecodeResult = Got(allocation: Allocation) | EndOfStream | Failed(error: ReadError)

  /** What one call of `nextAllocationRecord` comes to: its outcome, the records it consumed and the tables afterwards. */
  datatype Decoded = Decoded(outcome: DecodeResult, consumed: nat, state: ReaderState)

  function StackOf(stacks: Stacks, tid: ThreadId): seq<FrameId>
  {
    if tid in stacks then stacks[tid] else []
  }

  /**
   * A FRAME record: PUSH appends to that thread's stack (creating it), POP
   * drops its last element; no other thread's stack changes. POP on an empty
   * stack is forbidden to callers (see `PopAllowed`); the value given for it
   * here is never used.
   */
  function ApplyFrameEntry(stacks: Stacks, e: FrameSeqEntry): (r: Stacks)
    ensures r.Keys == stacks.Keys + {e.tid}
    ensures forall t :: t in stacks && t != e.tid ==> r[t] == stacks[t]
    ensures e.action == Push ==> r[e.tid] == StackOf(stacks, e.tid) + [e.frameId]
    ensures e.action == Pop && StackOf(stacks, e.tid) != [] ==>
              r[e.tid] + [StackOf(stacks, e.tid)[|StackOf(stacks, e.tid)| - 1]] == StackOf(stacks, e.tid)
  {
    var s := StackOf(stacks, e.tid);
    match e.action
    case Push => stacks[e.tid := s + [e.frameId]]
    case Pop => stacks[e.tid := if s == [] then s else s[..|s| - 1]]
  }

  /** A POP that follows a PUSH on the same thread gives back the stack that was there. */
  lemma PushThenPop(stacks: Stacks, tid: ThreadId, f: FrameId)
    ensures var pushed := ApplyFrameEntry(stacks, FrameSeqEntry(f, tid, Push));
            ApplyFrameEntry(pushed, FrameSeqEntry(f, tid, Pop)) == stacks[tid := StackOf(stacks, tid)]
  {
    var s := StackOf(stacks, tid);
    assert (s + [f])[..|s|] == s;
  }

  /** The POP precondition of `parseFrame`: the thread has a stack and it is not empty. */
  predicate PopAllowed(st: ReaderState, rec: Record)
  {
    rec.FrameRec? && rec.entry.action == Pop ==> rec.entry.tid in st.stacks && st.stacks[rec.entry.tid] != []
  }

  /** The stack with its top replaced. */
  function ReplaceTop(s: seq<FrameId>, id: FrameId): (r: seq<FrameId>)
    requires s != []
    ensures |r| == |s| && r[|s| - 1] == id
    ensures forall k :: 0 <= k < |s| - 1 ==> r[k] == s[k]
  {
    s[..|s| - 1] + [id]
  }

  /**
   * The list `parseSegmentHeader` hands to the resolver: it is built with
   * `num_segments` default segments already in it, and the parsed segments
   * are appended after them.
   */
  function SegmentList(parsed: seq<Segment>): (r: seq<Segment>)
    ensures |r| == 2 * |parsed|
    ensures forall k :: 0 <= k < |parsed| ==> r[k] == DefaultSegment && r[|parsed| + k] == parsed[k]
  {
    seq(|parsed|, _ => DefaultSegment) + parsed
  }

  /**
   * `correctAllocationFrame`: the top of the thread's stack is replaced by
   * the id of a precise frame that copies the top frame's function, file and
   * caller line and takes the allocation's line. An equal precise frame seen
   * before keeps its id and changes nothing else; a new one is added to the
   * frame table unless its id is taken there already. An empty stack is left
   * as it is; a top id with no frame is an error.
   */
  function CorrectAllocationFrame(st: ReaderState, tid: ThreadId, lineno: int): (r: Result<ReaderState, ReadError>)
    requires Valid(st) && tid in st.stacks
    ensures r.Success? ==> Valid(r.value)
    ensures r.Success? ==> r.value.native == st.native && r.value.tree == st.tree && r.value.resolver == st.resolver
    ensures st.stacks[tid] == [] ==> r == Success(st)
    ensures st.stacks[tid] != [] && st.stacks[tid][|st.stacks[tid]| - 1] !in st.frames ==>
              r == Failure(MissingFrame(st.stacks[tid][|st.stacks[tid]| - 1]))
    ensures st.stacks[tid] != [] && st.stacks[tid][|st.stacks[tid]| - 1] in st.frames ==>
              (r.Success? && tid in r.value.stacks &&
                var s := st.stacks[tid];
                var top := st.frames[s[|s| - 1]];
                var precise := Frame(top.functionName, top.filename, top.parentLineno, Some(lineno));
                var s2 := r.value.stacks[tid];
                && r.value.stacks == st.stacks[tid := s2]
                && |s2| == |s| && (forall k :: 0 <= k < |s| - 1 ==> s2[k] == s[k])
                && precise in r.value.allocationFrames.ids && r.value.allocationFrames.ids[precise] == s2[|s| - 1]
                && s2[|s| - 1] in r.value.frames
                && (precise in st.allocationFrames.ids ==>
                      && s2[|s| - 1] == st.allocationFrames.ids[precise]
                      && r.value.frames == st.frames && r.value.allocationFrames == st.allocationFrames)
                && (precise !in st.allocationFrames.ids ==>
                      && s2[|s| - 1] !in st.allocationFrames.ids.Values
                      && r.value.allocationFrames.ids == st.allocationFrames.ids[precise := s2[|s| - 1]]
                      && r.value.frames == if s2[|s| - 1] in st.frames then st.frames else st.frames[s2[|s| - 1] := precise]))
  {
    var stack := st.stacks[tid];
    if stack == [] then Success(st)
    else
      var topId := stack[|stack| - 1];
      if topId !in st.frames then Failure(MissingFrame(topId))
      else
        var partial := st.frames[topId];
        var allocationFrame := Frame(partial.functionName, partial.filename, partial.parentLineno, Some(lineno));
        var (collection, allocationIndex, isNew) := AllocationFrames.GetIndex(st.allocationFrames, allocationFrame);
        var frames := if isNew && allocationIndex !in st.frames then st.frames[allocationIndex := allocationFrame] else st.frames;
        Success(st.(stacks := st.stacks[tid := ReplaceTop(stack, allocationIndex)],
                    frames := frames, allocationFrames := collection))
  }

  /**
   * The thread has a non-empty stack whose top `id` names no defined frame:
   * the one case in which the correction's frame lookup fails.
   */
  predicate UndefinedTop(st: ReaderState, tid: ThreadId, id: FrameId)
  {
    tid in st.stacks && st.stacks[tid] != [] && st.stacks[tid][|st.stacks[tid]| - 1] == id && id !in st.frames
  }

  /**
   * `getAllocationFrameIndex`: a thread with no stack gets trace index 0 and
   * nothing changes; otherwise the corrected stack is looked up (or added)
   * in the trace tree, and walking back from the index returned visits the
   * corrected stack from top to bottom.
   */
  function GetAllocationFrameIndex(st: ReaderState, rec: AllocationRecord): (r: Result<(nat, ReaderState), ReadError>)
    requires Valid(st)
    ensures r.Success? ==> Valid(r.value.1) && r.value.1.resolver == st.resolver && r.value.1.native == st.native
    ensures r.Success? ==> FrameTrees.Extends(st.tree, r.value.1.tree) && r.value.0 < |r.value.1.tree.nodes|
    ensures rec.tid !in st.stacks ==> r == Success((0, st))
    ensures rec.tid in st.stacks ==>
              var c := CorrectAllocationFrame(st, rec.tid, rec.pyLineno);
              && (r.Failure? <==> c.Failure?)
              && (r.Failure? ==> r.error == c.error)
              && (r.Success? ==>
                    && r.value.1.stacks == c.value.stacks
                    && r.value.1.frames == c.value.frames
                    && r.value.1.allocationFrames == c.value.allocationFrames
                    && FrameTrees.Lookup(r.value.1.tree, c.value.stacks[rec.tid]) == Some(r.value.0)
                    && FrameTrees.Walk(r.value.1.tree, r.value.0) == FrameTrees.Reverse(c.value.stacks[rec.tid]))
  {
    if rec.tid !in st.stacks then Success((0, st))
    else
      match CorrectAllocationFrame(st, rec.tid, rec.pyLineno)
      case Failure(e) => Failure(e)
      case Success(st1) =>
        var (tree, index) := FrameTrees.GetTraceIndex(st1.tree, st1.stacks[rec.tid]);
        FrameTrees.LookupWalk(tree, st1.stacks[rec.tid]);
        Success((index, st1.(tree := tree)))
  }

  /**
   * One pass of the dispatch loop. The five side-effect records update the
   * tables and let the loop go on (a FRAME_INDEX with an id already defined
   * fails and changes nothing); an ALLOCATION is returned with the current
   * generation; any other tag fails.
   */
  function Step(st: ReaderState, rec: Record): (r: StepResult)
    requires Valid(st)
    ensures r.Next? ==> Valid(r.state) && IsSideEffect(rec)
    ensures r.Next? ==> r.state.resolver.generation == st.resolver.generation + (if rec.MemoryMapStartRec? then 1 else 0)
    ensures r.Yield? ==> Valid(r.state) && rec.AllocationRec? && r.allocation.record == rec.record
    ensures r.Yield? ==> r.allocation.nativeSegmentGeneration == st.resolver.generation && r.state.resolver == st.resolver
    ensures r.Yield? ==> && r.allocation.frameIndex < |r.state.tree.nodes|
                         && FrameTrees.Walk(r.state.tree, r.allocation.frameIndex)
                            == FrameTrees.Reverse(StackOf(r.state.stacks, rec.record.tid))
    ensures r.Fail? ==> || (rec.UnknownRecord? && r.error == InvalidRecordType(rec.tag))
                        || (rec.FrameIndexRec? && rec.id in st.frames && r.error == DuplicateFrameId(rec.id))
                        || (rec.AllocationRec? && r.error.MissingFrame? && UndefinedTop(st, rec.record.tid, r.error.id))
    ensures rec.AllocationRec? && rec.record.tid in st.stacks && st.stacks[rec.record.tid] != [] ==>
              var id := st.stacks[rec.record.tid][|st.stacks[rec.record.tid]| - 1];
              UndefinedTop(st, rec.record.tid, id) ==> r == Fail(MissingFrame(id))
    ensures IsSideEffect(rec) && !(rec.FrameIndexRec? && rec.id in st.frames) ==> r.Next?
    ensures rec.FrameIndexRec? && rec.id in st.frames ==> r == Fail(DuplicateFrameId(rec.id))
    ensures rec.UnknownRecord? ==> r == Fail(InvalidRecordType(rec.tag))
  {
    match rec
    case AllocationRec(record) =>
      (match GetAllocationFrameIndex(st, record)
       case Success((index, st1)) => Yield(Allocation(record, index, st.resolver.generation), st1)
       case Failure(e) => Fail(e))
    case FrameRec(entry) =>
      Next(st.(stacks := ApplyFrameEntry(st.stacks, entry)))
    case FrameIndexRec(id, functionName, filename, parentLineno) =>
      if id in st.frames then Fail(DuplicateFrameId(id))
      else Next(st.(frames := st.frames[id := Frame(functionName, filename, parentLineno, None)]))
    case NativeTraceIndexRec(frame) =>
      Next(st.(native := st.native + [frame]))
    case MemoryMapStartRec =>
      Next(st.(resolver := SymbolResolvers.ClearSegments(st.resolver)))
    case SegmentHeaderRec(filename, addr, segments) =>
      Next(st.(resolver := SymbolResolvers.AddSegments(st.resolver, filename, addr, SegmentList(segments))))
    case UnknownRecord(tag) =>
      Fail(InvalidRecordType(tag))
  }

  /**
   * `nextAllocationRecord` on a state and the records still to be read: the
   * outcome, how many records it consumed and the tables afterwards.
   */
  function DecodeNext(st: ReaderState, recs: seq<Record>): (r: Decoded)
    requires Valid(st)
    ensures Valid(r.state) && r.consumed <= |recs|
    decreases |recs|
  {
    if recs == [] then Decoded(EndOfStream, 0, st)
    else
      match Step(st, recs[0])
      case Next(st1) => Shift(DecodeNext(st1, recs[1..]), 1)
      case Yield(allocation, st1) => Decoded(Got(allocation), 1, st1)
      case Fail(e) => Decoded(Failed(e), 1, st)
  }

  /** The dispatch loop reports the end of the stream only once every remaining record is consumed, and otherwise consumes at least one. */
  lemma {:induction false} DecodeNextConsumes(st: ReaderState, recs: seq<Record>)
    requires Valid(st)
    ensures DecodeNext(st, recs).outcome.EndOfStream? ==> DecodeNext(st, recs).consumed == |recs|
    ensures !DecodeNext(st, recs).outcome.EndOfStream? ==> 0 < DecodeNext(st, recs).consumed
    decreases |recs|
  {
    if recs != [] {
      DecodeNextUnfold(st, recs);
      var s := Step(st, recs[0]);
      if s.Next? {
        DecodeNextConsumes(s.state, recs[1..]);
      }
    }
  }

  /** Every record the dispatch loop passes over without stopping is a side-effect record. */
  lemma {:induction false} DecodeNextPassesSideEffects(st: ReaderState, recs: seq<Record>)
    requires Valid(st)
    ensures var r := DecodeNext(st, recs);
            forall i :: 0 <= i < r.consumed && (i + 1 < r.consumed || r.outcome.EndOfStream?) ==> IsSideEffect(recs[i])
    decreases |recs|
  {
    if recs != [] {
      DecodeNextUnfold(st, recs);
      var s := Step(st, recs[0]);
      if s.Next? {
        DecodeNextPassesSideEffects(s.state, recs[1..]);
        assert forall i :: 1 <= i < |recs| ==> recs[i] == recs[1..][i - 1];
      }
    }
  }

  /** The dispatch loop never reads past an ALLOCATION or an unknown record. */
  lemma {:induction false} DecodeNextStops(st: ReaderState, recs: seq<Record>)
    requires Valid(st)
    ensures forall i :: 0 <= i < |recs| && (recs[i].AllocationRec? || recs[i].UnknownRecord?) ==> DecodeNext(st, recs).consumed <= i + 1
    decreases |recs|
  {
    if recs != [] {
      DecodeNextUnfold(st, recs);
      var s := Step(st, recs[0]);
      if s.Next? {
        DecodeNextStops(s.state, recs[1..]);
        forall i | 0 <= i < |recs| && (recs[i].AllocationRec? || recs[i].UnknownRecord?)
          ensures DecodeNext(st, recs).consumed <= i + 1
        {
          assert i != 0 && recs[i] == recs[1..][i - 1];
        }
      }
    }
  }

  /**
   * The last record the dispatch loop consumes explains its outcome: an
   * allocation comes from an ALLOCATION record and carries the generation
   * then current; a failure is an unknown tag, a FRAME_INDEX whose id is
   * already defined or an ALLOCATION whose thread's stack top names no
   * defined frame, both judged on the tables returned with the failure.
   */
  lemma {:induction false} DecodeNextOutcome(st: ReaderState, recs: seq<Record>)
    requires Valid(st)
    ensures var r := DecodeNext(st, recs);
            r.outcome.Got? ==>
              && 0 < r.consumed && recs[r.consumed - 1].AllocationRec?
              && r.outcome.allocation.record == recs[r.consumed - 1].record
              && r.outcome.allocation.nativeSegmentGeneration == r.state.resolver.generation
              && r.outcome.allocation.frameIndex < |r.state.tree.nodes|
              && FrameTrees.Walk(r.state.tree, r.outcome.allocation.frameIndex)
                 == FrameTrees.Reverse(StackOf(r.state.stacks, recs[r.consumed - 1].record.tid))
    ensures var r := DecodeNext(st, recs);
            r.outcome.Failed? ==>
              && 0 < r.consumed
              && (|| (r.outcome.error.InvalidRecordType? && recs[r.consumed - 1] == UnknownRecord(r.outcome.error.tag))
                  || (r.outcome.error.DuplicateFrameId? && recs[r.consumed - 1].FrameIndexRec?
                      && recs[r.consumed - 1].id == r.outcome.error.id && r.outcome.error.id in r.state.frames)
                  || (r.outcome.error.MissingFrame? && recs[r.consumed - 1].AllocationRec?
                      && UndefinedTop(r.state, recs[r.consumed - 1].record.tid, r.outcome.error.id)))
    decreases |recs|
  {
    if recs != [] {
      DecodeNextUnfold(st, recs);
      var s := Step(st, recs[0]);
      if s.Next? {
        DecodeNextOutcome(s.state, recs[1..]);
        var n := DecodeNext(s.state, recs[1..]).consumed;
        if 0 < n {
          assert recs[n] == recs[1..][n - 1];
        }
      }
    }
  }

  /** A decoding result with `k` more records counted as consumed. */
  function Shift(d: Decoded, k: nat): Decoded
  {
    d.(consumed := d.consumed + k)
  }

  lemma ShiftShift(d: Decoded, a: nat, b: nat)
    ensures Shift(Shift(d, a), b) == Shift(d, a + b)
  {
  }

  /** `DecodeNext` after its first record, in terms of what `Step` did with it. */
  lemma DecodeNextUnfold(st: ReaderState, recs: seq<Record>)
    requires Valid(st) && recs != []
    ensures var s := Step(st, recs[0]);
            s.Next? ==> DecodeNext(st, recs) == Shift(DecodeNext(s.state, recs[1..]), 1)
    ensures var s := Step(st, recs[0]);
            s.Yield? ==> DecodeNext(st, recs) == Decoded(Got(s.allocation), 1, s.state)
    ensures var s := Step(st, recs[0]);
            s.Fail? ==> DecodeNext(st, recs) == Decoded(Failed(s.error), 1, st)
  {
  }

  /** The POP requirement is met by the first record, and again by the rest once the loop passes the first. */
  lemma PopsSafeStep(st: ReaderState, recs: seq<Record>)
    requires Valid(st) && recs != [] && PopsSafe(st, recs)
    ensures PopAllowed(st, recs[0])
    ensures Step(st, recs[0]).Next? ==> PopsSafe(Step(st, recs[0]).state, recs[1..])
  {
    match recs[0]
    case FrameIndexRec(id, functionName, filename, parentLineno) =>
      if id !in st.frames {
        assert Step(st, recs[0]).state.frames.Keys == st.frames.Keys + {id};
      }
    case _ =>
  }

  /**
   * No POP in the records up to the next stopping record hits an empty
   * stack. Only FRAME records change the stacks, and only an ALLOCATION, an
   * unknown tag or a FRAME_INDEX whose id is already defined stop the
   * dispatch loop, so the stacks and the set of defined frame ids are all
   * this needs to follow.
   */
  ghost predicate PopsSafe(st: ReaderState, recs: seq<Record>)
  {
    PopsSafeFrom(st.stacks, st.frames.Keys, recs)
  }

  ghost predicate PopsSafeFrom(stacks: Stacks, defined: set<FrameId>, recs: seq<Record>)
    decreases |recs|
  {
    recs == [] ||
    match recs[0]
    case FrameRec(e) =>
      (e.action == Pop ==> e.tid in stacks && stacks[e.tid] != []) && PopsSafeFrom(ApplyFrameEntry(stacks, e), defined, recs[1..])
    case FrameIndexRec(id, _, _, _) => id in defined || PopsSafeFrom(stacks, defined + {id}, recs[1..])
    case AllocationRec(_) => true
    case UnknownRecord(_) => true
    case _ => PopsSafeFrom(stacks, defined, recs[1..])
  }

  /** The MEMORY_MAP_START records among the first `n` records. */
  function CountMapStarts(recs: seq<Record>, n: nat): nat
    decreases n
  {
    if n == 0 || recs == [] then 0
    else (if recs[0].MemoryMapStartRec? then 1 else 0) + CountMapStarts(recs[1..], n - 1)
  }

  /** The generation an allocation carries is the starting one plus the MEMORY_MAP_START records consumed. */
  lemma {:induction false} DecodeNextGeneration(st: ReaderState, recs: seq<Record>)
    requires Valid(st)
    ensures DecodeNext(st, recs).state.resolver.generation
              == st.resolver.generation + CountMapStarts(recs, DecodeNext(st, recs).consumed)
    decreases |recs|
  {
    if recs != [] {
      DecodeNextUnfold(st, recs);
      var s := Step(st, recs[0]);
      if s.Next? {
        DecodeNextGeneration(s.state, recs[1..]);
        var n := DecodeNext(s.state, recs[1..]).consumed;
        assert CountMapStarts(recs, n + 1) == (if recs[0].MemoryMapStartRec? then 1 else 0) + CountMapStarts(recs[1..], n);
      } else {
        assert CountMapStarts(recs[1..], 0) == 0;
        assert !recs[0].MemoryMapStartRec?;
      }
    }
  }

  /**
   * The append-only rule of the reader's tables: the tree only gains nodes,
   * a defined frame keeps its definition, a precise frame keeps its id, the
   * native chain table is only
   * appended to, and the generation never goes back, with the modules of
   * every generation that has already ended left as they were.
   */
  ghost predicate Grows(st: ReaderState, st2: ReaderState)
  {
    && FrameTrees.Extends(st.tree, st2.tree)
    && (forall id :: id in st.frames ==> id in st2.frames && st2.frames[id] == st.frames[id])
    && (forall f :: f in st.allocationFrames.ids ==>
          f in st2.allocationFrames.ids && st2.allocationFrames.ids[f] == st.allocationFrames.ids[f])
    && |st.native| <= |st2.native| && st2.native[..|st.native|] == st.native
    && st.resolver.generation <= st2.resolver.generation
    && (forall g: nat :: g < st.resolver.generation ==>
          SymbolResolvers.SegmentsAt(st2.resolver, g) == SymbolResolvers.SegmentsAt(st.resolver, g))
  }

  lemma GrowsRefl(st: ReaderState)
    ensures Grows(st, st)
  {
    assert st.tree.nodes[..|st.tree.nodes|] == st.tree.nodes;
    assert st.native[..|st.native|] == st.native;
  }

  lemma GrowsTrans(st1: ReaderState, st2: ReaderState, st3: ReaderState)
    requires Grows(st1, st2) && Grows(st2, st3)
    ensures Grows(st1, st3)
  {
    assert st3.tree.nodes[..|st1.tree.nodes|] == st3.tree.nodes[..|st2.tree.nodes|][..|st1.tree.nodes|];
    assert st3.native[..|st1.native|] == st3.native[..|st2.native|][..|st1.native|];
  }

  /** The correction only grows the tables: a frame added for a new precise frame takes an id not yet defined. */
  lemma CorrectionGrows(st: ReaderState, tid: ThreadId, lineno: int)
    requires Valid(st) && tid in st.stacks
    ensures var c := CorrectAllocationFrame(st, tid, lineno);
            c.Success? ==> Grows(st, c.value)
  {
    GrowsRefl(st);
  }

  /** An ALLOCATION that does not fail only grows the tables. */
  lemma AllocationGrows(st: ReaderState, rec: AllocationRecord)
    requires Valid(st)
    ensures var g := GetAllocationFrameIndex(st, rec);
            g.Success? ==> Grows(st, g.value.1)
  {
    GrowsRefl(st);
    var g := GetAllocationFrameIndex(st, rec);
    if rec.tid in st.stacks && g.Success? {
      var c := CorrectAllocationFrame(st, rec.tid, rec.pyLineno);
      CorrectionGrows(st, rec.tid, rec.pyLineno);
      assert g.value.1 == c.value.(tree := g.value.1.tree);
      GrowsRefl(c.value);
      assert Grows(c.value, g.value.1);
      GrowsTrans(st, c.value, g.value.1);
    }
  }

  /** A record that does not fail only grows the tables. */
  lemma StepGrows(st: ReaderState, rec: Record)
    requires Valid(st)
    ensures !Step(st, rec).Fail? ==> Grows(st, Step(st, rec).state)
  {
    GrowsRefl(st);
    match rec
    case AllocationRec(record) =>
      AllocationGrows(st, record);
    case NativeTraceIndexRec(frame) =>
      assert (st.native + [frame])[..|st.native|] == st.native;
    case _ =>
  }

  /** A call of `nextAllocationRecord` only grows the tables, whatever it returns. */
  lemma {:induction false} DecodeNextGrows(st: ReaderState, recs: seq<Record>)
    requires Valid(st)
    ensures Grows(st, DecodeNext(st, recs).state)
    decreases |recs|
  {
    GrowsRefl(st);
    if recs != [] {
      DecodeNextUnfold(st, recs);
      StepGrows(st, recs[0]);
      var s := Step(st, recs[0]);
      if s.Next? {
        DecodeNextGrows(s.state, recs[1..]);
        GrowsTrans(st, s.state, DecodeNext(s.state, recs[1..]).state);
      }
    }
  }

  // ----- Read side: the Python stack walk -----

  /** One entry of a Python stack: a frame and the line it is paired with. */
  datatype PyFrame = PyFrame(frame: Frame, lineno: int)

  /**
   * `Py_GetStackFrame`: at most `maxStacks` frames, following parent links
   * from `index` and stopping at index 0; the first frame is paired with
   * `lineno` (the reader passes -1) and each later one with the previous
   * frame's caller line. A node whose frame is not defined is an error.
   */
  function PythonStack(t: FrameTrees.FrameTree, frames: map<FrameId, Frame>, index: nat, maxStacks: nat, lineno: int)
    : (r: Result<seq<PyFrame>, ReadError>)
    requires FrameTrees.Valid(t) && index < |t.nodes|
    ensures r.Success? ==> |r.value| <= maxStacks
    ensures index == 0 || maxStacks == 0 ==> r == Success([])
    ensures r.Success? && r.value != [] ==> r.value[0].lineno == lineno
    ensures r.Success? ==> forall k :: 0 < k < |r.value| ==> r.value[k].lineno == r.value[k - 1].frame.parentLineno
    decreases maxStacks
  {
    if index == 0 || maxStacks == 0 then Success([])
    else
      var node := FrameTrees.NextNode(t, index);
      if node.frameId !in frames then Failure(MissingFrame(node.frameId))
      else
        var frame := frames[node.frameId];
        match PythonStack(t, frames, node.parentIndex, maxStacks - 1, frame.parentLineno)
        case Success(rest) => Success([PyFrame(frame, lineno)] + rest)
        case Failure(e) => Failure(e)
  }

  /** A walk result with `prefix` in front of its frames. */
  function Prepend(prefix: seq<PyFrame>, r: Result<seq<PyFrame>, ReadError>): Result<seq<PyFrame>, ReadError>
  {
    if r.Success? then Success(prefix + r.value) else r
  }

  lemma PrependNothing(r: Result<seq<PyFrame>, ReadError>)
    ensures Prepend([], r) == r
  {
    if r.Success? {
      assert [] + r.value == r.value;
    }
  }

  /**
   * One step of the Python walk: if `list` in front of the walk from `index`
   * is `total`, then either the node's frame is missing and `total` is that
   * error, or `list` with this frame in front of the walk from the parent is
   * still `total`.
   */
  lemma PythonStackStep(t: FrameTrees.FrameTree, frames: map<FrameId, Frame>, index: nat, maxStacks: nat, lineno: int,
                        list: seq<PyFrame>, total: Result<seq<PyFrame>, ReadError>)
    requires FrameTrees.Valid(t) && 0 < index < |t.nodes| && maxStacks > 0
    requires Prepend(list, PythonStack(t, frames, index, maxStacks, lineno)) == total
    ensures t.nodes[index].frameId !in frames ==> total == Failure(MissingFrame(t.nodes[index].frameId))
    ensures t.nodes[index].frameId in frames ==>
              var frame := frames[t.nodes[index].frameId];
              Prepend(list + [PyFrame(frame, lineno)],
                      PythonStack(t, frames, t.nodes[index].parentIndex, maxStacks - 1, frame.parentLineno)) == total
  {
    var node := t.nodes[index];
    if node.frameId in frames {
      var rest := PythonStack(t, frames, node.parentIndex, maxStacks - 1, frames[node.frameId].parentLineno);
      if rest.Success? {
        assert list + [PyFrame(frames[node.frameId], lineno)] + rest.value
               == list + ([PyFrame(frames[node.frameId], lineno)] + rest.value);
      }
    }
  }

  /**
   * The Python walk yields the frames of the first `min(depth, maxStacks)`
   * nodes of the trace, and succeeds exactly when all of them are defined.
   */
  lemma {:induction false} PythonStackFollowsWalk(t: FrameTrees.FrameTree, frames: map<FrameId, Frame>,
                                                  index: nat, maxStacks: nat, lineno: int)
    requires FrameTrees.Valid(t) && index < |t.nodes|
    ensures var w := FrameTrees.Walk(t, index);
            var n := if |w| < maxStacks then |w| else maxStacks;
            var r := PythonStack(t, frames, index, maxStacks, lineno);
            && (r.Success? <==> forall k :: 0 <= k < n ==> w[k] in frames)
            && (r.Success? ==> |r.value| == n && forall k :: 0 <= k < n ==> r.value[k].frame == frames[w[k]])
    decreases maxStacks
  {
    if index != 0 && maxStacks != 0 {
      var node := t.nodes[index];
      assert FrameTrees.Walk(t, index)[0] == node.frameId;
      if node.frameId in frames {
        var frame := frames[node.frameId];
        PythonStackFollowsWalk(t, frames, node.parentIndex, maxStacks - 1, frame.parentLineno);
        var w := FrameTrees.Walk(t, index);
        var w1 := FrameTrees.Walk(t, node.parentIndex);
        assert w == [node.frameId] + w1;
        var n1 := if |w1| < maxStacks - 1 then |w1| else maxStacks - 1;
        var n := if |w| < maxStacks then |w| else maxStacks;
        assert n == n1 + 1;
        if forall k :: 0 <= k < n1 ==> w1[k] in frames {
          forall k | 0 <= k < n ensures w[k] in frames {
            if k > 0 { assert w[k] == w1[k - 1]; }
          }
        } else {
          var j :| 0 <= j < n1 && w1[j] !in frames;
          assert w[j + 1] == w1[j];
        }
      }
    }
  }

  /**
   * Walking from the index of a stored stack, with a bound no smaller than
   * the stack, yields the stack's frames from top to bottom.
   */
  lemma PythonStackOfStack(t: FrameTrees.FrameTree, frames: map<FrameId, Frame>, stack: seq<FrameId>, maxStacks: nat)
    requires FrameTrees.Valid(t) && FrameTrees.Lookup(t, stack).Some?
    requires |stack| <= maxStacks
    requires forall k :: 0 <= k < |stack| ==> stack[k] in frames
    ensures var r := PythonStack(t, frames, FrameTrees.Lookup(t, stack).value, maxStacks, -1);
            && r.Success? && |r.value| == |stack|
            && forall k :: 0 <= k < |stack| ==> r.value[k].frame == frames[stack[|stack| - 1 - k]]
  {
    var index := FrameTrees.Lookup(t, stack).value;
    FrameTrees.LookupWalk(t, stack);
    PythonStackFollowsWalk(t, frames, index, maxStacks, -1);
    var w := FrameTrees.Walk(t, index);
    forall k | 0 <= k < |stack| ensures w[k] == stack[|stack| - 1 - k] {
      FrameTrees.ReverseAt(stack, k);
    }
  }

  /** A walk that succeeded reads the same after the tree and the frame table grow. */
  lemma {:induction false} PythonStackStable(t: FrameTrees.FrameTree, t2: FrameTrees.FrameTree,
                                             frames: map<FrameId, Frame>, frames2: map<FrameId, Frame>,
                                             index: nat, maxStacks: nat, lineno: int)
    requires FrameTrees.Valid(t) && FrameTrees.Valid(t2) && FrameTrees.Extends(t, t2) && index < |t.nodes|
    requires forall id :: id in frames ==> id in frames2 && frames2[id] == frames[id]
    requires PythonStack(t, frames, index, maxStacks, lineno).Success?
    ensures PythonStack(t2, frames2, index, maxStacks, lineno) == PythonStack(t, frames, index, maxStacks, lineno)
    decreases maxStacks
  {
    if index != 0 && maxStacks != 0 {
      assert t2.nodes[index] == t.nodes[index];
      var node := t.nodes[index];
      PythonStackStable(t, t2, frames, frames2, node.parentIndex, maxStacks - 1, frames[node.frameId].parentLineno);
    }
  }

  // ----- Read side: the native stack walk -----

  /** Every chain link the walk reads, within its step bound, is in the table (`d_native_frames` is not bounds-checked). */
  predicate ChainInRange(native: seq<UnresolvedNativeFrame>, index: nat, maxStacks: nat)
    decreases maxStacks
  {
    index == 0 || maxStacks == 0 || (index <= |native| && ChainInRange(native, native[index - 1].index, maxStacks - 1))
  }

  /** The frames an instruction pointer resolves to at `generation`; none when it cannot be resolved. */
  function ResolvedFrames(r: SymbolResolvers.SymbolResolver, lookup: SymbolResolvers.Lookup, ip: Address, generation: nat)
    : seq<NativeFrame>
  {
    match SymbolResolvers.Resolve(r, lookup, ip, generation)
    case None => []
    case Some(frames) => frames
  }

  /**
   * `Py_GetNativeStackFrame`: at most `maxStacks` chain links from `index`
   * (1-based, 0 ends the chain), each contributing its resolved frames in
   * the resolver's order.
   */
  function NativeStack(native: seq<UnresolvedNativeFrame>, r: SymbolResolvers.SymbolResolver,
                       lookup: SymbolResolvers.Lookup, generation: nat, index: nat, maxStacks: nat): seq<NativeFrame>
    requires ChainInRange(native, index, maxStacks)
    decreases maxStacks
  {
    if index == 0 || maxStacks == 0 then []
    else
      var frame := native[index - 1];
      ResolvedFrames(r, lookup, frame.ip, generation) + NativeStack(native, r, lookup, generation, frame.index, maxStacks - 1)
  }

  /**
   * One link of the native walk: if `frames` followed by the walk from `index`
   * is `total`, then so is `frames` with this link's resolved frames followed
   * by the walk from the next link.
   */
  lemma NativeStackStep(native: seq<UnresolvedNativeFrame>, r: SymbolResolvers.SymbolResolver,
                        lookup: SymbolResolvers.Lookup, generation: nat, index: nat, maxStacks: nat,
                        frames: seq<NativeFrame>, total: seq<NativeFrame>)
    requires ChainInRange(native, index, maxStacks) && index != 0 && maxStacks != 0
    requires frames + NativeStack(native, r, lookup, generation, index, maxStacks) == total
    ensures index <= |native| && ChainInRange(native, native[index - 1].index, maxStacks - 1)
    ensures var next := NativeStack(native, r, lookup, generation, native[index - 1].index, maxStacks - 1);
            match SymbolResolvers.Resolve(r, lookup, native[index - 1].ip, generation)
            case None => frames + next == total
            case Some(found) => (frames + found) + next == total
  {
    var next := NativeStack(native, r, lookup, generation, native[index - 1].index, maxStacks - 1);
    var found := ResolvedFrames(r, lookup, native[index - 1].ip, generation);
    assert frames + (found + next) == total;
    assert (frames + found) + next == frames + (found + next);
    if SymbolResolvers.Resolve(r, lookup, native[index - 1].ip, generation).None? {
      assert frames + found == frames;
    }
  }

  /** The chain links the native walk visits, as 1-based indices. */
  function ChainSteps(native: seq<UnresolvedNativeFrame>, index: nat, maxStacks: nat): (steps: seq<nat>)
    requires ChainInRange(native, index, maxStacks)
    ensures |steps| <= maxStacks
    ensures forall k :: 0 <= k < |steps| ==> 0 < steps[k] <= |native|
    ensures steps != [] ==> steps[0] == index
    ensures forall k :: 0 <= k < |steps| - 1 ==> steps[k + 1] == native[steps[k] - 1].index
    ensures |steps| < maxStacks ==> (if steps == [] then index == 0 else native[steps[|steps| - 1] - 1].index == 0)
    decreases maxStacks
  {
    if index == 0 || maxStacks == 0 then []
    else [index] + ChainSteps(native, native[index - 1].index, maxStacks - 1)
  }

  /** The resolved frames of the given chain links, one link after the other. */
  function ConcatResolved(native: seq<UnresolvedNativeFrame>, r: SymbolResolvers.SymbolResolver,
                          lookup: SymbolResolvers.Lookup, generation: nat, steps: seq<nat>): seq<NativeFrame>
    requires forall k :: 0 <= k < |steps| ==> 0 < steps[k] <= |native|
  {
    if steps == [] then []
    else ResolvedFrames(r, lookup, native[steps[0] - 1].ip, generation) + ConcatResolved(native, r, lookup, generation, steps[1..])
  }

  /**
   * The native walk is the concatenation, in chain order, of the resolved
   * frames of the links it visits: an unresolved link adds nothing but
   * still uses one step.
   */
  lemma {:induction false} NativeStackIsConcat(native: seq<UnresolvedNativeFrame>, r: SymbolResolvers.SymbolResolver,
                                               lookup: SymbolResolvers.Lookup, generation: nat, index: nat, maxStacks: nat)
    requires ChainInRange(native, index, maxStacks)
    ensures NativeStack(native, r, lookup, generation, index, maxStacks)
              == ConcatResolved(native, r, lookup, generation, ChainSteps(native, index, maxStacks))
    decreases maxStacks
  {
    if index != 0 && maxStacks != 0 {
      var next := native[index - 1].index;
      NativeStackIsConcat(native, r, lookup, generation, next, maxStacks - 1);
      assert ChainSteps(native, index, maxStacks)[1..] == ChainSteps(native, next, maxStacks - 1);
    }
  }

  /** Appending chain links (NATIVE_TRACE_INDEX) leaves every walk over the old table as it was. */
  lemma {:induction false} NativeStackAppendStable(native: seq<UnresolvedNativeFrame>, extra: seq<UnresolvedNativeFrame>,
                                                   r: SymbolResolvers.SymbolResolver, lookup: SymbolResolvers.Lookup,
                                                   generation: nat, index: nat, maxStacks: nat)
    requires ChainInRange(native, index, maxStacks)
    ensures ChainInRange(native + extra, index, maxStacks)
    ensures NativeStack(native + extra, r, lookup, generation, index, maxStacks)
              == NativeStack(native, r, lookup, generation, index, maxStacks)
    decreases maxStacks
  {
    if index != 0 && maxStacks != 0 {
      assert (native + extra)[index - 1] == native[index - 1];
      NativeStackAppendStable(native, extra, r, lookup, generation, native[index - 1].index, maxStacks - 1);
    }
  }

  /** A walk at a generation that has already ended reads the same after a memory-map change or a registration. */
  lemma {:induction false} NativeStackPastGenerationStable(native: seq<UnresolvedNativeFrame>, r: SymbolResolvers.SymbolResolver,
                                                           r2: SymbolResolvers.SymbolResolver, lookup: SymbolResolvers.Lookup,
                                                           generation: nat, index: nat, maxStacks: nat)
    requires ChainInRange(native, index, maxStacks)
    requires SymbolResolvers.SegmentsAt(r2, generation) == SymbolResolvers.SegmentsAt(r, generation)
    ensures NativeStack(native, r2, lookup, generation, index, maxStacks) == NativeStack(native, r, lookup, generation, index, maxStacks)
    decreases maxStacks
  {
    if index != 0 && maxStacks != 0 {
      NativeStackPastGenerationStable(native, r, r2, lookup, generation, native[index - 1].index, maxStacks - 1);
    }
  }

  // ----- Earlier allocations after later records -----

  /**
   * Later records never change the Python stack of an index the reader has
   * issued: once the walk from it succeeds, it reads the same after any
   * further call of `nextAllocationRecord`.
   */
  lemma LaterRecordsKeepPythonStack(st: ReaderState, recs: seq<Record>, index: nat, maxStacks: nat, lineno: int)
    requires Valid(st) && index < |st.tree.nodes|
    requires PythonStack(st.tree, st.frames, index, maxStacks, lineno).Success?
    ensures var st2 := DecodeNext(st, recs).state;
            && index < |st2.tree.nodes|
            && PythonStack(st2.tree, st2.frames, index, maxStacks, lineno) == PythonStack(st.tree, st.frames, index, maxStacks, lineno)
  {
    DecodeNextGrows(st, recs);
    var st2 := DecodeNext(st, recs).state;
    PythonStackStable(st.tree, st2.tree, st.frames, st2.frames, index, maxStacks, lineno);
  }

  /**
   * Later records never change the native stack of a chain index at a
   * generation that has already ended: further links are only appended and
   * that generation's modules stay as they were.
   */
  lemma LaterRecordsKeepNativeStack(st: ReaderState, recs: seq<Record>, lookup: SymbolResolvers.Lookup,
                                    generation: nat, index: nat, maxStacks: nat)
    requires Valid(st) && ChainInRange(st.native, index, maxStacks) && generation < st.resolver.generation
    ensures var st2 := DecodeNext(st, recs).state;
            && ChainInRange(st2.native, index, maxStacks)
            && NativeStack(st2.native, st2.resolver, lookup, generation, index, maxStacks)
               == NativeStack(st.native, st.resolver, lookup, generation, index, maxStacks)
  {
    DecodeNextGrows(st, recs);
    var st2 := DecodeNext(st, recs).state;
    var extra := st2.native[|st.native|..];
    assert st2.native == st.native + extra;
    NativeStackAppendStable(st.native, extra, st.resolver, lookup, generation, index, maxStacks);
    NativeStackPastGenerationStable(st2.native, st.resolver, st2.resolver, lookup, generation, index, maxStacks);
  }

  /**
   * Later records never renumber a precise frame: the id minted for it at
   * one ALLOCATION is the id every later ALLOCATION in the same frame at
   * the same line reuses.
   */
  lemma LaterRecordsKeepPreciseIds(st: ReaderState, recs: seq<Record>, f: Frame)
    requires Valid(st) && f in st.allocationFrames.ids
    ensures var st2 := DecodeNext(st, recs).state;
            f in st2.allocationFrames.ids && st2.allocationFrames.ids[f] == st.allocationFrames.ids[f]
  {
    DecodeNextGrows(st, recs);
  }
}
