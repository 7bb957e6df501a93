/**
 * The pensieve trace reader: a pull-based decoder over a stream of records.
 * Its tables are fields updated in place; each call of
 * `NextAllocationRecord` consumes records until it can return one
 * allocation, and two read-only walks turn an allocation's indices back into
 * Python and native stacks. The dispatch loop, the switch on one record,
 * the correction, the trace-index lookup and both walks are proved equal to
 * functions of the `Decoder` module; the smaller parsers state the table
 * update they make.
 */
module Reader {
  import opened Wrappers
  import opened Records
  import FrameTrees
  import AllocationFrames
  import SymbolResolvers
  import opened Decoder

  class RecordReader {
    const header: HeaderRecord
    /** The records after the header; `pos` is the read cursor, the end of the sequence is the end of the stream. */
    const records: seq<Record>
    /** The resolver's address lookup, supplied from outside. */
    const lookup: SymbolResolvers.Lookup
    var pos: nat

    var stackTraces: Stacks
    var frameMap: map<FrameId, Frame>
    var nativeFrames: seq<UnresolvedNativeFrame>
    var tree: FrameTrees.FrameTree
    var allocationFrames: AllocationFrames.FrameCollection
    var symbolResolver: SymbolResolvers.SymbolResolver

    /** The reader's tables as one value. */
    function State(): ReaderState
      reads this
    {
      ReaderState(stackTraces, frameMap, nativeFrames, tree, allocationFrames, symbolResolver)
    }

    ghost predicate Valid()
      reads this
    {
      && pos <= |records|
      && Decoder.Valid(State())
      && header.magic == MAGIC && header.version == CURRENT_HEADER_VERSION
    }

    /** The member initialisation of a reader whose header has been checked. */
    constructor (header: HeaderRecord, records: seq<Record>, lookup: SymbolResolvers.Lookup,
                 firstPreciseId: FrameId, stride: nat)
      requires header.magic == MAGIC && header.version == CURRENT_HEADER_VERSION && stride > 0
      ensures Valid()
      ensures this.header == header && this.records == records && this.lookup == lookup && pos == 0
      ensures State() == InitialState(firstPreciseId, stride)
    {
      this.header := header;
      this.records := records;
      this.lookup := lookup;
      pos := 0;
      stackTraces := map[];
      frameMap := map[];
      nativeFrames := [];
      tree := FrameTrees.EmptyTree;
      allocationFrames := AllocationFrames.Init(firstPreciseId, stride);
      symbolResolver := SymbolResolvers.InitialResolver;
    }

    /**
     * Opening a trace: the header is checked before any record is read, and
     * a header that fails the check yields no reader.
     */
    static method Open(raw: HeaderRecord, records: seq<Record>, lookup: SymbolResolvers.Lookup,
                       firstPreciseId: FrameId, stride: nat)
      returns (r: Result<RecordReader, HeaderError>)
      requires stride > 0
      ensures r.Failure? <==> ReadHeader(raw).Failure?
      ensures r.Failure? ==> r.error == ReadHeader(raw).error
      ensures r.Success? ==> && fresh(r.value) && r.value.Valid()
                             && r.value.header == raw && r.value.records == records && r.value.lookup == lookup
                             && r.value.pos == 0
                             && r.value.State() == InitialState(firstPreciseId, stride)
    {
      var header := ReadHeader(raw);
      if header.Failure? {
        return Failure(header.error);
      }
      var reader := new RecordReader(header.value, records, lookup, firstPreciseId, stride);
      return Success(reader);
    }

    /** `getHeader`: the header checked when the reader was opened. */
    function GetHeader(): (h: HeaderRecord)
      reads this
      requires Valid()
      ensures h.magic == MAGIC && h.version == CURRENT_HEADER_VERSION
      ensures h == header
    {
      header
    }

    /** `parseFrame`: PUSH or POP on the record's thread. A POP needs a non-empty stack. */
    method ParseFrame(entry: FrameSeqEntry)
      requires Valid()
      requires entry.action == Pop ==> entry.tid in stackTraces && stackTraces[entry.tid] != []
      modifies this`stackTraces
      ensures Valid()
      ensures stackTraces == ApplyFrameEntry(old(stackTraces), entry)
    {
      var tid := entry.tid;
      // Indexing the map by tid creates an empty stack for a thread not seen before.
      var stack := if tid in stackTraces then stackTraces[tid] else [];
      match entry.action {
        case Push =>
          stackTraces := stackTraces[tid := stack + [entry.frameId]];
        case Pop =>
          stackTraces := stackTraces[tid := stack[..|stack| - 1]];
      }
    }

    /** `parseFrameIndex`: defines a frame id once; a second definition fails and keeps the first. */
    method ParseFrameIndex(id: FrameId, functionName: string, filename: string, parentLineno: int)
      returns (err: Option<ReadError>)
      requires Valid()
      modifies this`frameMap
      ensures Valid()
      ensures err.Some? <==> id in old(frameMap)
      ensures err.Some? ==> err.value == DuplicateFrameId(id) && frameMap == old(frameMap)
      ensures err.None? ==> frameMap == old(frameMap)[id := Frame(functionName, filename, parentLineno, None)]
    {
      if id in frameMap {
        return Some(DuplicateFrameId(id));
      }
      frameMap := frameMap[id := Frame(functionName, filename, parentLineno, None)];
      return None;
    }

    /** `parseNativeFrameIndex`: appends one link to the native chain table. */
    method ParseNativeFrameIndex(frame: UnresolvedNativeFrame)
      requires Valid()
      modifies this`nativeFrames
      ensures Valid()
      ensures nativeFrames == old(nativeFrames) + [frame]
    {
      nativeFrames := nativeFrames + [frame];
    }

    /**
     * `parseSegmentHeader`: the segment list is created with as many default
     * segments as the header announces, the parsed segments are appended to
     * it, and the whole list is registered under the current generation.
     */
    method ParseSegmentHeader(filename: string, addr: Address, parsed: seq<Segment>)
      requires Valid()
      modifies this`symbolResolver
      ensures Valid()
      ensures symbolResolver == SymbolResolvers.AddSegments(old(symbolResolver), filename, addr, SegmentList(parsed))
    {
      var numSegments := |parsed|;
      var segments := seq(numSegments, _ => DefaultSegment);
      for i := 0 to numSegments
        invariant segments == seq(numSegments, _ => DefaultSegment) + parsed[..i]
      {
        segments := segments + [parsed[i]];
      }
      assert parsed[..numSegments] == parsed;
      symbolResolver := SymbolResolvers.AddSegments(symbolResolver, filename, addr, segments);
    }

    /** `correctAllocationFrame`, on the stored stack of `tid`. */
    method CorrectAllocationFrame(tid: ThreadId, lineno: int) returns (err: Option<ReadError>)
      requires Valid() && tid in stackTraces
      modifies this`stackTraces, this`frameMap, this`allocationFrames
      ensures Valid()
      ensures var c := Decoder.CorrectAllocationFrame(old(State()), tid, lineno);
              && (err.None? <==> c.Success?)
              && (err.Some? ==> err.value == c.error && State() == old(State()))
              && (err.None? ==> State() == c.value)
    {
      var stack := stackTraces[tid];
      if stack == [] {
        return None;
      }
      var topId := stack[|stack| - 1];
      if topId !in frameMap {
        return Some(MissingFrame(topId));
      }
      var partial := frameMap[topId];
      var allocationFrame := Frame(partial.functionName, partial.filename, partial.parentLineno, Some(lineno));
      var (collection, allocationIndex, isNew) := AllocationFrames.GetIndex(allocationFrames, allocationFrame);
      allocationFrames := collection;
      if isNew && allocationIndex !in frameMap {
        // emplace adds nothing when the id is already taken
        frameMap := frameMap[allocationIndex := allocationFrame];
      }
      // The new top is written into the stored stack and stays there.
      stackTraces := stackTraces[tid := ReplaceTop(stack, allocationIndex)];
      return None;
    }

    /** `getAllocationFrameIndex`. */
    method GetAllocationFrameIndex(record: AllocationRecord) returns (r: Result<nat, ReadError>)
      requires Valid()
      modifies this`stackTraces, this`frameMap, this`allocationFrames, this`tree
      ensures Valid()
      ensures var g := Decoder.GetAllocationFrameIndex(old(State()), record);
              && (r.Success? <==> g.Success?)
              && (r.Failure? ==> r.error == g.error && State() == old(State()))
              && (r.Success? ==> r.value == g.value.0 && State() == g.value.1)
    {
      if record.tid !in stackTraces {
        return Success(0);
      }
      var err := CorrectAllocationFrame(record.tid, record.pyLineno);
      if err.Some? {
        return Failure(err.value);
      }
      var (newTree, index) := FrameTrees.GetTraceIndex(tree, stackTraces[record.tid]);
      tree := newTree;
      return Success(index);
    }

    /**
     * The body of the dispatch loop of `nextAllocationRecord`: the switch on
     * the type of one record. `None` means the loop goes on.
     */
    method DispatchRecord(rec: Record) returns (out: Option<DecodeResult>)
      requires Valid() && PopAllowed(State(), rec)
      modifies this`stackTraces, this`frameMap, this`nativeFrames, this`tree, this`allocationFrames, this`symbolResolver
      ensures Valid()
      ensures var step := Step(old(State()), rec);
              && (step.Next? ==> out.None? && State() == step.state)
              && (step.Yield? ==> out == Some(Got(step.allocation)) && State() == step.state)
              && (step.Fail? ==> out == Some(Failed(step.error)) && State() == old(State()))
    {
      match rec {
        case AllocationRec(record) =>
          var index := GetAllocationFrameIndex(record);
          if index.Failure? {
            return Some(Failed(index.error));
          }
          return Some(Got(Allocation(record, index.value, symbolResolver.generation)));
        case FrameRec(entry) =>
          ParseFrame(entry);
        case FrameIndexRec(id, functionName, filename, parentLineno) =>
          var err := ParseFrameIndex(id, functionName, filename, parentLineno);
          if err.Some? {
            return Some(Failed(err.value));
          }
        case NativeTraceIndexRec(frame) =>
          ParseNativeFrameIndex(frame);
        case MemoryMapStartRec =>
          symbolResolver := SymbolResolvers.ClearSegments(symbolResolver);
        case SegmentHeaderRec(filename, addr, segments) =>
          ParseSegmentHeader(filename, addr, segments);
        case UnknownRecord(tag) =>
          return Some(Failed(InvalidRecordType(tag)));
      }
      return None;
    }

    /**
     * One pass of the dispatch loop of `nextAllocationRecord`: reads the next
     * record's tag and dispatches on it. The loop started at `start` and is
     * to produce `target`; `None` means the loop goes on and still does.
     */
    method ReadRecord(ghost start: nat, ghost target: Decoded) returns (out: Option<DecodeResult>)
      requires Valid() && start <= pos < |records| && PopsSafe(State(), records[pos..])
      requires Shift(DecodeNext(State(), records[pos..]), pos - start) == target
      modifies this
      ensures Valid() && pos == old(pos) + 1
      ensures out.None? ==> && PopsSafe(State(), records[pos..])
                            && Shift(DecodeNext(State(), records[pos..]), pos - start) == target
      ensures out.Some? ==> target == Decoded(out.value, pos - start, State())
    {
      var rec := records[pos];
      ghost var before := State();
      ghost var rest := records[pos + 1..];
      DecodeNextUnfold(before, records[pos..]);
      PopsSafeStep(before, records[pos..]);
      assert records[pos..][0] == rec && records[pos..][1..] == rest;
      pos := pos + 1;
      assert State() == before && records[pos..] == rest;
      out := DispatchRecord(rec);
      if out.None? {
        ShiftShift(DecodeNext(State(), rest), 1, pos - 1 - start);
      }
    }

    /**
     * `nextAllocationRecord`: consumes records up to and including the next
     * one that yields an allocation or fails, or to the end of the stream.
     */
    method NextAllocationRecord() returns (r: DecodeResult)
      requires Valid()
      requires PopsSafe(State(), records[pos..])
      modifies this
      ensures Valid()
      ensures var d := DecodeNext(old(State()), old(records[pos..]));
              && r == d.outcome && pos == old(pos) + d.consumed && State() == d.state
    {
      ghost var start := pos;
      ghost var target := DecodeNext(State(), records[pos..]);
      while true
        invariant Valid() && start <= pos <= |records|
        invariant PopsSafe(State(), records[pos..])
        invariant Shift(DecodeNext(State(), records[pos..]), pos - start) == target
        decreases |records| - pos
      {
        if pos == |records| {
          // reading the next tag hits the end of the stream
          return EndOfStream;
        }
        var out := ReadRecord(start, target);
        if out.Some? {
          return out.value;
        }
      }
    }

    /** `Py_GetStackFrame`: the Python stack of a trace index, at most `maxStacks` frames deep. */
    method GetStackFrame(index: nat, maxStacks: nat) returns (r: Result<seq<PyFrame>, ReadError>)
      requires FrameTrees.Valid(tree) && index < |tree.nodes|
      ensures r == PythonStack(tree, frameMap, index, maxStacks, -1)
    {
      var t := tree;
      var frames := frameMap;
      ghost var total := PythonStack(t, frames, index, maxStacks, -1);
      var stacksObtained: nat := 0;
      var currentIndex: nat := index;
      var list: seq<PyFrame> := [];
      var currentLineno := -1;
      PrependNothing(total);
      while currentIndex != 0 && stacksObtained != maxStacks
        invariant stacksObtained <= maxStacks && currentIndex < |t.nodes|
        invariant Prepend(list, PythonStack(t, frames, currentIndex, maxStacks - stacksObtained, currentLineno)) == total
        decreases maxStacks - stacksObtained
      {
        PythonStackStep(t, frames, currentIndex, maxStacks - stacksObtained, currentLineno, list, total);
        stacksObtained := stacksObtained + 1;
        var node := FrameTrees.NextNode(t, currentIndex);
        if node.frameId !in frames {
          // `d_frame_map.at` throws
          return Failure(MissingFrame(node.frameId));
        }
        var frame := frames[node.frameId];
        list := list + [PyFrame(frame, currentLineno)];
        currentIndex := node.parentIndex;
        currentLineno := frame.parentLineno;
      }
      assert list + [] == list;
      return Success(list);
    }

    /** The inner loop of `Py_GetNativeStackFrame`: appends each resolved frame in turn. */
    static method AppendAll(list: seq<NativeFrame>, resolved: seq<NativeFrame>) returns (out: seq<NativeFrame>)
      ensures out == list + resolved
    {
      out := list;
      for j := 0 to |resolved|
        invariant out == list + resolved[..j]
      {
        out := out + [resolved[j]];
      }
      assert resolved[..|resolved|] == resolved;
    }

    /** `Py_GetNativeStackFrame`: the native stack of a chain index at a generation, at most `maxStacks` links. */
    method GetNativeStackFrame(index: nat, generation: nat, maxStacks: nat) returns (frames: seq<NativeFrame>)
      requires ChainInRange(nativeFrames, index, maxStacks)
      ensures frames == NativeStack(nativeFrames, symbolResolver, lookup, generation, index, maxStacks)
    {
      var native := nativeFrames;
      var resolver := symbolResolver;
      ghost var total := NativeStack(native, resolver, lookup, generation, index, maxStacks);
      var stacksObtained: nat := 0;
      var currentIndex: nat := index;
      frames := [];
      while currentIndex != 0 && stacksObtained != maxStacks
        invariant stacksObtained <= maxStacks
        invariant ChainInRange(native, currentIndex, maxStacks - stacksObtained)
        invariant frames + NativeStack(native, resolver, lookup, generation, currentIndex, maxStacks - stacksObtained) == total
        decreases maxStacks - stacksObtained
      {
        NativeStackStep(native, resolver, lookup, generation, currentIndex, maxStacks - stacksObtained, frames, total);
        stacksObtained := stacksObtained + 1;
        var frame := native[currentIndex - 1];
        currentIndex := frame.index;
        var resolved := SymbolResolvers.Resolve(resolver, lookup, frame.ip, generation);
        if resolved.None? {
          continue;
        }
        frames := AppendAll(frames, resolved.value);
      }
    }
  }
}
