/**
 * The record and header types a pensieve trace is made of, already decoded
 * from their byte layout, and the header check done when a reader is opened.
 */
module Records {
  import opened Wrappers

  newtype byte = x: int | 0 <= x < 256

  type ThreadId = nat
  type FrameId = nat
  type Address = nat

  /**
   * A Python frame. `lineno` is the frame's own line: a FRAME_INDEX record
   * leaves it unset, and only the "precise" frames made when an allocation
   * happens inside the frame carry one.
   */
  datatype Frame = Frame(functionName: string, filename: string, parentLineno: int, lineno: Option<int>)

  datatype FrameAction = Push | Pop

  /** A FRAME record: push or pop `frameId` on the stack of thread `tid`. */
  datatype FrameSeqEntry = FrameSeqEntry(frameId: FrameId, tid: ThreadId, action: FrameAction)

  /** The raw fields of an ALLOCATION record; the reader only looks at `tid` and `pyLineno`. */
  datatype AllocationRecord = AllocationRecord(
    tid: ThreadId, address: Address, size: nat, allocator: nat, nativeFrameId: nat, pyLineno: int)

  /** One link of a native chain: an instruction pointer and the 1-based index of the caller's link (0 ends the chain). */
  datatype UnresolvedNativeFrame = UnresolvedNativeFrame(ip: Address, index: nat)

  /** A loaded code segment; `Segment{}` in the source is the all-zero segment. */
  datatype Segment = Segment(vaddr: Address, memsz: nat)

  const DefaultSegment: Segment := Segment(0, 0)

  /** A native frame as the symbol resolver reports it. */
  datatype NativeFrame = NativeFrame(symbol: string, filename: string, lineno: int)

  /**
   * One record of the stream after its type tag has been read. `UnknownRecord`
   * stands for every tag the dispatch has no case for.
   */
  datatype Record =
    | AllocationRec(record: AllocationRecord)
    | FrameRec(entry: FrameSeqEntry)
    | FrameIndexRec(id: FrameId, functionName: string, filename: string, parentLineno: int)
    | NativeTraceIndexRec(frame: UnresolvedNativeFrame)
    | MemoryMapStartRec
    | SegmentHeaderRec(filename: string, addr: Address, segments: seq<Segment>)
    | UnknownRecord(tag: byte)

  /** The records that only update the reader's tables and never produce an allocation. */
  predicate IsSideEffect(rec: Record)
  {
    rec.FrameRec? || rec.FrameIndexRec? || rec.NativeTraceIndexRec? || rec.MemoryMapStartRec? || rec.SegmentHeaderRec?
  }

  /** The header fields as they stand at the start of the stream. */
  datatype HeaderRecord = HeaderRecord(
    magic: seq<byte>, version: int, nativeTraces: bool, stats: seq<byte>, commandLine: string)

  /** The magic bytes a trace starts with. Their value is defined with the header types, outside this model. */
  const MAGIC: seq<byte>

  /** The header version this reader understands, likewise defined outside this model. */
  const CURRENT_HEADER_VERSION: int

  datatype HeaderError = NotAPensieveFile | IncompatibleVersion

  /**
   * The header check: the magic is compared first, so a file with the wrong
   * magic is refused whatever its version; only then is the version compared.
   */
  function ReadHeader(raw: HeaderRecord): (r: Result<HeaderRecord, HeaderError>)
    ensures r.Success? <==> raw.magic == MAGIC && raw.version == CURRENT_HEADER_VERSION
    ensures raw.magic != MAGIC ==> r == Failure(NotAPensieveFile)
    ensures raw.magic == MAGIC && raw.version != CURRENT_HEADER_VERSION ==> r == Failure(IncompatibleVersion)
    ensures r.Success? ==> r.value == raw
  {
    if raw.magic != MAGIC then Failure(NotAPensieveFile)
    else if raw.version != CURRENT_HEADER_VERSION then Failure(IncompatibleVersion)
    else Success(raw)
  }
}
