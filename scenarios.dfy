/**
 * Small traces read end to end: the decoded allocation and the stacks the
 * read side gives back for it.
 */
module Scenarios {
  import opened Wrappers
  import opened Records
  import FrameTrees
  import AllocationFrames
  import opened Decoder

  /** The tables after FRAME_INDEX(id, name, file, caller line) and a PUSH of frame `id` on thread `tid`. */
  function Pushed(firstPreciseId: FrameId, stride: nat, defined: Frame, id: FrameId, tid: ThreadId): (st: ReaderState)
    requires stride > 0 && defined.lineno.None?
    ensures Valid(st) && st.stacks == map[tid := [id]] && st.frames == map[id := defined]
  {
    InitialState(firstPreciseId, stride).(frames := map[id := defined], stacks := map[tid := [id]])
  }

  /** The two side-effect records are passed over and leave the tables of `Pushed`. */
  lemma DefineThenPush(firstPreciseId: FrameId, stride: nat, id: FrameId, tid: ThreadId,
                       name: string, file: string, callerLine: int, rest: seq<Record>)
    requires stride > 0
    ensures var defined := Frame(name, file, callerLine, None);
            DecodeNext(InitialState(firstPreciseId, stride),
                       [FrameIndexRec(id, name, file, callerLine), FrameRec(FrameSeqEntry(id, tid, Push))] + rest)
            == Shift(DecodeNext(Pushed(firstPreciseId, stride, defined, id, tid), rest), 2)
  {
    var defined := Frame(name, file, callerLine, None);
    var recs := [FrameIndexRec(id, name, file, callerLine), FrameRec(FrameSeqEntry(id, tid, Push))] + rest;
    var st0 := InitialState(firstPreciseId, stride);
    var st1 := st0.(frames := map[id := defined]);
    var st2 := Pushed(firstPreciseId, stride, defined, id, tid);
    assert Step(st0, recs[0]) == Next(st1);
    DecodeNextUnfold(st0, recs);
    assert recs[1..][0] == recs[1] && recs[1..][1..] == rest;
    assert StackOf(st1.stacks, tid) + [id] == [id];
    assert ApplyFrameEntry(st1.stacks, FrameSeqEntry(id, tid, Push)) == map[tid := [id]];
    assert Step(st1, recs[1]) == Next(st2);
    DecodeNextUnfold(st1, recs[1..]);
    ShiftShift(DecodeNext(st2, rest), 1, 1);
  }

  /** The correction on the stack of `Pushed`: the new top is the first precise id, and it names the precise frame. */
  lemma CorrectOnPushed(firstPreciseId: FrameId, stride: nat, defined: Frame, id: FrameId, tid: ThreadId, lineno: int)
    requires stride > 0 && defined.lineno.None? && firstPreciseId != id
    ensures var c := CorrectAllocationFrame(Pushed(firstPreciseId, stride, defined, id, tid), tid, lineno);
            && c.Success? && tid in c.value.stacks && c.value.stacks[tid] == [firstPreciseId]
            && firstPreciseId in c.value.frames && c.value.frames[firstPreciseId] == defined.(lineno := Some(lineno))
  {
    var st := Pushed(firstPreciseId, stride, defined, id, tid);
    var precise := Frame(defined.functionName, defined.filename, defined.parentLineno, Some(lineno));
    assert precise == defined.(lineno := Some(lineno));
    var g := AllocationFrames.GetIndex(st.allocationFrames, precise);
    assert g.1 == firstPreciseId && g.2;
    assert ReplaceTop([id], firstPreciseId) == [firstPreciseId];
  }

  /** The ALLOCATION step on the tables of `Pushed`: it yields, and the thread's stack is the precise frame alone. */
  lemma YieldOnPushed(firstPreciseId: FrameId, stride: nat, defined: Frame, id: FrameId, rec: AllocationRecord)
    requires stride > 0 && defined.lineno.None? && firstPreciseId != id
    ensures var s := Step(Pushed(firstPreciseId, stride, defined, id, rec.tid), AllocationRec(rec));
            && s.Yield? && s.allocation.record == rec
            && StackOf(s.state.stacks, rec.tid) == [firstPreciseId]
            && firstPreciseId in s.state.frames && s.state.frames[firstPreciseId] == defined.(lineno := Some(rec.pyLineno))
  {
    var st := Pushed(firstPreciseId, stride, defined, id, rec.tid);
    CorrectOnPushed(firstPreciseId, stride, defined, id, rec.tid, rec.pyLineno);
    var c := CorrectAllocationFrame(st, rec.tid, rec.pyLineno);
    var g := GetAllocationFrameIndex(st, rec);
    assert g.Success? && g.value.1.stacks == c.value.stacks && g.value.1.frames == c.value.frames;
    assert Step(st, AllocationRec(rec)) == Yield(Allocation(rec, g.value.0, st.resolver.generation), g.value.1);
  }

  /** The call returned the allocation of `rec`, and its Python stack is `frame` alone, paired with line -1. */
  ghost predicate YieldsOneFrame(d: Decoded, rec: AllocationRecord, frame: Frame, maxStacks: nat)
  {
    && d.outcome.Got? && d.outcome.allocation.record == rec
    && FrameTrees.Valid(d.state.tree) && d.outcome.allocation.frameIndex < |d.state.tree.nodes|
    && PythonStack(d.state.tree, d.state.frames, d.outcome.allocation.frameIndex, maxStacks, -1)
       == Success([PyFrame(frame, -1)])
  }

  /** The Python stack of a trace whose walk is a single defined frame. */
  lemma OneFrameWalk(t: FrameTrees.FrameTree, frames: map<FrameId, Frame>, index: nat, f: FrameId, maxStacks: nat)
    requires FrameTrees.Valid(t) && index < |t.nodes| && FrameTrees.Walk(t, index) == [f]
    requires f in frames && maxStacks > 0
    ensures PythonStack(t, frames, index, maxStacks, -1) == Success([PyFrame(frames[f], -1)])
  {
    assert index != 0;
    var node := FrameTrees.NextNode(t, index);
    var rest := FrameTrees.Walk(t, node.parentIndex);
    assert [f] == [node.frameId] + rest;
    assert |rest| == 0 && ([node.frameId] + rest)[0] == node.frameId;
    assert node.parentIndex == 0;
    assert PythonStack(t, frames, node.parentIndex, maxStacks - 1, frames[f].parentLineno) == Success([]);
    assert [PyFrame(frames[f], -1)] + [] == [PyFrame(frames[f], -1)];
  }

  /**
   * An ALLOCATION on thread `tid` after `Pushed` is returned, and its Python
   * stack is the one defined frame with the allocation's line as its own.
   */
  lemma AllocateOnPushed(firstPreciseId: FrameId, stride: nat, defined: Frame, id: FrameId,
                         rec: AllocationRecord, maxStacks: nat)
    requires stride > 0 && defined.lineno.None? && firstPreciseId != id && maxStacks > 0
    ensures var d := DecodeNext(Pushed(firstPreciseId, stride, defined, id, rec.tid), [AllocationRec(rec)]);
            d.consumed == 1 && YieldsOneFrame(d, rec, defined.(lineno := Some(rec.pyLineno)), maxStacks)
  {
    var st := Pushed(firstPreciseId, stride, defined, id, rec.tid);
    YieldOnPushed(firstPreciseId, stride, defined, id, rec);
    var s := Step(st, AllocationRec(rec));
    DecodeNextUnfold(st, [AllocationRec(rec)]);
    assert FrameTrees.Reverse([firstPreciseId]) == [firstPreciseId];
    OneFrameWalk(s.state.tree, s.state.frames, s.allocation.frameIndex, firstPreciseId, maxStacks);
  }

  /**
   * FRAME_INDEX(id, name, file, caller line), then a PUSH of frame `id` on a
   * thread, then an ALLOCATION on that thread: the reader returns that
   * allocation after reading all three records, and its Python stack is the
   * single frame `name` of `file` with that caller line and the
   * allocation's line as its own. (With id 1, "foo", "a.py", caller line 0,
   * thread 7 and line 42 this is the trace whose stack is
   * `[Frame("foo", "a.py", 0, 42)]`.) The precise frame's id must differ from
   * `id`, or the defined frame would shadow it.
   */
  lemma OneFrameTrace(firstPreciseId: FrameId, stride: nat, id: FrameId, name: string, file: string, callerLine: int,
                      rec: AllocationRecord, maxStacks: nat)
    requires stride > 0 && firstPreciseId != id && maxStacks > 0
    ensures var d := DecodeNext(InitialState(firstPreciseId, stride),
                                [FrameIndexRec(id, name, file, callerLine), FrameRec(FrameSeqEntry(id, rec.tid, Push))]
                                + [AllocationRec(rec)]);
            d.consumed == 3 && YieldsOneFrame(d, rec, Frame(name, file, callerLine, Some(rec.pyLineno)), maxStacks)
  {
    var defined := Frame(name, file, callerLine, None);
    DefineThenPush(firstPreciseId, stride, id, rec.tid, name, file, callerLine, [AllocationRec(rec)]);
    AllocateOnPushed(firstPreciseId, stride, defined, id, rec, maxStacks);
    var d1 := DecodeNext(Pushed(firstPreciseId, stride, defined, id, rec.tid), [AllocationRec(rec)]);
    assert defined.(lineno := Some(rec.pyLineno)) == Frame(name, file, callerLine, Some(rec.pyLineno));
    assert YieldsOneFrame(Shift(d1, 2), rec, Frame(name, file, callerLine, Some(rec.pyLineno)), maxStacks);
  }

  /**
   * An ALLOCATION on a thread that never pushed a frame gets trace index 0,
   * changes nothing, and its Python stack is empty.
   */
  lemma UnseenThreadAllocation(st: ReaderState, rec: AllocationRecord, rest: seq<Record>, maxStacks: nat)
    requires Valid(st) && rec.tid !in st.stacks
    ensures var d := DecodeNext(st, [AllocationRec(rec)] + rest);
            && d == Decoded(Got(Allocation(rec, 0, st.resolver.generation)), 1, st)
            && PythonStack(st.tree, st.frames, 0, maxStacks, -1) == Success([])
  {
    DecodeNextUnfold(st, [AllocationRec(rec)] + rest);
  }

  /**
   * The allocation a call returns is the first ALLOCATION record left in
   * the stream, so repeated calls return allocations in stream order.
   */
  lemma FirstAllocationFirst(st: ReaderState, recs: seq<Record>)
    requires Valid(st)
    ensures var d := DecodeNext(st, recs);
            d.outcome.Got? ==> && 0 < d.consumed && recs[d.consumed - 1] == AllocationRec(d.outcome.allocation.record)
                               && forall i :: 0 <= i < d.consumed - 1 ==> !recs[i].AllocationRec?
  {
    DecodeNextOutcome(st, recs);
    DecodeNextStops(st, recs);
  }
}
