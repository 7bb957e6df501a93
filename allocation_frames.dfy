/**
 * The table of "precise" frames behind the reader's `d_allocation_frames`:
 * keyed by frame content, it hands back the id already given to an equal
 * frame or mints a fresh one. Its source is not part of this model; this
 * module gives the contract `getIndex` is used with, minting ids from a
 * counter that advances by a fixed stride.
 */
module AllocationFrames {
  import opened Records

  datatype FrameCollection = FrameCollection(ids: map<Frame, FrameId>, nextId: FrameId, stride: nat)

  ghost predicate Valid(c: FrameCollection)
  {
    && c.stride > 0
    && (forall f :: f in c.ids ==> c.ids[f] < c.nextId)
    && (forall f, g :: f in c.ids && g in c.ids && f != g ==> c.ids[f] != c.ids[g])
  }

  function Init(firstId: FrameId, stride: nat): (c: FrameCollection)
    requires stride > 0
    ensures Valid(c) && c.ids == map[]
  {
    FrameCollection(map[], firstId, stride)
  }

  /**
   * `getIndex`: the id of `frame` and whether it was minted by this call.
   * Equal frames share one id, a minted id is used by no other frame, and
   * the table changes only when the frame is new.
   */
  function GetIndex(c: FrameCollection, frame: Frame): (r: (FrameCollection, FrameId, bool))
    requires Valid(c)
    ensures Valid(r.0)
    ensures r.2 <==> frame !in c.ids
    ensures frame in r.0.ids && r.0.ids[frame] == r.1
    ensures frame in c.ids ==> r.0 == c
    ensures frame !in c.ids ==> r.0.ids == c.ids[frame := r.1] && r.1 !in c.ids.Values
  {
    if frame in c.ids then (c, c.ids[frame], false)
    else (FrameCollection(c.ids[frame := c.nextId], c.nextId + c.stride, c.stride), c.nextId, true)
  }
}
