// The shared frame buffer of the tracking script: `read_frames` appends at
// the tail, the processing loop takes from the head with `pop(0)`.
// The lock around both is not modelled: pushes and pops are sequential.
module FrameQueue {
  import opened Util

  class FrameBuffer<T> {
    /** Pending frames, oldest first. */
    var frames: seq<T>

    constructor ()
      ensures frames == []
    {
      frames := [];
    }

    /** `frame_buffer.append(frame)`. */
    method Push(frame: T)
      modifies this
      ensures frames == old(frames) + [frame]
      ensures Apply(BufferState(old(frames), []), PushOp(frame)) == BufferState(frames, [])
    {
      frames := frames + [frame];
    }

    /** `frame_buffer.pop(0)` guarded by `if frame_buffer`; None stands for the empty branch. */
    method Pop() returns (frame: Option<T>)
      modifies this
      ensures old(frames) == [] ==> frame == None && frames == []
      ensures old(frames) != [] ==> frame == Some(old(frames)[0]) && frames == old(frames)[1..]
      ensures frame.Some? ==> Apply(BufferState(old(frames), []), PopOp) == BufferState(frames, [frame.value])
    {
      if frames == [] {
        frame := None;
      } else {
        frame := Some(frames[0]);
        frames := frames[1..];
      }
    }
  }

  /** The reader thread: every frame the capture yields, in order, until the first failed read. */
  method ReadFrames<T>(buffer: FrameBuffer<T>, captured: seq<T>)
    modifies buffer
    ensures buffer.frames == old(buffer.frames) + captured
  {
    var i := 0;
    while i < |captured|
      invariant 0 <= i <= |captured|
      invariant buffer.frames == old(buffer.frames) + captured[..i]
    {
      buffer.Push(captured[i]);
      i := i + 1;
    }
  }

  /** One access to the buffer by either thread. */
  datatype BufferOp<T> = PushOp(frame: T) | PopOp

  /** The frames a run of accesses appends, in order. */
  function Pushed<T>(ops: seq<BufferOp<T>>): seq<T>
  {
    if ops == [] then []
    else (if ops[0].PushOp? then [ops[0].frame] else []) + Pushed(ops[1..])
  }

  /** The buffer and the frames popped from it so far. */
  datatype BufferState<T> = BufferState(buffered: seq<T>, popped: seq<T>)

  /**
   * One access, as FrameBuffer.Push and FrameBuffer.Pop perform it (their
   * contracts say so); a pop on an empty buffer finds nothing.
   */
  function Apply<T>(st: BufferState<T>, op: BufferOp<T>): BufferState<T>
  {
    match op
    case PushOp(frame) => st.(buffered := st.buffered + [frame])
    case PopOp =>
      if st.buffered == [] then st
      else BufferState(st.buffered[1..], st.popped + [st.buffered[0]])
  }

  /** A run of accesses, in order. */
  function Replay<T>(st: BufferState<T>, ops: seq<BufferOp<T>>): BufferState<T>
    decreases |ops|
  {
    if ops == [] then st else Replay(Apply(st, ops[0]), ops[1..])
  }

  /**
   * FIFO: whatever the interleaving of pushes and pops, the popped frames
   * followed by those still buffered are the initial frames followed by the
   * pushed ones, so frames leave in the order they arrived and none is lost.
   */
  lemma {:induction false} ReplayIsFifo<T>(st: BufferState<T>, ops: seq<BufferOp<T>>)
    ensures Replay(st, ops).popped + Replay(st, ops).buffered == st.popped + st.buffered + Pushed(ops)
    decreases |ops|
  {
    if ops != [] {
      var next := Apply(st, ops[0]);
      ReplayIsFifo(next, ops[1..]);
      if ops[0].PopOp? && st.buffered != [] {
        assert st.buffered == [st.buffered[0]] + st.buffered[1..];
      }
    }
  }
}
