// The processing loop of the detection-and-tracking script: pop a frame,
// skip every other one, update the presence ledger, and flush it to the
// database at a fixed interval; one last send when the frames run out.
module DetectionLoop {
  import opened Util
  import opened PresenceLedger
  import opened FrameQueue

  /** `frame_skip`: only frames whose counter is a multiple of it are processed. */
  const FrameSkip: int := 2

  /** `send_interval`, in seconds. */
  const SendInterval: int := 10

  /**
   * A captured frame, given by what the foreign calls report while it is
   * processed: the tracker's identities, whether the face classifier found a
   * face, the wall clock in seconds, and whether the database would accept a
   * send made at that point.
   */
  datatype Frame = Frame(trackingIds: seq<TrackId>, faceDetected: bool, clock: int, sinkCommits: bool)

  /** The loop's variables: `people_info`, `frame_counter`, `last_send_time`. */
  datatype LoopState = LoopState(people: People, frameCounter: int, lastSendTime: int)

  /** Whether the tick of a processed frame at `clock` sends. */
  predicate Due(lastSendTime: int, clock: int)
  {
    clock - lastSendTime >= SendInterval
  }

  /** One popped frame: count it, skip it, or update the ledger and possibly flush. */
  function OnFrame(s: LoopState, f: Frame): (r: LoopState)
    // every popped frame is counted, and a skipped one changes nothing else
    ensures r.frameCounter == s.frameCounter + 1
    ensures (s.frameCounter + 1) % FrameSkip != 0 ==> r == s.(frameCounter := s.frameCounter + 1)
    // the last send moves only to the clock of a frame that was due
    ensures r.lastSendTime == s.lastSendTime || (r.lastSendTime == f.clock && Due(s.lastSendTime, f.clock))
    // records come only from the ledger or from the frame's identities
    ensures r.people.Keys <= s.people.Keys + Elems(f.trackingIds)
  {
    var counter := s.frameCounter + 1;
    if counter % FrameSkip != 0 then s.(frameCounter := counter)
    else
      var people := AfterFrame(s.people, f.trackingIds, f.faceDetected, f.clock);
      if Due(s.lastSendTime, f.clock) then LoopState(Prune(AfterSend(people, f.sinkCommits)), counter, f.clock)
      else LoopState(people, counter, s.lastSendTime)
  }

  /** The loop over a sequence of popped frames, oldest first. */
  function Run(s: LoopState, frames: seq<Frame>): (r: LoopState)
    // the counter counts every popped frame, processed or skipped
    ensures r.frameCounter == s.frameCounter + |frames|
    // the time of the last send never goes back
    ensures r.lastSendTime >= s.lastSendTime
    decreases |frames|
  {
    if frames == [] then s else OnFrame(Run(s, frames[..|frames| - 1]), frames[|frames| - 1])
  }

  /**
   * The rows the tick of a popped frame commits to the table: those of the
   * batch of the updated ledger when the frame is processed, due, has
   * something to send and the sink commits. A failed send inserts nothing.
   */
  function FlushRows(s: LoopState, f: Frame): (rows: set<Row>)
    // rows are committed only by the tick of a processed, due frame whose send succeeds
    ensures rows != {} ==> (s.frameCounter + 1) % FrameSkip == 0 && Due(s.lastSendTime, f.clock) && f.sinkCommits
    // and each carries panel 1 and a stay of at least MinDwell seconds
    ensures forall row :: row in rows ==> row.panelId == PanelId && row.exit - row.entry >= MinDwell
  {
    var updated := AfterFrame(s.people, f.trackingIds, f.faceDetected, f.clock);
    RowsQualify(updated);
    if (s.frameCounter + 1) % FrameSkip == 0 && Due(s.lastSendTime, f.clock) && f.sinkCommits && Batch(updated) != map[] then
      Rows(Batch(updated))
    else
      {}
  }

  /** The rows of every periodic send the sink committed, one set per send, in order. */
  function SentRows(s: LoopState, frames: seq<Frame>): seq<set<Row>>
    decreases |frames|
  {
    if frames == [] then []
    else
      var prefix := frames[..|frames| - 1];
      var rows := FlushRows(Run(s, prefix), frames[|frames| - 1]);
      if rows == {} then SentRows(s, prefix) else SentRows(s, prefix) + [rows]
  }

  /** Every row a periodic send commits carries panel 1 and a stay of at least MinDwell seconds. */
  lemma {:induction false} SentRowsQualify(s: LoopState, frames: seq<Frame>)
    ensures forall i, row :: 0 <= i < |SentRows(s, frames)| && row in SentRows(s, frames)[i] ==>
      row.panelId == PanelId && row.exit - row.entry >= MinDwell
    decreases |frames|
  {
    if frames != [] {
      var prefix, f := frames[..|frames| - 1], frames[|frames| - 1];
      assert frames == prefix + [f];
      SentRowsQualify(s, prefix);
      RunStep(s, prefix, f);
      var earlier := SentRows(s, prefix);
      var rows := FlushRows(Run(s, prefix), f);
      forall i, row | 0 <= i < |SentRows(s, frames)| && row in SentRows(s, frames)[i]
        ensures row.panelId == PanelId && row.exit - row.entry >= MinDwell
      {
        if i < |earlier| {
          assert SentRows(s, frames)[i] == earlier[i];
        } else {
          assert row in rows;
        }
      }
    }
  }


  /** The frames handed to the detector when the counter starts at 0: those whose 1-based position is even. */
  function Processed(frames: seq<Frame>): seq<Frame>
    decreases |frames|
  {
    if frames == [] then []
    else Processed(frames[..|frames| - 1]) + (if |frames| % FrameSkip == 0 then [frames[|frames| - 1]] else [])
  }

  /** Of n popped frames exactly n div 2 are processed: the 2nd, the 4th, and so on, in order. */
  lemma {:induction false} ProcessedEveryOther(frames: seq<Frame>)
    ensures |Processed(frames)| == |frames| / 2
    ensures forall j :: 0 <= j < |frames| / 2 ==> Processed(frames)[j] == frames[2 * j + 1]
    decreases |frames|
  {
    if frames != [] {
      var prefix := frames[..|frames| - 1];
      ProcessedEveryOther(prefix);
      forall j | 0 <= j < |prefix| / 2
        ensures Processed(frames)[j] == frames[2 * j + 1]
      {
        assert Processed(frames)[j] == Processed(prefix)[j];
      }
    }
  }

  /**
   * A periodic flush fires only on a processed frame whose clock is at least
   * SendInterval past the last send; afterwards the last send is that clock
   * and the ledger holds nothing but unsent qualifying records: none at all
   * when the database committed.
   */
  lemma OnFrameFlush(s: LoopState, f: Frame)
    ensures var s' := OnFrame(s, f);
      var updated := AfterFrame(s.people, f.trackingIds, f.faceDetected, f.clock);
      if (s.frameCounter + 1) % FrameSkip == 0 && Due(s.lastSendTime, f.clock) then
        s'.lastSendTime == f.clock &&
        s'.people == (if f.sinkCommits then map[] else Batch(updated)) &&
        (forall k :: k in s'.people ==> Qualifies(s'.people[k]))
      else
        s'.lastSendTime == s.lastSendTime &&
        s'.people == (if (s.frameCounter + 1) % FrameSkip == 0 then updated else s.people)
  {
  }

  /**
   * An identity present and still tracked on a frame that flushes is dropped from the
   * ledger, so the next processed frame that sees it opens a new record
   * whose entry is that frame's clock.
   */
  lemma TrackedIdentityReenters(s: LoopState, f: Frame, g: Frame, k: TrackId)
    requires (s.frameCounter + 1) % FrameSkip == 0 && Due(s.lastSendTime, f.clock)
    requires k !in s.people || s.people[k].exit.None?
    requires k in Elems(f.trackingIds) && k in Elems(g.trackingIds)
    ensures k !in OnFrame(s, f).people
    ensures AfterFrame(OnFrame(s, f).people, g.trackingIds, g.faceDetected, g.clock)[k].entry == g.clock
  {
  }

  /**
   * Across one popped frame a record that is kept keeps its entry time, keeps
   * an exit time once set, and never loses its face flag.
   */
  lemma OnFrameKeepsHistory(s: LoopState, f: Frame)
    ensures forall k :: k in s.people && k in OnFrame(s, f).people ==>
      OnFrame(s, f).people[k].entry == s.people[k].entry &&
      (s.people[k].exit.Some? ==> OnFrame(s, f).people[k].exit == s.people[k].exit) &&
      (s.people[k].faceDetected ==> OnFrame(s, f).people[k].faceDetected)
  {
  }

  /** Clocks of the popped frames never go back, and none is before `clock`. */
  predicate ClocksFrom(frames: seq<Frame>, clock: int)
  {
    (forall i :: 0 <= i < |frames| ==> clock <= frames[i].clock) &&
    (forall i, j :: 0 <= i < j < |frames| ==> frames[i].clock <= frames[j].clock)
  }

  /** The clock after a run of frames: that of the last frame, or `clock` when there is none. */
  function LastClock(frames: seq<Frame>, clock: int): int
  {
    if frames == [] then clock else frames[|frames| - 1].clock
  }

  /**
   * With a clock that does not go back, every record of the ledger, however
   * many frames and flushes it has been through, entered no later than the
   * current clock and, once departed, left between its entry and that clock.
   */
  lemma {:induction false} RunKeepsConsistent(s: LoopState, frames: seq<Frame>, clock: int)
    requires Consistent(s.people, clock)
    requires ClocksFrom(frames, clock)
    ensures Consistent(Run(s, frames).people, LastClock(frames, clock))
    decreases |frames|
  {
    if frames != [] {
      var prefix := frames[..|frames| - 1];
      var f := frames[|frames| - 1];
      RunKeepsConsistent(s, prefix, clock);
      var before := Run(s, prefix);
      var t := LastClock(prefix, clock);
      assert t <= f.clock;
      AfterFrameKeepsConsistent(before.people, f.trackingIds, f.faceDetected, t, f.clock);
      OnFrameFlush(before, f);
    }
  }

  /** Run, Processed and SentRows extend by one popped frame. */
  lemma RunStep(s: LoopState, frames: seq<Frame>, f: Frame)
    ensures Run(s, frames + [f]) == OnFrame(Run(s, frames), f)
    ensures Processed(frames + [f]) == Processed(frames) + (if (|frames| + 1) % FrameSkip == 0 then [f] else [])
    ensures SentRows(s, frames + [f]) ==
      var rows := FlushRows(Run(s, frames), f);
      if rows == {} then SentRows(s, frames) else SentRows(s, frames) + [rows]
  {
  }

  /** RunStep for the prefix of a sequence of frames that grows by its next frame. */
  lemma RunStepAt(s: LoopState, frames: seq<Frame>, n: nat)
    requires n < |frames|
    ensures Run(s, frames[..n + 1]) == OnFrame(Run(s, frames[..n]), frames[n])
    ensures Processed(frames[..n + 1]) == Processed(frames[..n]) + (if (n + 1) % FrameSkip == 0 then [frames[n]] else [])
    ensures SentRows(s, frames[..n + 1]) ==
      var rows := FlushRows(Run(s, frames[..n]), frames[n]);
      if rows == {} then SentRows(s, frames[..n]) else SentRows(s, frames[..n]) + [rows]
  {
    assert frames[..n + 1] == frames[..n] + [frames[n]];
    RunStep(s, frames[..n], frames[n]);
  }

  /**
   * One pass of the loop body after the pop: count the frame, skip it when
   * the counter is odd, otherwise update the ledger and, when due, send and
   * prune. Returns the rows the send committed, if any.
   */
  method HandleFrame(ledger: Ledger, frame: Frame, frameCounter: int, lastSendTime: int)
    returns (newCounter: int, newLastSendTime: int, rows: set<Row>)
    modifies ledger
    ensures LoopState(ledger.people, newCounter, newLastSendTime) ==
      OnFrame(LoopState(old(ledger.people), frameCounter, lastSendTime), frame)
    ensures rows == FlushRows(LoopState(old(ledger.people), frameCounter, lastSendTime), frame)
  {
    newCounter, newLastSendTime, rows := frameCounter + 1, lastSendTime, {};
    if newCounter % FrameSkip != 0 {
      return;
    }
    ledger.Update(frame.trackingIds, frame.faceDetected, frame.clock);
    if frame.clock - lastSendTime >= SendInterval {
      rows := SendCommitted(ledger, frame.sinkCommits);
      ledger.people := Prune(ledger.people);
      newLastSendTime := frame.clock;
    }
  }

  /** Pop the oldest frame and run the loop body on it. */
  method PopAndHandle(buffer: FrameBuffer<Frame>, ledger: Ledger, frameCounter: int, lastSendTime: int)
    returns (frame: Frame, newCounter: int, newLastSendTime: int, rows: set<Row>)
    requires buffer.frames != []
    modifies buffer, ledger
    ensures frame == old(buffer.frames)[0] && buffer.frames == old(buffer.frames)[1..]
    ensures LoopState(ledger.people, newCounter, newLastSendTime) ==
      OnFrame(LoopState(old(ledger.people), frameCounter, lastSendTime), frame)
    ensures rows == FlushRows(LoopState(old(ledger.people), frameCounter, lastSendTime), frame)
  {
    var popped := buffer.Pop();
    frame := popped.value;
    newCounter, newLastSendTime, rows := HandleFrame(ledger, frame, frameCounter, lastSendTime);
  }

  /**
   * The processing loop of `main` after the capture has stopped: pop frames
   * until the buffer is empty, counting every frame and processing every
   * other one. Returns the processed frames and the rows each periodic send
   * committed.
   */
  method ProcessFrames(buffer: FrameBuffer<Frame>, startTime: int)
    returns (ledger: Ledger, processed: seq<Frame>, periodicRows: seq<set<Row>>)
    modifies buffer
    ensures fresh(ledger)
    ensures buffer.frames == []
    ensures processed == Processed(old(buffer.frames))
    ensures periodicRows == SentRows(LoopState(map[], 0, startTime), old(buffer.frames))
    ensures ledger.people == Run(LoopState(map[], 0, startTime), old(buffer.frames)).people
  {
    ledger := new Ledger();
    var frameCounter := 0;
    var lastSendTime := startTime;
    processed, periodicRows := [], [];
    ghost var frames, n := buffer.frames, 0;
    while buffer.frames != []
      invariant 0 <= n <= |frames| && buffer.frames == frames[n..]
      invariant LoopState(ledger.people, frameCounter, lastSendTime) == Run(LoopState(map[], 0, startTime), frames[..n])
      invariant frameCounter == n
      invariant processed == Processed(frames[..n])
      invariant periodicRows == SentRows(LoopState(map[], 0, startTime), frames[..n])
      decreases |buffer.frames|
    {
      RunStepAt(LoopState(map[], 0, startTime), frames, n);
      var frame, rows;
      frame, frameCounter, lastSendTime, rows := PopAndHandle(buffer, ledger, frameCounter, lastSendTime);
      if frameCounter % FrameSkip == 0 {
        processed := processed + [frame];
      }
      if rows != {} {
        periodicRows := periodicRows + [rows];
      }
      n := n + 1;
    }
    assert frames[..n] == frames;
  }

  /**
   * `main` after the capture has stopped: run the processing loop, then send
   * whatever qualifies one last time, whatever the interval. Returns the
   * rows each periodic send committed and those the final send committed.
   */
  method RunDetection(buffer: FrameBuffer<Frame>, startTime: int, finalSinkCommits: bool)
    returns (ledger: Ledger, processed: seq<Frame>, periodicRows: seq<set<Row>>, finalRows: set<Row>)
    modifies buffer
    ensures fresh(ledger)
    ensures buffer.frames == []
    ensures processed == Processed(old(buffer.frames))
    ensures periodicRows == SentRows(LoopState(map[], 0, startTime), old(buffer.frames))
    ensures var last := Run(LoopState(map[], 0, startTime), old(buffer.frames));
      finalRows == (if Batch(last.people) == map[] || !finalSinkCommits then {} else Rows(Batch(last.people))) &&
      ledger.people == AfterSend(last.people, finalSinkCommits)
  {
    ledger, processed, periodicRows := ProcessFrames(buffer, startTime);
    finalRows := SendCommitted(ledger, finalSinkCommits);
  }
}
