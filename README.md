# Presence ledger and visitor counter of the DeteccaoIA tracking scripts

This Dafny project models the bookkeeping inside two camera scripts of the
DeteccaoIA detector. The detector, the tracker, the face classifier, the
camera and the database are left outside. What they report becomes input.

- **Presence ledger** (`DeteccaoIA/yoloD/yolo_detection_tracking.py`).
  - A reader thread appends captured frames to a FIFO `frame_buffer`.
  - The processing loop pops frames with `pop(0)`. It counts every popped
    frame and processes only those whose counter is even (`frame_skip = 2`).
  - For each processed frame it updates `people_info`, which maps each
    tracker identity to a record `{entry_time, exit_time, face_detected}`:
    - an unseen identity gets a record;
    - the frame's face flag is OR-ed into the records of the frame's identities;
    - every absent identity without an exit gets `exit_time = now`.
  - On the first processed frame at least 10 seconds after the last send, it
    calls `send_to_database`; the interval is checked only on processed frames.
    That call:
    - picks the records that have an exit and a stay of at least 3 s;
    - inserts them as rows with `painel_id = 1`;
    - deletes them only when the commit succeeds.
  - After the send, the loop prunes the ledger down to records with an exit and
    a stay of at least 3 s.
  - When the loop ends, one last `send_to_database` runs with no prune.
- **Unique-visitor counter** (`DeteccaoIA/yolo_detection_tracking.py`). For
  each frame it keeps `current_ids` (the frame's identities), `total_ids`
  (every identity seen so far) and `total_count`.

Modules:

- `Util`: `Option`, the identity type `TrackId`, `Elems` (`set(tracking_ids)`)
  and a small set lemma.
- `FrameQueue`:
  - the `FrameBuffer` class (`Push`/`Pop`);
  - the reader loop `ReadFrames`;
  - the FIFO property over any interleaving of pushes and pops.
- `PresenceLedger`:
  - records and the `Ledger` class;
  - the per-frame `Update`, whose two loops (`AdmitIds`, `StampDepartures`)
    are proved to leave the ledger equal to the function `AfterFrame`;
  - the filter loop `SelectBatch`;
  - `SendToDatabase`, and `SendCommitted`, the rows it leaves in the table;
  - the prune, as the function `Prune`;
  - lemmas about all of these.
- `DetectionLoop`:
  - `RunDetection`, the rest of `main`: the processing loop `ProcessFrames`,
    proved against the function `Run`, a fold of `OnFrame` over the popped
    frames, then the final send; the loop body is `PopAndHandle`, which pops a
    frame and hands it to `HandleFrame`;
  - `SentRows`, the rows every periodic send of a run commits to the table;
    a failed send commits none;
  - lemmas about the frame skip, the flush and the record history.
- `VisitorCount`: `ObserveFrame` (one frame) and `CountVisitors` (the whole
  loop). Both are loops over sets, proved against `Seen`, the union of the
  frames' identity sets.

Time is whole seconds. Identities are integers, and only their equality is
used.

Two behaviours of the code are easy to miss:

- When an INSERT or the commit fails, the code keeps the selected records. They survive
  the prune and are sent again at the next interval. Nothing is dropped
  (`PeriodicFlushOutcome`).
- A record that is still present (no exit) at a periodic flush is pruned, not
  kept. If the identity is still tracked, the next processed frame opens a new
  record with a new entry time (`TrackedIdentityReenters`).

## Model

| member | source | states |
|---|---|---|
| FrameQueue.FrameBuffer.constructor | DeteccaoIA/yoloD/yolo_detection_tracking.py:13 | the buffer starts empty |
| FrameQueue.FrameBuffer.Push | DeteccaoIA/yoloD/yolo_detection_tracking.py:23-24 | the frame is appended at the tail and nothing else changes |
| FrameQueue.FrameBuffer.Pop | DeteccaoIA/yoloD/yolo_detection_tracking.py:111-115 | an empty buffer yields nothing and stays empty; otherwise the head is returned and removed |
| FrameQueue.ReadFrames | DeteccaoIA/yoloD/yolo_detection_tracking.py:17-24 | the buffer ends up holding its old frames followed by every captured frame, in capture order |
| FrameQueue.ReplayIsFifo | DeteccaoIA/yoloD/yolo_detection_tracking.py:111-113 | for any interleaving of appends and head pops, the popped frames followed by the buffered ones are the initial frames followed by the pushed ones: frames leave in arrival order and none is lost |
| PresenceLedger.AfterFrame | DeteccaoIA/yoloD/yolo_detection_tracking.py:143-162 | no key is removed and the new keys are exactly the frame's new identities; a new identity gets entry = now, no exit and the frame's face flag; entry never changes; exactly the absent records without an exit get exit = now, and every other exit stays as it was, even for a departed identity that reappears; the face flag becomes old flag OR (face seen AND identity in frame), so it is never reset |
| PresenceLedger.AfterFrameKeepsConsistent | DeteccaoIA/yoloD/yolo_detection_tracking.py:145-162 | if the clock does not go back, a ledger whose entries and exits lie no later than the clock, with every exit at or after its entry, keeps that property after a frame |
| PresenceLedger.AfterFrameIdempotent | DeteccaoIA/yoloD/yolo_detection_tracking.py:143-162 | running a frame's update a second time with the same identities, face flag and time changes nothing |
| PresenceLedger.Ledger.constructor | DeteccaoIA/yoloD/yolo_detection_tracking.py:104 | the ledger starts empty |
| PresenceLedger.Ledger.Update | DeteccaoIA/yoloD/yolo_detection_tracking.py:143-162 | the two in-place loops leave the ledger equal to AfterFrame of the old ledger |
| PresenceLedger.Ledger.AdmitIds | DeteccaoIA/yoloD/yolo_detection_tracking.py:145-158 | the loop over the frame's identities, duplicates included, creates each unseen record and ORs in the face flag, as AdmitAll gives |
| PresenceLedger.Ledger.StampDepartures | DeteccaoIA/yoloD/yolo_detection_tracking.py:160-162 | the loop over the ledger's keys stamps `now` on exactly the absent records without an exit, as StampExits gives |
| PresenceLedger.Batch | DeteccaoIA/yoloD/yolo_detection_tracking.py:29-39 | a record is selected exactly when it has an exit and a stay of at least 3 s, and it is selected unchanged |
| PresenceLedger.SelectBatch | DeteccaoIA/yoloD/yolo_detection_tracking.py:29-39 | the filter loop selects exactly the records with an exit and a stay of at least 3 s, unchanged, and nothing else |
| PresenceLedger.RowsQualify | DeteccaoIA/yoloD/yolo_detection_tracking.py:53-60 | every row offered to the INSERT has painel_id 1 and a stay of at least 3 s, and carries exactly the entry, exit and face flag of the ledger record of its identity |
| PresenceLedger.SendToDatabase | DeteccaoIA/yoloD/yolo_detection_tracking.py:27-71 | an empty batch returns without contacting the sink and without changes; otherwise one row per batch record is offered to the INSERT and the commit outcome is returned; on commit exactly the batch identities are deleted and all other entries are unchanged; on failure nothing is deleted |
| PresenceLedger.SendCommitted | DeteccaoIA/yoloD/yolo_detection_tracking.py:27-71 | the rows that reach the table are one per batch record when the commit succeeds, and none when the batch is empty or the INSERT or the commit fails; the ledger is left as AfterSend gives |
| PresenceLedger.AfterSend | DeteccaoIA/yoloD/yolo_detection_tracking.py:41-69 | send_to_database's effect on the ledger: records are only removed, never changed; a record is removed only by a committed send and only if it qualified; after a commit no qualifying record is left; a failed send changes nothing |
| PresenceLedger.Prune | DeteccaoIA/yoloD/yolo_detection_tracking.py:180-181 | the two comprehensions keep a record exactly when it has an exit and a stay of at least 3 s, unchanged |
| PresenceLedger.PruneIsBatch | DeteccaoIA/yoloD/yolo_detection_tracking.py:180-181 | the two-step prune keeps exactly the records the send's filter selects |
| PresenceLedger.PeriodicFlushOutcome | DeteccaoIA/yoloD/yolo_detection_tracking.py:177-181 | after send and prune the ledger is empty when the commit succeeded (or there was nothing to send), and exactly the unsent batch when it failed |
| DetectionLoop.ProcessedEveryOther | DeteccaoIA/yoloD/yolo_detection_tracking.py:107-119 | of n popped frames exactly n div 2 are processed, namely the 2nd, 4th, ... (counter even), in pop order |
| DetectionLoop.OnFrame | DeteccaoIA/yoloD/yolo_detection_tracking.py:117-182 | one popped frame: the counter grows by one; a frame with an odd counter changes nothing else; the last send moves only to the clock of a due frame; new records come only from the frame's identities |
| DetectionLoop.Run | DeteccaoIA/yoloD/yolo_detection_tracking.py:110-182 | the loop over the popped frames: the counter grows by exactly the number of popped frames, processed or skipped, and the time of the last send never goes back |
| DetectionLoop.FlushRows | DeteccaoIA/yoloD/yolo_detection_tracking.py:176-177 | the rows a frame's tick commits to the table: none unless the frame is processed and due and the send commits; each has painel_id 1 and a stay of at least 3 s |
| DetectionLoop.SentRowsQualify | DeteccaoIA/yoloD/yolo_detection_tracking.py:176-177 | every row committed by any periodic send of a run has painel_id 1 and a stay of at least 3 s |
| DetectionLoop.HandleFrame | DeteccaoIA/yoloD/yolo_detection_tracking.py:117-182 | the loop body after the pop leaves the ledger, counter and last send as OnFrame gives, and returns the committed rows FlushRows gives |
| DetectionLoop.PopAndHandle | DeteccaoIA/yoloD/yolo_detection_tracking.py:111-182 | one pass of the loop: the head of the buffer is removed and handled, leaving the state OnFrame gives and returning the committed rows FlushRows gives |
| DetectionLoop.ProcessFrames | DeteccaoIA/yoloD/yolo_detection_tracking.py:104-182 | the loop empties the buffer; it processes exactly Processed(frames); it returns the rows each periodic send committed, in order, as SentRows gives; it leaves the ledger Run gives |
| DetectionLoop.OnFrameFlush | DeteccaoIA/yoloD/yolo_detection_tracking.py:176-182 | a flush fires only on a processed frame with now - last_send >= 10; then last_send = now and every surviving record has an exit and a stay of at least 3 s (none survive after a commit); otherwise last_send is unchanged and the ledger is just the frame update (or untouched for a skipped frame) |
| DetectionLoop.TrackedIdentityReenters | DeteccaoIA/yoloD/yolo_detection_tracking.py:150-181 | a present identity still tracked on a flushing frame is dropped, and the next processed frame that tracks it opens a record with that frame's time as entry |
| DetectionLoop.OnFrameKeepsHistory | DeteccaoIA/yoloD/yolo_detection_tracking.py:145-182 | across any popped frame, a record that is kept keeps its entry, keeps an exit once set, and keeps a true face flag |
| DetectionLoop.RunKeepsConsistent | DeteccaoIA/yoloD/yolo_detection_tracking.py:110-182 | with non-decreasing frame times, after any number of frames and flushes every record entered no later than the current time and, once departed, left between its entry and that time |
| DetectionLoop.RunDetection | DeteccaoIA/yoloD/yolo_detection_tracking.py:104-191 | the loop empties the buffer; it processes exactly Processed(frames); it returns the rows each periodic send committed, in order, as SentRows gives; the final send, regardless of the interval, commits every qualifying record left by Run and deletes them, or commits nothing and keeps them when it fails |
| VisitorCount.SeenIsUnion | DeteccaoIA/yolo_detection_tracking.py:43-45 | an identity is in the seen set exactly when some frame so far tracked it |
| VisitorCount.SeenGrows | DeteccaoIA/yolo_detection_tracking.py:43-45 | the seen set after k frames is contained in the seen set after any later frame |
| VisitorCount.SeenGainsNew | DeteccaoIA/yolo_detection_tracking.py:43-46 | joining a frame's identities to the seen set adds exactly as many as were not seen before |
| VisitorCount.ObserveFrame | DeteccaoIA/yolo_detection_tracking.py:38-48 | current_ids becomes the frame's identity set (empty for an empty frame); total_ids gains the frame's identities; total_count grows by exactly the number of them not in total_ids before |
| VisitorCount.CountVisitors | DeteccaoIA/yolo_detection_tracking.py:21-48 | after the frames, total_ids is the union of all frames' identity sets and total_count is its size; current_ids is the last frame's identity set and is contained in total_ids |

## Left out

- Video capture, resizing, drawing, `imshow`/`waitKey` and the key-press exit are left out. They are UI and I/O. The loop instead ends when the frames run out.
- The YOLO detector, the DeepSort `Tracker` and the Haar face classifier are foreign calls. Each `Frame` carries what they report: the identities and the face flag.
- The identity loop walks `zip(tracking_ids, boxes)`, while `current_ids` is `set(tracking_ids)`. The model takes the tracker's identity and box lists to have equal length, so every tracked identity gets a record.
- `pymysql` is replaced by a boolean: whether the inserts and the commit succeed. Rows are a set, so the order of the INSERTs is not modelled.
- A failed `connect` makes `finally: conn.close()` raise on an unbound name, which crashes the script. That is an I/O crash path and is not modelled.
- `print` logging is not modelled.
- The `Thread`/`Lock` pair is not modelled. Pushes and pops are sequential.
- `RunDetection` starts once every captured frame is in the buffer. The interleaving of reading and processing appears only in `ReplayIsFifo`.
- When the buffer is empty the source busy-waits at line 115. The model treats that as the end of the frames.
- `datetime` strings are replaced by integer seconds. One clock value per processed frame stands for all four `datetime.now()` calls of that iteration (entry, exit, interval check, `last_send_time`).
- The FPS computation uses floating point and is not modelled.
- The visitor counter's final prints of `total_ids`, `total_count` and `detections` are left out.
- `DeteccaoIA/yoloD/main.py` is not part of this model. It is a wrapper over other libraries with float confidence filtering.
- `DeteccaoIA/FCapture/testeCapture.py` is not part of this model. It is camera I/O only.
