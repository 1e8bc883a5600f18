// The presence ledger (`people_info`) of the detection-and-tracking script:
// one record per tracker identity, stamped once per processed frame and
// drained in batches into the `registros` table.
module PresenceLedger {
  import opened Util

  /** One `people_info` entry; times are whole seconds. */
  datatype Record = Record(entry: int, exit: Option<int>, faceDetected: bool)

  type People = map<TrackId, Record>

  /** Minimum stay, in seconds, for a record to be sent and to survive a prune. */
  const MinDwell: int := 3

  /** The `painel_id` written in every row. */
  const PanelId: int := 1

  /** A record worth sending: it has an exit, at least MinDwell seconds after its entry. */
  predicate Qualifies(r: Record)
  {
    r.exit.Some? && r.exit.value - r.entry >= MinDwell
  }

  // ---------------------------------------------------------------------
  // The per-frame update

  /** The record a frame identity holds after the creation and face steps. */
  function Admitted(people: People, id: TrackId, faceDetected: bool, now: int): Record
  {
    var r := if id in people then people[id] else Record(now, None, false);
    if faceDetected then r.(faceDetected := true) else r
  }

  /** The ledger after the loop over the frame's identities. */
  function AdmitAll(people: People, ids: set<TrackId>, faceDetected: bool, now: int): People
  {
    map k | k in people.Keys + ids :: if k in ids then Admitted(people, k, faceDetected, now) else people[k]
  }

  /** The ledger after the loop that stamps departures. */
  function StampExits(people: People, current: set<TrackId>, now: int): People
  {
    map k | k in people :: if k !in current && people[k].exit.None? then people[k].(exit := Some(now)) else people[k]
  }

  /** The ledger after one processed frame with identities `ids`, face flag `faceDetected`, at time `now`. */
  function AfterFrame(people: People, ids: seq<TrackId>, faceDetected: bool, now: int): (r: People)
    // no key is removed, and exactly the frame's new identities are added
    ensures r.Keys == people.Keys + Elems(ids)
    // a new identity starts present at `now`, with the frame's face flag
    ensures forall k :: k in Elems(ids) && k !in people ==> r[k] == Record(now, None, faceDetected)
    // an existing record keeps its entry, and its exit unless it had none and is absent now
    ensures forall k :: k in people ==> r[k].entry == people[k].entry
    ensures forall k :: k in people ==>
      r[k].exit == (if k !in Elems(ids) && people[k].exit.None? then Some(now) else people[k].exit)
    // the face flag is OR-ed in for the frame's identities and otherwise kept
    ensures forall k :: k in people ==>
      r[k].faceDetected == (people[k].faceDetected || (faceDetected && k in Elems(ids)))
  {
    StampExits(AdmitAll(people, Elems(ids), faceDetected, now), Elems(ids), now)
  }

  /**
   * Every record entered no later than `clock` and, once departed, left
   * between its entry and `clock`.
   */
  predicate Consistent(people: People, clock: int)
  {
    forall k :: k in people ==>
      people[k].entry <= clock && (people[k].exit.Some? ==> people[k].entry <= people[k].exit.value <= clock)
  }

  /** With a clock that does not go back, exit >= entry survives every frame. */
  lemma AfterFrameKeepsConsistent(people: People, ids: seq<TrackId>, faceDetected: bool, clock: int, now: int)
    requires Consistent(people, clock) && clock <= now
    ensures Consistent(AfterFrame(people, ids, faceDetected, now), now)
  {
  }

  /** Repeating a frame's update with the same identities and time changes nothing. */
  lemma AfterFrameIdempotent(people: People, ids: seq<TrackId>, faceDetected: bool, now: int)
    ensures var once := AfterFrame(people, ids, faceDetected, now);
      AfterFrame(once, ids, faceDetected, now) == once
  {
  }

  // ---------------------------------------------------------------------
  // Flushing

  /** The records `send_to_database` selects. */
  function Batch(people: People): (batch: People)
    ensures forall k :: k in batch ==> Qualifies(batch[k])
    // exactly the qualifying records are selected, and each is kept as it was
    ensures forall k :: k in batch <==> k in people && Qualifies(people[k])
    ensures forall k :: k in batch ==> batch[k] == people[k]
  {
    map k | k in people && Qualifies(people[k]) :: people[k]
  }

  /** A row of the INSERT statement. */
  datatype Row = Row(panelId: int, personId: TrackId, entry: int, exit: int, faceDetected: bool)

  function RowOf(id: TrackId, r: Record): Row
    requires r.exit.Some?
  {
    Row(PanelId, id, r.entry, r.exit.value, r.faceDetected)
  }

  /** One row per record of a batch. */
  function Rows(batch: People): set<Row>
    requires forall k :: k in batch ==> batch[k].exit.Some?
  {
    set k | k in batch :: RowOf(k, batch[k])
  }

  /** Every row sent belongs to a batch record, carries panel 1 and a stay of at least MinDwell. */
  lemma RowsQualify(people: People)
    ensures forall row :: row in Rows(Batch(people)) ==>
      row.panelId == PanelId && row.exit - row.entry >= MinDwell &&
      row.personId in people && people[row.personId] == Record(row.entry, Some(row.exit), row.faceDetected)
  {
  }

  /** The ledger after `send_to_database`: the batch is deleted only when it was non-empty and committed. */
  function AfterSend(people: People, sinkCommits: bool): (r: People)
    // only records are removed, never changed
    ensures r.Keys <= people.Keys
    ensures forall k :: k in r ==> r[k] == people[k]
    // a record is removed only by a committed send, and only if it qualified
    ensures forall k :: k in people && k !in r ==> sinkCommits && Qualifies(people[k])
    // after a committed send no qualifying record is left; a failed one changes nothing
    ensures sinkCommits ==> forall k :: k in r ==> !Qualifies(r[k])
    ensures !sinkCommits ==> r == people
  {
    var batch := Batch(people);
    assert forall k :: k in people && Qualifies(people[k]) ==> k in batch;
    if batch != map[] && sinkCommits then people - batch.Keys else people
  }

  /** The two comprehensions after a periodic send: drop records without an exit, then short stays. */
  function Prune(people: People): (r: People)
    ensures forall k :: k in r <==> k in people && Qualifies(people[k])
    ensures forall k :: k in r ==> r[k] == people[k]
  {
    var departed := map k | k in people && people[k].exit.Some? :: people[k];
    map k | k in departed && departed[k].exit.value - departed[k].entry >= MinDwell :: departed[k]
  }

  /** The prune keeps exactly what the send's filter selects. */
  lemma PruneIsBatch(people: People)
    ensures Prune(people) == Batch(people)
  {
  }

  /**
   * A periodic flush leaves nothing when the sink committed (or had nothing
   * to take) and exactly the unsent batch when it failed: failed records are
   * retried, and present or short-stay records are dropped either way.
   */
  lemma PeriodicFlushOutcome(people: People, sinkCommits: bool)
    ensures Prune(AfterSend(people, sinkCommits)) == if sinkCommits then map[] else Batch(people)
  {
  }

  /** The filter loop of `send_to_database`. */
  method SelectBatch(people: People) returns (batch: People)
    ensures forall k :: k in batch <==> k in people && Qualifies(people[k])
    ensures forall k :: k in batch ==> batch[k] == people[k]
    ensures batch == Batch(people)
  {
    batch := map[];
    var pending := people.Keys;
    while pending != {}
      invariant pending <= people.Keys
      invariant forall k :: k in batch <==> k in people && k !in pending && Qualifies(people[k])
      invariant forall k :: k in batch ==> batch[k] == people[k]
      decreases pending
    {
      NonEmptyHasMember(pending);
      var id :| id in pending;
      var info := people[id];
      if info.exit.Some? {
        var duration := info.exit.value - info.entry;
        if duration >= MinDwell {
          batch := batch[id := info];
        }
      }
      pending := pending - {id};
    }
  }

  /** The people_info dictionary. */
  class Ledger {
    var people: People

    constructor ()
      ensures people == map[]
    {
      people := map[];
    }

    /** The update of the processing loop for one frame. */
    method Update(trackingIds: seq<TrackId>, faceDetected: bool, now: int)
      modifies this
      ensures people == AfterFrame(old(people), trackingIds, faceDetected, now)
    {
      var current := Elems(trackingIds);
      AdmitIds(trackingIds, faceDetected, now);
      StampDepartures(current, now);
    }

    /** The loop over the frame's identities: create unseen records, OR in the face flag. */
    method AdmitIds(trackingIds: seq<TrackId>, faceDetected: bool, now: int)
      modifies this
      ensures people == AdmitAll(old(people), Elems(trackingIds), faceDetected, now)
    {
      var i := 0;
      while i < |trackingIds|
        invariant 0 <= i <= |trackingIds|
        invariant people == AdmitAll(old(people), Elems(trackingIds[..i]), faceDetected, now)
      {
        var id := trackingIds[i];
        assert Elems(trackingIds[..i + 1]) == Elems(trackingIds[..i]) + {id} by {
          assert trackingIds[..i + 1] == trackingIds[..i] + [id];
        }
        if id !in people {
          people := people[id := Record(now, None, false)];
        }
        if faceDetected {
          people := people[id := people[id].(faceDetected := true)];
        }
        i := i + 1;
      }
      assert trackingIds[..i] == trackingIds;
    }

    /** The loop over the ledger's keys: stamp `now` on absent records without an exit. */
    method StampDepartures(current: set<TrackId>, now: int)
      modifies this
      ensures people == StampExits(old(people), current, now)
    {
      var pending := people.Keys;
      while pending != {}
        invariant pending <= old(people).Keys == people.Keys
        invariant forall k :: k in people ==>
          people[k] == if k in pending then old(people)[k] else StampExits(old(people), current, now)[k]
        decreases pending
      {
        NonEmptyHasMember(pending);
        var id :| id in pending;
        if id !in current && people[id].exit.None? {
          people := people[id := people[id].(exit := Some(now))];
        }
        pending := pending - {id};
      }
      forall k | k in people
        ensures people[k] == StampExits(old(people), current, now)[k]
      {
        assert k !in pending;
      }
      assert StampExits(old(people), current, now).Keys == people.Keys;
    }
  }

  /**
   * `send_to_database`: select the batch; an empty batch returns without
   * contacting the sink; otherwise one row per record is offered to the
   * INSERT and, only when the commit succeeds, the batch is deleted from the
   * ledger.
   */
  method SendToDatabase(ledger: Ledger, sinkCommits: bool) returns (rows: set<Row>, committed: bool)
    modifies ledger
    ensures Batch(old(ledger.people)) == map[] ==> rows == {} && !committed
    ensures Batch(old(ledger.people)) != map[] ==> rows == Rows(Batch(old(ledger.people))) && committed == sinkCommits
    ensures ledger.people == if committed then old(ledger.people) - Batch(old(ledger.people)).Keys else old(ledger.people)
    ensures ledger.people == AfterSend(old(ledger.people), sinkCommits)
  {
    var filtered := SelectBatch(ledger.people);
    rows, committed := {}, false;
    if filtered == map[] {
      return;
    }
    var pending := filtered.Keys;
    while pending != {}
      invariant pending <= filtered.Keys
      invariant rows == set k | k in filtered && k !in pending :: RowOf(k, filtered[k])
      invariant ledger.people == old(ledger.people)
      decreases pending
    {
      NonEmptyHasMember(pending);
      var id :| id in pending;
      rows := rows + {RowOf(id, filtered[id])};
      pending := pending - {id};
    }
    if sinkCommits {
      committed := true;
      ghost var before := ledger.people;
      var sent := filtered.Keys;
      while sent != {}
        invariant sent <= filtered.Keys
        invariant ledger.people == before - (filtered.Keys - sent)
        decreases sent
      {
        NonEmptyHasMember(sent);
        var id :| id in sent;
        ledger.people := ledger.people - {id};
        sent := sent - {id};
      }
      assert filtered.Keys - sent == filtered.Keys;
      assert ledger.people == before - filtered.Keys;
    }
  }

  /**
   * `send_to_database` as the table sees it: the rows that reach the table
   * are the batch's when the commit succeeds, and none when the batch is
   * empty or the INSERT or the commit fails.
   */
  method SendCommitted(ledger: Ledger, sinkCommits: bool) returns (inserted: set<Row>)
    modifies ledger
    ensures inserted == if Batch(old(ledger.people)) == map[] || !sinkCommits then {} else Rows(Batch(old(ledger.people)))
    ensures ledger.people == AfterSend(old(ledger.people), sinkCommits)
  {
    var offered, committed := SendToDatabase(ledger, sinkCommits);
    inserted := if committed then offered else {};
  }
}
