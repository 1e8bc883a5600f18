// The unique-visitor counter of the camera-only tracking script: per frame
// it records which identities are on screen and how many distinct
// identities have been seen since the start.
module VisitorCount {
  import opened Util

  /** Every identity tracked in any of the frames so far. */
  function Seen(frames: seq<seq<TrackId>>): set<TrackId>
    decreases |frames|
  {
    if frames == [] then {} else Seen(frames[..|frames| - 1]) + Elems(frames[|frames| - 1])
  }

  /** Seen is the union of the frames' identity sets. */
  lemma {:induction false} SeenIsUnion(frames: seq<seq<TrackId>>, id: TrackId)
    ensures id in Seen(frames) <==> exists i :: 0 <= i < |frames| && id in frames[i]
    decreases |frames|
  {
    if frames != [] {
      var prefix := frames[..|frames| - 1];
      SeenIsUnion(prefix, id);
      if id in Seen(prefix) {
        var i :| 0 <= i < |prefix| && id in prefix[i];
        assert frames[i] == prefix[i];
      }
      if exists i :: 0 <= i < |frames| && id in frames[i] {
        var i :| 0 <= i < |frames| && id in frames[i];
        if i < |prefix| {
          assert prefix[i] == frames[i];
        }
      }
    }
  }

  /** The seen set only grows: what was seen after k frames is still seen after any later frame. */
  lemma {:induction false} SeenGrows(frames: seq<seq<TrackId>>, k: nat)
    requires k <= |frames|
    ensures Seen(frames[..k]) <= Seen(frames)
    decreases |frames|
  {
    if k < |frames| {
      var prefix := frames[..|frames| - 1];
      assert frames[..k] == prefix[..k];
      SeenGrows(prefix, k);
    } else {
      assert frames[..k] == frames;
    }
  }

  /** Adding a frame to the seen set adds exactly the identities it had not seen. */
  lemma SeenGainsNew(seen: set<TrackId>, ids: set<TrackId>)
    ensures |seen + ids| == |seen| + |ids - seen|
  {
  }

  /**
   * The body of the frame loop: `new_ids` replaces `current_ids` (the
   * `clear()` of an empty frame is overwritten at once), and every new
   * identity joins `total_ids` and bumps `total_count` by one.
   */
  method ObserveFrame(currentIds: set<TrackId>, totalIds: set<TrackId>, totalCount: int, trackingIds: seq<TrackId>)
    returns (currentIds': set<TrackId>, totalIds': set<TrackId>, totalCount': int)
    ensures currentIds' == Elems(trackingIds)
    ensures totalIds' == totalIds + Elems(trackingIds)
    ensures totalCount' == totalCount + |Elems(trackingIds) - totalIds|
  {
    var newIds := Elems(trackingIds);
    currentIds' := currentIds;
    if newIds == {} {
      currentIds' := {};
    }
    totalIds', totalCount' := totalIds, totalCount;
    var pending := newIds;
    while pending != {}
      invariant pending <= newIds
      invariant totalIds <= totalIds' <= totalIds + newIds
      invariant forall x :: x in newIds && x !in pending ==> x in totalIds'
      invariant totalCount' == totalCount + |totalIds' - totalIds|
      decreases pending
    {
      NonEmptyHasMember(pending);
      var id :| id in pending;
      if id !in totalIds' {
        assert (totalIds' + {id}) - totalIds == (totalIds' - totalIds) + {id};
        totalIds' := totalIds' + {id};
        totalCount' := totalCount' + 1;
      }
      pending := pending - {id};
    }
    forall x | x in totalIds + newIds
      ensures x in totalIds'
    {
      assert x !in pending;
    }
    assert totalIds' - totalIds == newIds - totalIds;
    currentIds' := newIds;
  }

  /**
   * `main` over the frames the capture yields until it fails: afterwards
   * `total_ids` is every identity ever tracked, `total_count` is its size,
   * and `current_ids` is the last frame's identities, all of them counted.
   */
  method CountVisitors(frames: seq<seq<TrackId>>) returns (currentIds: set<TrackId>, totalIds: set<TrackId>, totalCount: int)
    ensures totalIds == Seen(frames)
    ensures totalCount == |totalIds|
    ensures currentIds == if frames == [] then {} else Elems(frames[|frames| - 1])
    ensures currentIds <= totalIds
  {
    currentIds, totalIds, totalCount := {}, {}, 0;
    var i := 0;
    while i < |frames|
      invariant 0 <= i <= |frames|
      invariant totalIds == Seen(frames[..i])
      invariant totalCount == |totalIds|
      invariant currentIds == if i == 0 then {} else Elems(frames[i - 1])
      invariant currentIds <= totalIds
    {
      ghost var before := totalIds;
      currentIds, totalIds, totalCount := ObserveFrame(currentIds, totalIds, totalCount, frames[i]);
      SeenGainsNew(before, Elems(frames[i]));
      assert frames[..i + 1][..i] == frames[..i];
      i := i + 1;
    }
    assert frames[..i] == frames;
  }
}
