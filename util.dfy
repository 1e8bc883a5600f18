// Definitions shared by both tracking scripts.
module Util {
  /** The Python `None` of an unset exit time and of an empty pop. */
  datatype Option<T> = None | Some(value: T)

  /** A tracker identity; only equality between identities is used. */
  type TrackId = int

  /** `set(tracking_ids)`. */
  function Elems(ids: seq<TrackId>): set<TrackId>
  {
    set id | id in ids
  }

  /** A non-empty set of identities has a member, so `var x :| x in s` can pick one. */
  lemma NonEmptyHasMember(s: set<TrackId>)
    requires s != {}
    ensures exists x :: x in s
  {
    assert (forall x :: x !in s) ==> s == {};
  }
}
