/**
 * The creation and update timestamps every stored entity carries, set by
 * the persistence lifecycle callbacks. A clock reading is a `nat`.
 */
module Timestamps {

  /** `createdAt` and `updatedAt` of a persisted entity. */
  datatype Stamps = Stamps(createdAt: nat, updatedAt: nat)

  /** The callback run when the entity is first persisted: both stamps take the current time. */
  function PrePersist(now: nat): (s: Stamps)
    ensures s.createdAt == s.updatedAt == now
  {
    Stamps(now, now)
  }

  /** The callback run before an update is flushed: only `updatedAt` moves. */
  function PreUpdate(s: Stamps, now: nat): (r: Stamps)
    ensures r.createdAt == s.createdAt
    ensures r.updatedAt == now
  {
    s.(updatedAt := now)
  }

  /**
   * What an update writes to the row: the `created_at` column is not
   * updatable, so whatever the entity holds there, the stored value stays.
   */
  function WriteUpdate(stored: Stamps, entity: Stamps): (r: Stamps)
    ensures r.createdAt == stored.createdAt
    ensures r.updatedAt == entity.updatedAt
  {
    Stamps(stored.createdAt, entity.updatedAt)
  }

  /** The stamps after one flushed update per clock reading in `times`, oldest first. */
  function ApplyUpdates(s: Stamps, times: seq<nat>): Stamps
    decreases |times|
  {
    if |times| == 0 then s
    else ApplyUpdates(WriteUpdate(s, PreUpdate(s, times[0])), times[1..])
  }

  /** A clock that never goes backwards. */
  predicate NonDecreasing(times: seq<nat>) {
    forall i, j :: 0 <= i <= j < |times| ==> times[i] <= times[j]
  }

  /** No number of updates changes `createdAt`; `updatedAt` is the last reading, if any. */
  lemma {:induction false} UpdatesKeepCreatedAt(s: Stamps, times: seq<nat>)
    ensures ApplyUpdates(s, times).createdAt == s.createdAt
    ensures ApplyUpdates(s, times).updatedAt == if |times| == 0 then s.updatedAt else times[|times| - 1]
    decreases |times|
  {
    if |times| > 0 {
      UpdatesKeepCreatedAt(WriteUpdate(s, PreUpdate(s, times[0])), times[1..]);
    }
  }

  /**
   * With a clock that never goes backwards, persisting at `now` and then
   * updating at each of `times` leaves `createdAt == now <= updatedAt`.
   */
  lemma StampsOrdered(now: nat, times: seq<nat>)
    requires NonDecreasing([now] + times)
    ensures ApplyUpdates(PrePersist(now), times).createdAt == now
    ensures now <= ApplyUpdates(PrePersist(now), times).updatedAt
  {
    UpdatesKeepCreatedAt(PrePersist(now), times);
    if |times| > 0 {
      assert ([now] + times)[0] == now && ([now] + times)[|times|] == times[|times| - 1];
    }
  }
}
