/**
 * event_queue_insert and event_queue_remove: moving one event on to or off
 * one of the base's lists, keeping the lists and the counters in step.
 */
module EventQueue {
  import opened Basics
  import opened EventBase

  /** `r` differs from `b` at most in its lists and counters. */
  predicate SameRest(b: Base, r: Base) {
    r.evs == b.evs && |r.active| == |b.active| && r.deferred == b.deferred
    && r.brk == b.brk && r.gotterm == b.gotterm && r.eventTv == b.eventTv && r.nextId == b.nextId
  }

  /** event_queue_insert(EVLIST_INSERTED) for an event not yet on the list. */
  function AddInserted(b: Base, id: Id): (r: Base)
    requires Valid(b) && id in b.evs && id !in b.inserted
    ensures Valid(r) && SameRest(b, r)
    ensures r.inserted == b.inserted + [id] && r.timers == b.timers && r.active == b.active
    ensures r.eventCount == b.eventCount + One(b.evs, id) && r.countActive == b.countActive
  {
    ExtAppend(b.evs, b.inserted, id);
    b.(inserted := b.inserted + [id], eventCount := b.eventCount + One(b.evs, id))
  }

  /** event_queue_insert(EVLIST_TIMEOUT) for an event not on the heap: min_heap_push. */
  function AddTimer(b: Base, id: Id): (r: Base)
    requires Valid(b) && id in b.evs && id !in b.timers
    ensures Valid(r) && SameRest(b, r)
    ensures r.timers == b.timers + [id] && r.inserted == b.inserted && r.active == b.active
    ensures r.eventCount == b.eventCount + One(b.evs, id) && r.countActive == b.countActive
  {
    ExtAppend(b.evs, b.timers, id);
    b.(timers := b.timers + [id], eventCount := b.eventCount + One(b.evs, id))
  }

  /** event_queue_insert(EVLIST_ACTIVE) for an event not active: the tail of its priority's queue. */
  function AddActive(b: Base, id: Id): (r: Base)
    requires Valid(b) && id in b.evs && !IsActive(b, id)
    ensures Valid(r) && SameRest(b, r)
    ensures r.active == b.active[b.evs[id].pri := b.active[b.evs[id].pri] + [id]]
    ensures r.inserted == b.inserted && r.timers == b.timers
    ensures r.eventCount == b.eventCount + One(b.evs, id) && r.countActive == b.countActive + 1
  {
    var p := b.evs[id].pri;
    var qs := b.active[p := b.active[p] + [id]];
    ExtAppend(b.evs, b.active[p], id);
    SumUpdate(b.evs, b.active, p, b.active[p] + [id]);
    var r := b.(active := qs, eventCount := b.eventCount + One(b.evs, id),
                countActive := b.countActive + 1);
    assert ListsOk(r) by {
      forall k, x | 0 <= k < |qs| && x in qs[k] ensures x in b.evs && b.evs[x].pri == k {
        if k != p || x != id { assert x in b.active[k]; }
      }
    }
    r
  }

  /** event_queue_remove(EVLIST_INSERTED) for an event on the list. */
  function DropInserted(b: Base, id: Id): (r: Base)
    requires Valid(b) && id in b.evs && id in b.inserted
    ensures Valid(r) && SameRest(b, r)
    ensures r.inserted == Without(b.inserted, id) && r.timers == b.timers && r.active == b.active
    ensures r.eventCount == b.eventCount - One(b.evs, id) && r.countActive == b.countActive
  {
    WithoutDistinct(b.inserted, id);
    ExtWithout(b.evs, b.inserted, id);
    b.(inserted := Without(b.inserted, id), eventCount := b.eventCount - One(b.evs, id))
  }

  /** event_queue_remove(EVLIST_TIMEOUT): min_heap_erase. */
  function DropTimer(b: Base, id: Id): (r: Base)
    requires Valid(b) && id in b.evs && id in b.timers
    ensures Valid(r) && SameRest(b, r)
    ensures r.timers == Without(b.timers, id) && r.inserted == b.inserted && r.active == b.active
    ensures r.eventCount == b.eventCount - One(b.evs, id) && r.countActive == b.countActive
  {
    WithoutDistinct(b.timers, id);
    ExtWithout(b.evs, b.timers, id);
    b.(timers := Without(b.timers, id), eventCount := b.eventCount - One(b.evs, id))
  }

  /** event_queue_remove(EVLIST_ACTIVE): out of its priority's queue. */
  function DropActive(b: Base, id: Id): (r: Base)
    requires Valid(b) && id in b.evs && IsActive(b, id)
    ensures Valid(r) && SameRest(b, r)
    ensures r.active == b.active[b.evs[id].pri := Without(b.active[b.evs[id].pri], id)]
    ensures r.inserted == b.inserted && r.timers == b.timers
    ensures r.eventCount == b.eventCount - One(b.evs, id) && r.countActive == b.countActive - 1
  {
    var p := b.evs[id].pri;
    var q := Without(b.active[p], id);
    var qs := b.active[p := q];
    WithoutDistinct(b.active[p], id);
    ExtWithout(b.evs, b.active[p], id);
    SumUpdate(b.evs, b.active, p, q);
    var r := b.(active := qs, eventCount := b.eventCount - One(b.evs, id),
                countActive := b.countActive - 1);
    assert ListsOk(r) by {
      forall k, x | 0 <= k < |qs| && x in qs[k] ensures x in b.evs && b.evs[x].pri == k {
        assert x in b.active[k];
      }
    }
    r
  }

  /**
   * event_queue_insert.  Inserting an active event into ACTIVE again does
   * nothing; inserting into INSERTED or TIMEOUT twice is a fatal error
   * (None).  Otherwise the event joins the tail of the list, event_count
   * grows by one unless the event is internal, and an active insert grows
   * event_count_active by one.
   */
  function QueueInsert(b: Base, id: Id, q: Queue): (r: Option<Base>)
    requires Valid(b) && id in b.evs
    ensures r.None? <==> On(b, id, q) && q != QActive
    ensures On(b, id, q) && q == QActive ==> r == Some(b)
    ensures !On(b, id, q) ==>
              r.Some? && Valid(r.value) && SameRest(b, r.value)
              && r.value.eventCount == b.eventCount + One(b.evs, id)
              && r.value.inserted == (if q == QInserted then b.inserted + [id] else b.inserted)
              && r.value.timers == (if q == QTimeout then b.timers + [id] else b.timers)
              && r.value.active == (if q == QActive then b.active[b.evs[id].pri := b.active[b.evs[id].pri] + [id]]
                                    else b.active)
              && r.value.countActive == b.countActive + (if q == QActive then 1 else 0)
  {
    if On(b, id, q) then
      if q == QActive then Some(b) else None
    else
      match q
      case QInserted => Some(AddInserted(b, id))
      case QActive => Some(AddActive(b, id))
      case QTimeout => Some(AddTimer(b, id))
  }

  /**
   * event_queue_remove.  Removing an event from a list it is not on is a
   * fatal error (None).  Otherwise the event leaves the list (the others
   * keep their order), event_count drops by one unless the event is
   * internal, and an active removal drops event_count_active by one.
   */
  function QueueRemove(b: Base, id: Id, q: Queue): (r: Option<Base>)
    requires Valid(b) && id in b.evs
    ensures r.None? <==> !On(b, id, q)
    ensures r.Some? ==>
              Valid(r.value) && SameRest(b, r.value)
              && r.value.eventCount == b.eventCount - One(b.evs, id)
              && r.value.inserted == (if q == QInserted then Without(b.inserted, id) else b.inserted)
              && r.value.timers == (if q == QTimeout then Without(b.timers, id) else b.timers)
              && r.value.active == (if q == QActive then b.active[b.evs[id].pri := Without(b.active[b.evs[id].pri], id)]
                                    else b.active)
              && r.value.countActive == b.countActive - (if q == QActive then 1 else 0)
  {
    if !On(b, id, q) then None
    else
      match q
      case QInserted => Some(DropInserted(b, id))
      case QActive => Some(DropActive(b, id))
      case QTimeout => Some(DropTimer(b, id))
  }

  /** After an insertion the event is on the list; after a removal it is not. */
  lemma InsertRemoveFlags(b: Base, id: Id, q: Queue)
    requires Valid(b) && id in b.evs
    ensures QueueInsert(b, id, q).Some? ==> On(QueueInsert(b, id, q).value, id, q)
    ensures QueueRemove(b, id, q).Some? ==> !On(QueueRemove(b, id, q).value, id, q)
  {
    var p := b.evs[id].pri;
    if QueueRemove(b, id, q).Some? {
      WithoutDistinct(b.inserted, id);
      WithoutDistinct(b.timers, id);
      WithoutDistinct(b.active[p], id);
    }
  }

  /** Inserting into a list and removing again restores the base. */
  lemma InsertThenRemove(b: Base, id: Id, q: Queue)
    requires Valid(b) && id in b.evs && !On(b, id, q)
    ensures QueueInsert(b, id, q).Some?
    ensures QueueRemove(QueueInsert(b, id, q).value, id, q) == Some(b)
  {
    var b1 := QueueInsert(b, id, q).value;
    var b2 := QueueRemove(b1, id, q).value;
    RoundTripLists(b, id, q, b1, b2);
    assert b2 == b;
  }

  lemma RoundTripLists(b: Base, id: Id, q: Queue, b1: Base, b2: Base)
    requires id in b.evs && 0 <= b.evs[id].pri < |b.active| && |b1.active| == |b.active|
    requires q == QInserted ==> id !in b.inserted
    requires q == QTimeout ==> id !in b.timers
    requires q == QActive ==> id !in b.active[b.evs[id].pri]
    requires b1.inserted == (if q == QInserted then b.inserted + [id] else b.inserted)
    requires b1.timers == (if q == QTimeout then b.timers + [id] else b.timers)
    requires b1.active == (if q == QActive then b.active[b.evs[id].pri := b.active[b.evs[id].pri] + [id]]
                           else b.active)
    requires b2.inserted == (if q == QInserted then Without(b1.inserted, id) else b1.inserted)
    requires b2.timers == (if q == QTimeout then Without(b1.timers, id) else b1.timers)
    requires b2.active == (if q == QActive then b1.active[b.evs[id].pri := Without(b1.active[b.evs[id].pri], id)]
                           else b1.active)
    ensures b2.inserted == b.inserted && b2.timers == b.timers && b2.active == b.active
  {
    var p := b.evs[id].pri;
    if q == QInserted {
      WithoutAppend(b.inserted, id);
    } else if q == QTimeout {
      WithoutAppend(b.timers, id);
    } else {
      WithoutAppend(b.active[p], id);
    }
  }

  lemma {:induction false} WithoutAppend<T>(s: seq<T>, x: T)
    requires x !in s
    ensures Without(s + [x], x) == s
  {
    if s != [] {
      assert (s + [x])[1..] == s[1..] + [x];
      WithoutAppend(s[1..], x);
    }
  }
}
