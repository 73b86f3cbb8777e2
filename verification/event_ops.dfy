/**
 * The event operations built on the queues: event_active_internal,
 * event_del_internal, event_add_internal and the deferred-callback
 * schedule and cancel.
 */
module EventOps {
  import opened Basics
  import opened EventBase
  import opened EventQueue

  /** The clock reading and the allocator and backend answers an addition depends on. */
  datatype Env = Env(now: int, heapOk: bool, mapOk: bool)

  /** `r` keeps `b`'s deferred queue, loop flags, clock, id supply and number of priorities. */
  predicate SameLoop(b: Base, r: Base) {
    |r.active| == |b.active| && r.deferred == b.deferred && r.brk == b.brk && r.gotterm == b.gotterm
    && r.eventTv == b.eventTv && r.nextId == b.nextId
  }

  /** Replace an event's record by one with the same priority and EVLIST_INTERNAL bit. */
  function SetEvent(b: Base, id: Id, e: Event): (r: Base)
    requires Valid(b) && id in b.evs && e.internal == b.evs[id].internal && e.pri == b.evs[id].pri
    ensures Valid(r) && r == b.(evs := b.evs[id := e])
  {
    var r := b.(evs := b.evs[id := e]);
    assert SameInternal(b.evs, r.evs);
    ExtFrame(b.evs, r.evs, b.inserted);
    ExtFrame(b.evs, r.evs, b.timers);
    SumExtFrame(b.evs, r.evs, b.active);
    r
  }

  /** The record of an event event_active_internal queues: result replaced, a signal's repeats set. */
  function Activated(e: Event, res: set<Kind>, ncalls: nat): (r: Event)
    ensures r.res == res && r.pri == e.pri && r.internal == e.internal && r.deadline == e.deadline
    ensures Signal in e.events ==> r.ncalls == ncalls && !r.pncalls
    ensures Signal !in e.events ==> r == e.(res := res)
    ensures r.(res := e.res, ncalls := e.ncalls, pncalls := e.pncalls) == e
  {
    if Signal in e.events then e.(res := res, ncalls := ncalls, pncalls := false) else e.(res := res)
  }

  /**
   * event_active_internal.  An event already active only gains the new
   * result bits and keeps its place; otherwise it gets the result (and a
   * signal event its repeat count) and joins the tail of its priority's
   * queue.
   */
  function ActiveInternal(b: Base, id: Id, res: set<Kind>, ncalls: nat): (r: Base)
    requires Valid(b) && id in b.evs
    ensures Valid(r) && r.evs.Keys == b.evs.Keys && IsActive(r, id) && SameLoop(b, r)
    ensures IsActive(b, id) ==> r == b.(evs := b.evs[id := b.evs[id].(res := b.evs[id].res + res)])
    ensures !IsActive(b, id) ==>
              r.evs == b.evs[id := Activated(b.evs[id], res, ncalls)]
              && r.active == b.active[b.evs[id].pri := b.active[b.evs[id].pri] + [id]]
              && r.inserted == b.inserted && r.timers == b.timers
              && r.countActive == b.countActive + 1 && r.eventCount == b.eventCount + One(b.evs, id)
  {
    var e := b.evs[id];
    if IsActive(b, id) then
      SetEvent(b, id, e.(res := e.res + res))
    else
      ActivationValid(b, id, res, ncalls);
      Activation(b, id, res, ncalls)
  }

  /** The base with an inactive event activated: recorded anew and appended to its priority's queue. */
  function Activation(b: Base, id: Id, res: set<Kind>, ncalls: nat): Base
    requires id in b.evs && 0 <= b.evs[id].pri < |b.active|
  {
    var p := b.evs[id].pri;
    b.(evs := b.evs[id := Activated(b.evs[id], res, ncalls)], active := b.active[p := b.active[p] + [id]],
       eventCount := b.eventCount + One(b.evs, id), countActive := b.countActive + 1)
  }

  lemma ActivationValid(b: Base, id: Id, res: set<Kind>, ncalls: nat)
    requires Valid(b) && id in b.evs && !IsActive(b, id)
    ensures Valid(Activation(b, id, res, ncalls)) && IsActive(Activation(b, id, res, ncalls), id)
  {
    var p := b.evs[id].pri;
    var r := Activation(b, id, res, ncalls);
    var q := b.active[p] + [id];
    AppendDistinct(b.active[p], id);
    assert SameInternal(b.evs, r.evs);
    ExtFrame(b.evs, r.evs, r.inserted);
    ExtFrame(b.evs, r.evs, r.timers);
    SumExtFrame(b.evs, r.evs, r.active);
    ExtAppend(b.evs, b.active[p], id);
    SumUpdate(b.evs, b.active, p, q);
    assert ListsOk(r) by {
      forall k, x | 0 <= k < |r.active| && x in r.active[k] ensures x in r.evs && r.evs[x].pri == k {
        if k != p || x != id { assert x in b.active[k]; }
      }
    }
    assert PriOk(r);
    assert r.eventCount == Ext(r.evs, r.inserted) + Ext(r.evs, r.timers) + SumExt(r.evs, r.active);
    assert r.countActive == SumLen(r.active) + |r.deferred|;
    assert forall x :: x in r.evs ==> x < r.nextId;
  }

  /**
   * What event_del and event_add do to a signal event whose callback loop
   * is running: the repeat counter ev_pncalls points at is zeroed (the
   * model keeps that counter in `ncalls`).
   */
  function AbortRepeats(e: Event): (r: Event)
    ensures r.pri == e.pri && r.internal == e.internal && r.res == e.res && r.deadline == e.deadline
    ensures Signal in e.events && e.pncalls ==> r.ncalls == 0
    ensures !(Signal in e.events && e.pncalls) ==> r == e
    ensures r.(ncalls := e.ncalls) == e
  {
    if Signal in e.events && e.ncalls > 0 && e.pncalls then e.(ncalls := 0) else e
  }

  /** What event_count loses when the event leaves every list it is on: one per list, for a non-internal event. */
  function Lost(b: Base, id: Id): nat
    requires id in b.evs
  {
    (if id in b.inserted then One(b.evs, id) else 0) + (if id in b.timers then One(b.evs, id) else 0)
    + (if IsActive(b, id) then One(b.evs, id) else 0)
  }

  /** The base with event `id` recorded as `e` and taken off all three lists at once. */
  function Detached(b: Base, id: Id, e: Event): Base
    requires id in b.evs && 0 <= b.evs[id].pri < |b.active|
  {
    var p := b.evs[id].pri;
    b.(evs := b.evs[id := e], inserted := Without(b.inserted, id), timers := Without(b.timers, id),
       active := b.active[p := Without(b.active[p], id)],
       eventCount := b.eventCount - Lost(b, id),
       countActive := b.countActive - (if IsActive(b, id) then 1 else 0))
  }

  /** Dropping `id` from a list of registered events counts one membership less. */
  lemma ExtDrop(evs: map<Id, Event>, s: seq<Id>, id: Id)
    ensures Ext(evs, Without(s, id)) == Ext(evs, s) - (if id in s then One(evs, id) else 0)
  {
    if id in s { ExtWithout(evs, s, id); }
  }

  lemma DetachedValid(b: Base, id: Id, e: Event)
    requires Valid(b) && id in b.evs && e.internal == b.evs[id].internal && e.pri == b.evs[id].pri
    ensures Valid(Detached(b, id, e))
    ensures id !in Detached(b, id, e).inserted && id !in Detached(b, id, e).timers
    ensures !IsActive(Detached(b, id, e), id)
  {
    var p := b.evs[id].pri;
    var r := Detached(b, id, e);
    var q := Without(b.active[p], id);
    WithoutDistinct(b.inserted, id);
    WithoutDistinct(b.timers, id);
    WithoutDistinct(b.active[p], id);
    assert SameInternal(b.evs, r.evs);
    ExtFrame(b.evs, r.evs, r.inserted);
    ExtFrame(b.evs, r.evs, r.timers);
    SumExtFrame(b.evs, r.evs, r.active);
    ExtDrop(b.evs, b.inserted, id);
    ExtDrop(b.evs, b.timers, id);
    ExtDrop(b.evs, b.active[p], id);
    SumUpdate(b.evs, b.active, p, q);
    assert id in b.active[p] <==> IsActive(b, id);
    assert ListsOk(r) by {
      forall k, x | 0 <= k < |r.active| && x in r.active[k] ensures x in r.evs && r.evs[x].pri == k {
        assert x in b.active[k];
      }
    }
    assert PriOk(r);
    assert r.eventCount == Ext(r.evs, r.inserted) + Ext(r.evs, r.timers) + SumExt(r.evs, r.active);
    assert r.countActive == SumLen(r.active) + |r.deferred|;
    assert forall x :: x in r.evs ==> x < r.nextId;
  }

  /**
   * event_del_internal.  An event with no base (one not in the base's map)
   * gives -1 and nothing changes.  Otherwise a running signal loop is
   * stopped and the event leaves the timer heap, its active queue and the
   * inserted list, whichever it was on; event_count drops once per list
   * left (for a non-internal event).  The result is the backend's answer
   * to the removal of an inserted event, 0 otherwise.
   */
  function DelInternal(b: Base, id: Id, mapOk: bool): (r: (Base, int))
    requires Valid(b)
    ensures id !in b.evs ==> r == (b, -1)
    ensures id in b.evs ==>
              Valid(r.0) && SameLoop(b, r.0)
              && r.1 == (if id in b.inserted && !mapOk then -1 else 0)
              && r.0.evs == b.evs[id := AbortRepeats(b.evs[id])]
              && !On(r.0, id, QInserted) && !On(r.0, id, QActive) && !On(r.0, id, QTimeout)
              && r.0.inserted == Without(b.inserted, id) && r.0.timers == Without(b.timers, id)
              && r.0.active == b.active[b.evs[id].pri := Without(b.active[b.evs[id].pri], id)]
              && r.0.countActive == b.countActive - (if IsActive(b, id) then 1 else 0)
              && r.0.eventCount == b.eventCount - Lost(b, id)
  {
    if id !in b.evs then (b, -1)
    else
      DetachedValid(b, id, AbortRepeats(b.evs[id]));
      (Detached(b, id, AbortRepeats(b.evs[id])), if id in b.inserted && !mapOk then -1 else 0)
  }

  /** An event event_add_internal registers with the backend: read, write or signal interest, neither inserted nor active. */
  predicate NeedsWatch(b: Base, id: Id)
    requires id in b.evs
  {
    b.evs[id].events * Watched != {} && id !in b.inserted && !IsActive(b, id)
  }

  /** Does re-arming cancel the event's pending activation: it is active because of a timeout. */
  predicate CancelsFiring(b: Base, id: Id)
    requires id in b.evs
  {
    IsActive(b, id) && Timeout in b.evs[id].res
  }

  /** The record after re-arming: the persist closure remembers tv, a running signal loop stops, the deadline moves. */
  function Rearmed(e: Event, cancel: bool, tv: nat, now: int): (r: Event)
    ensures r.pri == e.pri && r.internal == e.internal && r.res == e.res && r.events == e.events
    ensures r.closure == e.closure && r.fd == e.fd
    ensures r.deadline == now + tv
    ensures r.ioTimeout == (if e.closure == PersistRearm then tv else e.ioTimeout)
    ensures cancel && Signal in e.events && e.pncalls ==> r.ncalls == 0
    ensures !(cancel && Signal in e.events && e.pncalls) ==> r.ncalls == e.ncalls
    ensures r.pncalls == e.pncalls
  {
    var e1 := if e.closure == PersistRearm then e.(ioTimeout := tv) else e;
    var e2 := if cancel then AbortRepeats(e1) else e1;
    e2.(deadline := now + tv)
  }

  /** The base after re-arming `id`: recorded anew, at the end of the timers, out of the active queue if `cancel`. */
  function Armed(b: Base, id: Id, tv: nat, now: int): Base
    requires id in b.evs && 0 <= b.evs[id].pri < |b.active|
  {
    var p := b.evs[id].pri;
    var cancel := CancelsFiring(b, id);
    b.(evs := b.evs[id := Rearmed(b.evs[id], cancel, tv, now)],
       timers := Without(b.timers, id) + [id],
       active := if cancel then b.active[p := Without(b.active[p], id)] else b.active,
       eventCount := b.eventCount + One(b.evs, id) - (if id in b.timers then One(b.evs, id) else 0)
                     - (if cancel then One(b.evs, id) else 0),
       countActive := b.countActive - (if cancel then 1 else 0))
  }

  lemma ArmedValid(b: Base, id: Id, tv: nat, now: int)
    requires Valid(b) && id in b.evs
    ensures Valid(Armed(b, id, tv, now))
    ensures CancelsFiring(b, id) ==> !IsActive(Armed(b, id, tv, now), id)
  {
    var p := b.evs[id].pri;
    var r := Armed(b, id, tv, now);
    var q := Without(b.active[p], id);
    WithoutDistinct(b.timers, id);
    WithoutDistinct(b.active[p], id);
    AppendDistinct(Without(b.timers, id), id);
    assert SameInternal(b.evs, r.evs);
    ExtFrame(b.evs, r.evs, r.inserted);
    ExtFrame(b.evs, r.evs, r.timers);
    SumExtFrame(b.evs, r.evs, r.active);
    ExtDrop(b.evs, b.timers, id);
    ExtAppend(b.evs, Without(b.timers, id), id);
    ExtDrop(b.evs, b.active[p], id);
    SumUpdate(b.evs, b.active, p, q);
    assert ListsOk(r) by {
      forall k, x | 0 <= k < |r.active| && x in r.active[k] ensures x in r.evs && r.evs[x].pri == k {
        assert x in b.active[k];
      }
    }
    assert PriOk(r);
    assert r.eventCount == Ext(r.evs, r.inserted) + Ext(r.evs, r.timers) + SumExt(r.evs, r.active);
    assert r.countActive == SumLen(r.active) + |r.deferred|;
    assert forall x :: x in r.evs ==> x < r.nextId;
  }

  /**
   * The timeout half of event_add_internal: the event leaves the heap if
   * it was on it, leaves its active queue if a timeout made it active, and
   * goes (back) on the heap at now + tv.
   */
  function Arm(b: Base, id: Id, tv: nat, now: int): (r: Base)
    requires Valid(b) && id in b.evs
    ensures Valid(r) && SameLoop(b, r)
    ensures r.evs == b.evs[id := Rearmed(b.evs[id], CancelsFiring(b, id), tv, now)]
    ensures r.timers == Without(b.timers, id) + [id] && r.inserted == b.inserted
    ensures r.eventCount == b.eventCount + One(b.evs, id) - (if id in b.timers then One(b.evs, id) else 0)
                            - (if CancelsFiring(b, id) then One(b.evs, id) else 0)
    ensures CancelsFiring(b, id) ==>
              r.active == b.active[b.evs[id].pri := Without(b.active[b.evs[id].pri], id)]
              && r.countActive == b.countActive - 1 && !IsActive(r, id)
    ensures !CancelsFiring(b, id) ==> r.active == b.active && r.countActive == b.countActive
  {
    ArmedValid(b, id, tv, now);
    Armed(b, id, tv, now)
  }

  /**
   * What a successful event_add_internal does: an event that NeedsWatch
   * joins the inserted list; with a timeout the event is re-armed (see
   * Arm); event_count grows once per list joined and drops once per list
   * left, for a non-internal event.
   */
  predicate Added(b: Base, id: Id, tv: Option<nat>, now: int, r: Base)
    requires id in b.evs && id in r.evs
  {
    r.inserted == (if NeedsWatch(b, id) then b.inserted + [id] else b.inserted)
    && r.eventCount == b.eventCount + (if NeedsWatch(b, id) then One(b.evs, id) else 0)
                       + (if tv.None? then 0
                          else One(b.evs, id) - (if id in b.timers then One(b.evs, id) else 0)
                               - (if CancelsFiring(b, id) then One(b.evs, id) else 0))
    && (tv.None? ==> r.evs == b.evs && r.timers == b.timers && r.active == b.active
                     && r.countActive == b.countActive)
    && (tv.Some? ==> r.evs == b.evs[id := Rearmed(b.evs[id], CancelsFiring(b, id), tv.value, now)]
                     && r.timers == Without(b.timers, id) + [id]
                     && r.active == (if CancelsFiring(b, id)
                                     then b.active[b.evs[id].pri := Without(b.active[b.evs[id].pri], id)]
                                     else b.active)
                     && (IsActive(r, id) <==> IsActive(b, id) && !CancelsFiring(b, id))
                     && r.countActive == b.countActive - (if CancelsFiring(b, id) then 1 else 0))
  }

  /** The backend half of event_add_internal: an event that NeedsWatch joins the inserted list. */
  function Register(b: Base, id: Id): (r: Base)
    requires Valid(b) && id in b.evs
    ensures Valid(r) && SameRest(b, r)
    ensures r.inserted == (if NeedsWatch(b, id) then b.inserted + [id] else b.inserted)
    ensures r.timers == b.timers && r.active == b.active && r.countActive == b.countActive
    ensures r.eventCount == b.eventCount + (if NeedsWatch(b, id) then One(b.evs, id) else 0)
  {
    if NeedsWatch(b, id) then AddInserted(b, id) else b
  }

  /** The successful path of event_add_internal. */
  function AddOk(b: Base, id: Id, tv: Option<nat>, now: int): (r: Base)
    requires Valid(b) && id in b.evs
    ensures Valid(r) && SameLoop(b, r) && id in r.evs && Added(b, id, tv, now, r)
  {
    match tv
    case None => Register(b, id)
    case Some(t) => RegisterAndArm(b, id, t, now)
  }

  function RegisterAndArm(b: Base, id: Id, t: nat, now: int): (r: Base)
    requires Valid(b) && id in b.evs
    ensures Valid(r) && SameLoop(b, r) && id in r.evs && Added(b, id, Some(t), now, r)
  {
    var b1 := Register(b, id);
    var r := Arm(b1, id, t, now);
    RegisteredThenArmed(b, b1, r, id, t, now);
    r
  }

  lemma RegisteredThenArmed(b: Base, b1: Base, r: Base, id: Id, t: nat, now: int)
    requires id in b.evs && 0 <= b.evs[id].pri < |b.active|
    requires b1.evs == b.evs && b1.timers == b.timers && b1.active == b.active && b1.countActive == b.countActive
    requires b1.inserted == (if NeedsWatch(b, id) then b.inserted + [id] else b.inserted)
    requires b1.eventCount == b.eventCount + (if NeedsWatch(b, id) then One(b.evs, id) else 0)
    requires r.evs == b1.evs[id := Rearmed(b1.evs[id], CancelsFiring(b1, id), t, now)]
    requires r.timers == Without(b1.timers, id) + [id] && r.inserted == b1.inserted
    requires r.eventCount == b1.eventCount + One(b1.evs, id) - (if id in b1.timers then One(b1.evs, id) else 0)
                             - (if CancelsFiring(b1, id) then One(b1.evs, id) else 0)
    requires CancelsFiring(b1, id) ==>
               r.active == b1.active[b1.evs[id].pri := Without(b1.active[b1.evs[id].pri], id)]
               && r.countActive == b1.countActive - 1 && !IsActive(r, id)
    requires !CancelsFiring(b1, id) ==> r.active == b1.active && r.countActive == b1.countActive
    ensures id in r.evs && Added(b, id, Some(t), now, r)
  {
    assert IsActive(b1, id) == IsActive(b, id) && CancelsFiring(b1, id) == CancelsFiring(b, id);
  }

  /**
   * event_add_internal.  A timeout that needs a new heap slot fails with -1
   * before anything changes when the reservation fails.  An event that
   * NeedsWatch is registered with the backend; if the backend refuses, -1
   * and nothing changes.  Otherwise the addition succeeds (Added).
   */
  function AddInternal(b: Base, id: Id, tv: Option<nat>, env: Env): (r: (Base, int))
    requires Valid(b) && id in b.evs
    ensures r.1 == -1 <==> (tv.Some? && id !in b.timers && !env.heapOk) || (NeedsWatch(b, id) && !env.mapOk)
    ensures r.1 == -1 ==> r.0 == b
    ensures r.1 == 0 || r.1 == -1
    ensures r.1 == 0 ==> Valid(r.0) && SameLoop(b, r.0) && id in r.0.evs && Added(b, id, tv, env.now, r.0)
  {
    if tv.Some? && id !in b.timers && !env.heapOk then (b, -1)
    else if NeedsWatch(b, id) && !env.mapOk then (b, -1)
    else (AddOk(b, id, tv, env.now), 0)
  }

  /**
   * event_deferred_cb_schedule: a callback not yet queued joins the tail of
   * the deferred queue and counts as active work; one already queued stays
   * where it is.
   */
  function DeferredSchedule(b: Base, d: nat): (r: Base)
    requires Valid(b)
    ensures Valid(r) && d in r.deferred
    ensures d in b.deferred ==> r == b
    ensures d !in b.deferred ==> r == b.(deferred := b.deferred + [d], countActive := b.countActive + 1)
  {
    if d in b.deferred then b
    else b.(deferred := b.deferred + [d], countActive := b.countActive + 1)
  }

  /**
   * event_deferred_cb_cancel: a queued callback leaves the queue and stops
   * counting as active work; cancelling one not queued does nothing.
   */
  function DeferredCancel(b: Base, d: nat): (r: Base)
    requires Valid(b)
    ensures Valid(r) && d !in r.deferred
    ensures d !in b.deferred ==> r == b
    ensures d in b.deferred ==> r == b.(deferred := Without(b.deferred, d), countActive := b.countActive - 1)
  {
    WithoutDistinct(b.deferred, d);
    if d in b.deferred then b.(deferred := Without(b.deferred, d), countActive := b.countActive - 1)
    else b
  }

  /** Scheduling then cancelling a callback that was not queued restores the base. */
  lemma ScheduleThenCancel(b: Base, d: nat)
    requires Valid(b) && d !in b.deferred
    ensures DeferredSchedule(b, d).countActive == b.countActive + 1
    ensures DeferredCancel(DeferredSchedule(b, d), d) == b
  {
    WithoutAppend(b.deferred, d);
  }

  /**
   * Adding an event that is on no list and deleting it again leaves
   * every list as it was (and so, by CountsDetermined, both counters).
   */
  lemma AddThenDel(b: Base, id: Id, tv: Option<nat>, env: Env)
    requires Valid(b) && id in b.evs
    requires !On(b, id, QInserted) && !On(b, id, QActive) && !On(b, id, QTimeout)
    requires AddInternal(b, id, tv, env).1 == 0
    ensures DelInternal(AddInternal(b, id, tv, env).0, id, env.mapOk).1 == 0
    ensures var r := DelInternal(AddInternal(b, id, tv, env).0, id, env.mapOk).0;
            r.inserted == b.inserted && r.timers == b.timers && r.active == b.active
  {
    var a := AddInternal(b, id, tv, env).0;
    var d := DelInternal(a, id, env.mapOk);
    var p := b.evs[id].pri;
    assert !CancelsFiring(b, id);
    assert a.evs[id].pri == p;
    UndoLists(b.inserted, b.timers, b.active, p, id, NeedsWatch(b, id), tv.Some?, a.inserted, a.timers, a.active,
              d.0.inserted, d.0.timers, d.0.active);
  }

  /** The counters are a function of the lists and the EVLIST_INTERNAL bits. */
  lemma CountsDetermined(b: Base, r: Base)
    requires CountsOk(b) && CountsOk(r) && SameInternal(b.evs, r.evs)
    requires r.inserted == b.inserted && r.timers == b.timers && r.active == b.active && r.deferred == b.deferred
    ensures r.eventCount == b.eventCount && r.countActive == b.countActive
  {
    ExtFrame(b.evs, r.evs, b.inserted);
    ExtFrame(b.evs, r.evs, b.timers);
    SumExtFrame(b.evs, r.evs, b.active);
  }

  lemma UndoLists(ins: seq<Id>, tms: seq<Id>, act: seq<seq<Id>>, p: nat, id: Id, watch: bool, timed: bool,
                  aIns: seq<Id>, aTms: seq<Id>, aAct: seq<seq<Id>>, rIns: seq<Id>, rTms: seq<Id>, rAct: seq<seq<Id>>)
    requires id !in ins && id !in tms && p < |act| && id !in act[p]
    requires aIns == (if watch then ins + [id] else ins)
    requires aTms == (if timed then Without(tms, id) + [id] else tms) && aAct == act
    requires rIns == Without(aIns, id) && rTms == Without(aTms, id) && rAct == aAct[p := Without(aAct[p], id)]
    ensures rIns == ins && rTms == tms && rAct == act
  {
    WithoutAppend(ins, id);
    WithoutAppend(tms, id);
    assert act[p := act[p]] == act;
  }

  /**
   * Activating an event sets its EVLIST_ACTIVE bit and no other: the
   * inserted, timeout, internal and init bits are as before.
   */
  lemma ActivateSetsFlag(b: Base, id: Id, res: set<Kind>, ncalls: nat)
    requires Valid(b) && id in b.evs
    ensures FlagsOf(ActiveInternal(b, id, res, ncalls), id) == FlagsOf(b, id).(active := true)
  {
  }

  /**
   * Activation detaches a signal event's repeat counter, so deleting it
   * right after activation keeps its repeat count; removing the counter is
   * idempotent.
   */
  lemma ActivateThenAbort(e: Event, res: set<Kind>, ncalls: nat)
    ensures AbortRepeats(Activated(e, res, ncalls)) == Activated(e, res, ncalls)
    ensures AbortRepeats(AbortRepeats(e)) == AbortRepeats(e)
    ensures Signal in e.events ==> Activated(e, res, ncalls).ncalls == ncalls
  {
  }
}
