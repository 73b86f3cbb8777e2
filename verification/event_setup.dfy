/**
 * Setting events up and the validation rules around them: event_set,
 * event_base_set, event_assign / event_new, event_priority_set,
 * event_base_priority_init, event_pending, event_base_once with
 * event_base_loopexit, and event_base_loopbreak.
 */
module EventSetup {
  import opened Basics
  import opened EventBase
  import opened EventOps
  import opened EventLoop
  import opened EventDispatch

  /**
   * event_set on a fresh record: EVLIST_INIT only, no result, no repeats,
   * and the closure its kinds select.  A signal event that also asks for
   * read or write is a fatal error (None).  With a current base the
   * priority is the middle one of its `current` queues; without one the
   * record keeps the priority `pri0` it had.
   */
  function EventSet(fd: int, events: set<Kind>, current: Option<nat>, pri0: int): (r: Option<Event>)
    ensures r.None? <==> Signal in events && events * {Read, Write} != {}
    ensures r.Some? ==> r.value.fd == fd && r.value.events == events && r.value.res == {}
                        && !r.value.internal && r.value.ncalls == 0 && !r.value.pncalls
    ensures r.Some? ==> r.value.pri == (if current.Some? then current.value / 2 else pri0)
    ensures r.Some? ==> (r.value.closure == SignalRepeat <==> Signal in events)
                        && (r.value.closure == PersistRearm <==> Signal !in events && Persist in events)
                        && (r.value.closure == PersistRearm ==> r.value.ioTimeout == 0)
  {
    if Signal in events && events * {Read, Write} != {} then None
    else
      var closure := if Signal in events then SignalRepeat else if Persist in events then PersistRearm else Plain;
      var pri := if current.Some? then current.value / 2 else pri0;
      Some(Event(fd, events, {}, false, pri, 0, 0, 0, false, closure))
  }

  /** An id the base has not handed out yet is on none of its lists. */
  lemma FreshId(b: Base)
    requires Valid(b)
    ensures b.nextId !in b.evs && b.nextId !in b.inserted && b.nextId !in b.timers
    ensures forall p :: 0 <= p < |b.active| ==> b.nextId !in b.active[p]
  {
  }

  /** A membership count does not see an event that is on none of the counted lists. */
  lemma {:induction false} ExtFresh(evs: map<Id, Event>, s: seq<Id>, id: Id, e: Event)
    requires id !in s
    ensures Ext(evs[id := e], s) == Ext(evs, s)
  {
    if s != [] {
      ExtFresh(evs, s[1..], id, e);
    }
  }

  lemma {:induction false} SumExtFresh(evs: map<Id, Event>, qs: seq<seq<Id>>, id: Id, e: Event)
    requires forall p :: 0 <= p < |qs| ==> id !in qs[p]
    ensures SumExt(evs[id := e], qs) == SumExt(evs, qs)
  {
    if qs != [] {
      ExtFresh(evs, qs[0], id, e);
      SumExtFresh(evs, qs[1..], id, e);
    }
  }

  /**
   * Pointing an event's ev_base at `b`: the event gets the next id and the
   * middle priority, and is on none of the base's lists.
   */
  function Attach(b: Base, e: Event): (r: (Base, Id))
    requires Valid(b) && |b.active| >= 1
    ensures Valid(r.0) && r.1 == b.nextId && r.1 !in b.evs
    ensures r.0.evs == b.evs[r.1 := e.(pri := |b.active| / 2)] && r.0.nextId == b.nextId + 1
    ensures r.0 == b.(evs := r.0.evs, nextId := r.0.nextId)
    ensures FlagsOf(r.0, r.1) == Flags(false, false, false, e.internal, true)
  {
    var id := b.nextId;
    var e1 := e.(pri := |b.active| / 2);
    FreshId(b);
    ExtFresh(b.evs, b.inserted, id, e1);
    ExtFresh(b.evs, b.timers, id, e1);
    SumExtFresh(b.evs, b.active, id, e1);
    var r := b.(evs := b.evs[id := e1], nextId := id + 1);
    assert ListsOk(r) by {
      forall p, x | 0 <= p < |r.active| && x in r.active[p] ensures x in r.evs && r.evs[x].pri == p {
        assert x in b.evs && x != id;
      }
    }
    (r, id)
  }

  /**
   * event_base_set for an event that belongs to no base yet (event_set
   * ran without a current base, or the event comes from elsewhere): only
   * an event whose ev_flags are exactly EVLIST_INIT may move; it then
   * belongs to `b` with the middle priority.  Otherwise -1 and nothing
   * changes.
   */
  function BaseSet(b: Base, e: Event, f: Flags): (r: (Base, Option<Id>, int))
    requires Valid(b) && |b.active| >= 1
    ensures Valid(r.0)
    ensures r.2 == -1 <==> f != InitFlags
    ensures r.2 == -1 ==> r.0 == b && r.1.None?
    ensures r.2 == 0 ==> r.1 == Some(b.nextId) && r.0 == Attach(b, e).0
                         && r.0.evs[b.nextId].pri == |b.active| / 2
    ensures r.2 == 0 || r.2 == -1
  {
    if f != InitFlags then (b, None, -1)
    else
      var a := Attach(b, e);
      (a.0, Some(a.1), 0)
  }

  /**
   * event_base_set for an event already in `b`: an event on no list and
   * without EVLIST_INTERNAL goes back to the middle priority; any other
   * gives -1 and nothing changes.
   */
  function BaseReset(b: Base, id: Id): (r: (Base, int))
    requires Valid(b) && id in b.evs && |b.active| >= 1
    ensures Valid(r.0)
    ensures r.1 == -1 <==> FlagsOf(b, id) != InitFlags
    ensures r.1 == -1 ==> r.0 == b
    ensures r.1 == 0 ==> r.0 == b.(evs := b.evs[id := b.evs[id].(pri := |b.active| / 2)])
  {
    if FlagsOf(b, id) != InitFlags then (b, -1)
    else
      ReprioritiseValid(b, id, |b.active| / 2);
      (b.(evs := b.evs[id := b.evs[id].(pri := |b.active| / 2)]), 0)
  }

  /** Changing the priority of an event that is not active keeps the invariant. */
  lemma ReprioritiseValid(b: Base, id: Id, pri: int)
    requires Valid(b) && id in b.evs && !IsActive(b, id) && 0 <= pri < |b.active|
    ensures Valid(b.(evs := b.evs[id := b.evs[id].(pri := pri)]))
  {
    var r := b.(evs := b.evs[id := b.evs[id].(pri := pri)]);
    assert SameInternal(b.evs, r.evs);
    ExtFrame(b.evs, r.evs, b.inserted);
    ExtFrame(b.evs, r.evs, b.timers);
    SumExtFrame(b.evs, r.evs, b.active);
    assert ListsOk(r) by {
      forall p, x | 0 <= p < |r.active| && x in r.active[p] ensures x in r.evs && r.evs[x].pri == p {
        assert x in b.evs && b.evs[x].pri == p;
        assert x != id;
      }
    }
  }

  /** The outcome of event_new. */
  datatype Created = Fatal | NoMemory | Made(base: Base, id: Id)

  /**
   * event_new (event_assign on a fresh allocation): NULL when the
   * allocation fails (`memOk` false), the fatal error of event_set for a
   * signal with read or write, else a new event of `b` on no list.
   */
  function EventNew(b: Base, fd: int, events: set<Kind>, memOk: bool): (r: Created)
    requires Valid(b) && |b.active| >= 1
    ensures r == NoMemory <==> !memOk
    ensures r == Fatal <==> memOk && Signal in events && events * {Read, Write} != {}
    ensures r.Made? ==> Valid(r.base) && r.id == b.nextId && r.id in r.base.evs
                        && r.base.evs[r.id].events == events && r.base.evs[r.id].fd == fd
                        && r.base.evs[r.id].pri == |b.active| / 2 && FlagsOf(r.base, r.id) == InitFlags
                        && r.base == b.(evs := r.base.evs, nextId := b.nextId + 1)
                        && forall x :: x in b.evs ==> x in r.base.evs && r.base.evs[x] == b.evs[x]
  {
    if !memOk then NoMemory
    else
      match EventSet(fd, events, Some(|b.active|), 0)
      case None => Fatal
      case Some(e) =>
        var s := BaseSet(b, e, InitFlags);
        Made(s.0, s.1.value)
  }

  /**
   * event_priority_set: an active event, or a priority outside
   * [0, nactivequeues), gives -1 and nothing changes; otherwise the event
   * gets the new priority.
   */
  function PrioritySet(b: Base, id: Id, pri: int): (r: (Base, int))
    requires Valid(b) && id in b.evs
    ensures Valid(r.0)
    ensures r.1 == 0 <==> !IsActive(b, id) && 0 <= pri < |b.active|
    ensures r.1 != 0 ==> r.1 == -1 && r.0 == b
    ensures r.1 == 0 ==> r.0 == b.(evs := r.0.evs) && r.0.evs.Keys == b.evs.Keys
                         && forall x :: x in b.evs && x != id ==> r.0.evs[x] == b.evs[x]
    ensures r.1 == 0 ==> r.0.evs[id].pri == pri && r.0.evs[id].(pri := b.evs[id].pri) == b.evs[id]
  {
    if IsActive(b, id) then (b, -1)
    else if pri < 0 || pri >= |b.active| then (b, -1)
    else
      ReprioritiseValid(b, id, pri);
      (b.(evs := b.evs[id := b.evs[id].(pri := pri)]), 0)
  }

  /** Every registered event's priority is below `n`. */
  predicate PrioritiesBelow(b: Base, n: int) {
    forall id :: id in b.evs ==> b.evs[id].pri < n
  }

  /**
   * event_base_priority_init.  With work active it gives -1; asking for
   * the number of queues the base has gives 0; otherwise the queues are
   * replaced by `n` empty ones.  A count below 1 does not leave a usable
   * base (a negative one makes the allocation fail, which is fatal; zero
   * leaves no queue to activate into): None.
   */
  function PriorityInit(b: Base, n: int): (r: Option<(Base, int)>)
    requires Valid(b)
    ensures r.None? <==> b.countActive == 0 && n != |b.active| && n < 1
    ensures r.Some? ==> (r.value.1 == -1 <==> b.countActive != 0)
    ensures r.Some? && (r.value.1 == -1 || n == |b.active|) ==> r.value.0 == b
    ensures r.Some? ==> r.value.1 == 0 || r.value.1 == -1
    ensures r.Some? && r.value.1 == 0 ==>
              |r.value.0.active| == n && r.value.0 == b.(active := r.value.0.active)
              && (forall p :: 0 <= p < n ==> r.value.0.active[p] == [])
              && (Valid(r.value.0) <==> PrioritiesBelow(b, n))
  {
    if b.countActive != 0 then Some((b, -1))
    else if n == |b.active| then
      IdleBase(b);
      Some((b, 0))
    else if n < 1 then None
    else
      IdleBase(b);
      var r := b.(active := seq(n, _ => []));
      SumEmpty(b.evs, b.active);
      SumEmpty(r.evs, r.active);
      assert ListsOk(r);
      assert CountsOk(r);
      assert PriOk(r) <==> PrioritiesBelow(b, n);
      Some((r, 0))
  }

  /** After a successful event_priority_set the event is pending for the same things, at its new priority. */
  lemma PrioritySetThenInit(b: Base, id: Id, pri: int)
    requires Valid(b) && id in b.evs && b.countActive == 0 && 0 <= pri < |b.active|
    ensures PrioritySet(b, id, pri).1 == 0
    ensures FlagsOf(PrioritySet(b, id, pri).0, id) == FlagsOf(b, id)
  {
    IdleBase(b);
  }

  /**
   * The bits event_pending reports before masking: the watched kinds of an
   * inserted event, the result of an active one, and EV_TIMEOUT for one on
   * the timer heap.
   */
  function PendingBits(b: Base, id: Id): (s: set<Kind>)
    requires id in b.evs
    ensures Persist !in b.evs[id].res ==> Persist !in s
    ensures Timeout in s <==> id in b.timers || (IsActive(b, id) && Timeout in b.evs[id].res)
    ensures forall k :: k in Watched ==> (k in s <==> (id in b.inserted && k in b.evs[id].events)
                                                      || (IsActive(b, id) && k in b.evs[id].res))
  {
    (if id in b.inserted then b.evs[id].events * Watched else {})
    + (if IsActive(b, id) then b.evs[id].res else {})
    + (if id in b.timers then {Timeout} else {})
  }

  /**
   * event_pending: the pending bits restricted to `mask` and to
   * EV_TIMEOUT|EV_READ|EV_WRITE|EV_SIGNAL, and, when asked for (`wantTv`)
   * and EV_TIMEOUT is among them, the deadline mapped from the loop's
   * clock `now` to the wall clock `wall`.
   */
  function Pending(b: Base, id: Id, mask: set<Kind>, wantTv: bool, now: int, wall: int): (r: (set<Kind>, Option<int>))
    requires id in b.evs
    ensures forall k :: k in r.0 <==> k in mask && k != Persist && k in PendingBits(b, id)
    ensures r.1.Some? <==> wantTv && Timeout in r.0
    ensures r.1.Some? ==> r.1.value - wall == b.evs[id].deadline - now
  {
    var s := PendingBits(b, id) * mask - {Persist};
    (s, if wantTv && Timeout in s then Some(b.evs[id].deadline - now + wall) else None)
  }

  /** After a successful event_add with a timeout, event_pending reports the timeout and its time. */
  lemma AddThenPending(b: Base, id: Id, t: nat, env: Env, wall: int)
    requires Valid(b) && id in b.evs && AddInternal(b, id, Some(t), env).1 == 0
    ensures var r := AddInternal(b, id, Some(t), env).0;
            id in r.evs && Pending(r, id, {Timeout}, true, env.now, wall) == ({Timeout}, Some(wall + t))
  {
    var r := AddInternal(b, id, Some(t), env).0;
    assert id in r.timers;
    assert r.evs[id].deadline == env.now + t;
    var s := PendingBits(r, id) * {Timeout} - {Persist};
    assert Timeout in PendingBits(r, id);
    assert s == {Timeout};
  }

  /** After event_del nothing is pending. */
  lemma DelThenPending(b: Base, id: Id, mapOk: bool, mask: set<Kind>, wantTv: bool, now: int, wall: int)
    requires Valid(b) && id in b.evs
    ensures var r := DelInternal(b, id, mapOk).0;
            id in r.evs && Pending(r, id, mask, wantTv, now, wall) == ({}, None)
  {
    var r := DelInternal(b, id, mapOk).0;
    assert id !in r.inserted && id !in r.timers && !IsActive(r, id);
    assert PendingBits(r, id) == {};
    assert PendingBits(r, id) * mask - {Persist} == {};
  }

  /** The kinds event_base_once accepts: EV_TIMEOUT alone, or any set with read or write and no signal. */
  predicate OnceMask(events: set<Kind>) {
    Signal !in events && (events == {Timeout} || events * {Read, Write} != {})
  }

  /**
   * event_base_once.  A signal, a failed allocation, or a set of kinds
   * with neither EV_TIMEOUT alone nor read or write gives -1.  EV_TIMEOUT
   * alone makes a pure timer (no descriptor, no kinds) that fires after
   * `tv`, or at once without one; otherwise the event watches `fd` for the
   * read and write kinds only.  The event is added with `tv`; if that
   * fails its result is returned and the event is dropped.
   */
  function BaseOnce(b: Base, fd: int, events: set<Kind>, tv: Option<nat>, memOk: bool, env: Env)
    : (r: (Base, Option<Id>, int))
    requires Valid(b) && |b.active| >= 1
    ensures Valid(r.0) && (r.2 == 0 || r.2 == -1)
    ensures r.2 == 0 <==> OnceMask(events) && memOk && (events == {Timeout} || tv.Some? ==> env.heapOk)
                          && (events != {Timeout} ==> env.mapOk)
    ensures r.2 == -1 ==> r.0 == b && r.1.None?
    ensures r.2 == 0 ==> r.1 == Some(b.nextId) && b.nextId in r.0.evs
                         && r.0.evs[b.nextId].events == (if events == {Timeout} then {} else events * {Read, Write})
                         && !r.0.evs[b.nextId].internal && r.0.evs[b.nextId].closure == Plain
                         && (b.nextId in r.0.timers <==> events == {Timeout} || tv.Some?)
                         && (b.nextId in r.0.inserted <==> events != {Timeout})
                         && !IsActive(r.0, b.nextId)
                         && r.0.eventCount == b.eventCount + (if events == {Timeout} then 0 else 1)
                                                           + (if events == {Timeout} || tv.Some? then 1 else 0)
  {
    if Signal in events || !memOk then (b, None, -1)
    else if events != {Timeout} && events * {Read, Write} == {} then (b, None, -1)
    else
      var timer := events == {Timeout};
      var kinds := if timer then {} else events * {Read, Write};
      var when := if timer && tv.None? then Some(0) else tv;
      var c := EventNew(b, if timer then -1 else fd, kinds, true);
      var id := c.id;
      var a := AddInternal(c.base, id, when, env);
      OnceAdded(b, c.base, id, when, env, a.0, a.1);
      if a.1 != 0 then (b, None, a.1) else (a.0, Some(id), 0)
  }

  /** What event_add does to an event event_base_once has just set up. */
  lemma OnceAdded(b: Base, c: Base, id: Id, when: Option<nat>, env: Env, r: Base, code: int)
    requires Valid(c) && id in c.evs && FlagsOf(c, id) == InitFlags && !c.evs[id].internal
    requires c.evs[id].closure == Plain
    requires c.eventCount == b.eventCount
    requires (r, code) == AddInternal(c, id, when, env)
    ensures code == 0 <==> (when.Some? ==> env.heapOk) && (c.evs[id].events * Watched != {} ==> env.mapOk)
    ensures code == 0 ==> Valid(r) && id in r.evs && r.evs[id].events == c.evs[id].events
                          && !r.evs[id].internal && r.evs[id].closure == Plain
                          && (id in r.timers <==> when.Some?)
                          && (id in r.inserted <==> c.evs[id].events * Watched != {})
                          && !IsActive(r, id)
                          && r.eventCount == b.eventCount + (if c.evs[id].events * Watched != {} then 1 else 0)
                                                           + (if when.Some? then 1 else 0)
  {
    assert One(c.evs, id) == 1;
    assert !CancelsFiring(c, id);
  }

  /**
   * event_base_loopexit: a one-shot timer after `tv` (at once without one)
   * whose callback sets event_gotterm.  The caller's callback table must
   * list the returned id among the exits.
   */
  function LoopExit(b: Base, tv: Option<nat>, memOk: bool, env: Env): (r: (Base, Option<Id>, int))
    requires Valid(b) && |b.active| >= 1
    ensures Valid(r.0)
    ensures r.2 == 0 <==> memOk && env.heapOk
    ensures r.2 != 0 ==> r.2 == -1 && r.0 == b
    ensures r.2 == 0 ==> r.1 == Some(b.nextId) && b.nextId in r.0.timers && b.nextId !in r.0.inserted
                         && r.0.evs[b.nextId].deadline == env.now + (if tv.Some? then tv.value else 0)
  {
    var r := BaseOnce(b, -1, {Timeout}, tv, memOk, env);
    if r.2 == 0 then
      OnceDeadline(b, tv, memOk, env);
      r
    else r
  }

  lemma OnceDeadline(b: Base, tv: Option<nat>, memOk: bool, env: Env)
    requires Valid(b) && |b.active| >= 1 && BaseOnce(b, -1, {Timeout}, tv, memOk, env).2 == 0
    ensures var r := BaseOnce(b, -1, {Timeout}, tv, memOk, env);
            b.nextId in r.0.evs && r.0.evs[b.nextId].deadline == env.now + (if tv.Some? then tv.value else 0)
  {
    var when := if tv.None? then Some(0) else tv;
    var c := EventNew(b, -1, {}, true);
    assert AddInternal(c.base, c.id, when, env).1 == 0;
    assert AddInternal(c.base, c.id, when, env).0.evs[c.id].deadline == env.now + when.value;
  }

  /**
   * event_base_loopbreak: -1 without a base; otherwise event_break is set
   * and nothing else changes (the wake-up of a loop running in another
   * thread is not modelled).
   */
  function LoopBreak(b: Option<Base>): (r: (Option<Base>, int))
    requires b.Some? ==> Valid(b.value)
    ensures b.None? <==> r.1 == -1
    ensures b.None? ==> r.0.None?
    ensures b.Some? ==> r.1 == 0 && r.0 == Some(b.value.(brk := true)) && Valid(r.0.value)
  {
    match b
    case None => (None, -1)
    case Some(x) =>
      FlagsValid(x, x.gotterm, true);
      (Some(x.(brk := true)), 0)
  }

  /** A break requested before a pass ends the loop at that pass with 0 and the request consumed. */
  lemma BreakStops(b: Base, flags: LoopFlags, cbs: Callbacks, plat: Platform, before: int, t: Tick)
    requires Valid(b) && !b.gotterm
    ensures var x := LoopBreak(Some(b)).0.value;
            Loop(x, flags, cbs, plat, before, [t]) == (b.(brk := false), Exited(0), [])
  {
    var x := LoopBreak(Some(b)).0.value;
    assert Iterate(x, flags, cbs, plat, before, t) == Stopped(b.(brk := false), 0);
  }
}
