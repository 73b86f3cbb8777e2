/**
 * The reactor's bookkeeping state: event registrations, the event base
 * with its inserted list, per-priority active queues, timer set and
 * deferred-callback queue, and the invariant that ties the lists to the
 * registered events and the base's counters to the
 * sizes of those queues.
 */
module EventBase {
  import opened Basics

  /** An event registration is named by an id; the base maps ids to records. */
  type Id = nat

  /** The bits of ev_events / ev_res: EV_TIMEOUT, EV_READ, EV_WRITE, EV_SIGNAL, EV_PERSIST. */
  datatype Kind = Timeout | Read | Write | Signal | Persist

  /** The kinds the backend watches for (EV_READ|EV_WRITE|EV_SIGNAL). */
  const Watched: set<Kind> := {Read, Write, Signal}

  /** The closure event_set picks: none, event_persist_closure or event_signal_closure. */
  datatype Closure = Plain | PersistRearm | SignalRepeat

  /** ev_flags: EVLIST_TIMEOUT, EVLIST_INSERTED, EVLIST_ACTIVE, EVLIST_INTERNAL, EVLIST_INIT. */
  datatype Flags = Flags(timeout: bool, inserted: bool, active: bool, internal: bool, init: bool)

  /** The three lists event_queue_insert and event_queue_remove manage. */
  datatype Queue = QInserted | QActive | QTimeout

  /** The flags of a freshly set event: EVLIST_INIT alone. */
  const InitFlags: Flags := Flags(false, false, false, false, true)

  /**
   * struct event, less the list links and the queue bits of ev_flags, which
   * the base's lists determine (see FlagsOf), and the callback (callbacks
   * are opaque).  An event is in a base's map exactly when its ev_base
   * points at that base.  `internal` is EVLIST_INTERNAL; `pncalls` says
   * ev_pncalls points at a live repeat counter.
   */
  datatype Event = Event(
    fd: int,
    events: set<Kind>,
    res: set<Kind>,
    internal: bool,
    pri: int,
    deadline: int,
    ioTimeout: nat,
    ncalls: nat,
    pncalls: bool,
    closure: Closure)

  /**
   * struct event_base.  `active` holds one FIFO per priority (nactivequeues
   * is its length); `timers` stands for the min-heap, kept in insertion
   * order; `deferred` is the deferred_cb FIFO, a callback being queued
   * exactly when it is on it.
   */
  datatype Base = Base(
    evs: map<Id, Event>,
    inserted: seq<Id>,
    active: seq<seq<Id>>,
    timers: seq<Id>,
    deferred: seq<nat>,
    eventCount: int,
    countActive: int,
    eventTv: int,
    brk: bool,
    gotterm: bool,
    nextId: Id)

  /** The event is on the active queue of its own priority. */
  predicate IsActive(b: Base, id: Id)
    requires id in b.evs
  {
    0 <= b.evs[id].pri < |b.active| && id in b.active[b.evs[id].pri]
  }

  /** Is the event on list `q`: the EVLIST_* bit of that list. */
  predicate On(b: Base, id: Id, q: Queue)
    requires id in b.evs
  {
    match q
    case QInserted => id in b.inserted
    case QActive => IsActive(b, id)
    case QTimeout => id in b.timers
  }

  /** ev_flags of a registered event: the lists it is on, EVLIST_INTERNAL, and EVLIST_INIT, which event_set always sets. */
  function FlagsOf(b: Base, id: Id): (f: Flags)
    requires id in b.evs
    ensures f.inserted == On(b, id, QInserted) && f.active == On(b, id, QActive) && f.timeout == On(b, id, QTimeout)
    ensures f.internal == b.evs[id].internal && f.init
  {
    Flags(id in b.timers, id in b.inserted, IsActive(b, id), b.evs[id].internal, true)
  }

  predicate Distinct<T(==)>(s: seq<T>) {
    forall i, j :: 0 <= i < j < |s| ==> s[i] != s[j]
  }

  /** `s` without its (first) occurrence of `x`. */
  function Without<T(==)>(s: seq<T>, x: T): (r: seq<T>)
    ensures x in s ==> |r| == |s| - 1
    ensures x !in s ==> r == s
    ensures forall y :: y in r ==> y in s
    ensures forall y :: y in s && y != x ==> y in r
  {
    if s == [] then []
    else if s[0] == x then s[1..]
    else [s[0]] + Without(s[1..], x)
  }

  lemma WithoutDistinct<T>(s: seq<T>, x: T)
    requires Distinct(s)
    ensures Distinct(Without(s, x)) && x !in Without(s, x)
  {
    if s != [] && s[0] != x {
      WithoutDistinct(s[1..], x);
      assert s[0] !in s[1..];
    }
  }

  lemma AppendDistinct<T>(s: seq<T>, x: T)
    requires Distinct(s) && x !in s
    ensures Distinct(s + [x])
  {
  }

  /** 1 for a registered event event_count counts (one without EVLIST_INTERNAL). */
  function One(evs: map<Id, Event>, id: Id): nat {
    if id in evs && !evs[id].internal then 1 else 0
  }

  /** How many memberships of `s` event_count counts. */
  function Ext(evs: map<Id, Event>, s: seq<Id>): nat {
    if s == [] then 0 else One(evs, s[0]) + Ext(evs, s[1..])
  }

  /** Ext over every active queue. */
  function SumExt(evs: map<Id, Event>, qs: seq<seq<Id>>): nat {
    if qs == [] then 0 else Ext(evs, qs[0]) + SumExt(evs, qs[1..])
  }

  /** The number of events on all active queues together. */
  function SumLen(qs: seq<seq<Id>>): nat {
    if qs == [] then 0 else |qs[0]| + SumLen(qs[1..])
  }

  lemma {:induction false} ExtAppend(evs: map<Id, Event>, s: seq<Id>, x: Id)
    ensures Ext(evs, s + [x]) == Ext(evs, s) + One(evs, x)
  {
    if s != [] {
      assert (s + [x])[1..] == s[1..] + [x];
      ExtAppend(evs, s[1..], x);
    }
  }

  lemma {:induction false} ExtWithout(evs: map<Id, Event>, s: seq<Id>, x: Id)
    requires x in s
    ensures Ext(evs, Without(s, x)) + One(evs, x) == Ext(evs, s)
  {
    if s[0] != x {
      ExtWithout(evs, s[1..], x);
      assert ([s[0]] + Without(s[1..], x))[1..] == Without(s[1..], x);
    }
  }

  /** Two event maps with the same ids and the same EVLIST_INTERNAL bits. */
  predicate SameInternal(e1: map<Id, Event>, e2: map<Id, Event>) {
    e1.Keys == e2.Keys
    && forall id :: id in e1 ==> e1[id].internal == e2[id].internal
  }

  lemma {:induction false} ExtFrame(e1: map<Id, Event>, e2: map<Id, Event>, s: seq<Id>)
    requires SameInternal(e1, e2)
    ensures Ext(e1, s) == Ext(e2, s)
  {
    if s != [] {
      ExtFrame(e1, e2, s[1..]);
    }
  }

  lemma {:induction false} SumExtFrame(e1: map<Id, Event>, e2: map<Id, Event>, qs: seq<seq<Id>>)
    requires SameInternal(e1, e2)
    ensures SumExt(e1, qs) == SumExt(e2, qs)
  {
    if qs != [] {
      ExtFrame(e1, e2, qs[0]);
      SumExtFrame(e1, e2, qs[1..]);
    }
  }

  /** Replacing one active queue changes the sums by the difference. */
  lemma {:induction false} SumUpdate(evs: map<Id, Event>, qs: seq<seq<Id>>, p: nat, q: seq<Id>)
    requires p < |qs|
    ensures SumExt(evs, qs[p := q]) + Ext(evs, qs[p]) == SumExt(evs, qs) + Ext(evs, q)
    ensures SumLen(qs[p := q]) + |qs[p]| == SumLen(qs) + |q|
  {
    if p > 0 {
      assert qs[p := q][1..] == qs[1..][p - 1 := q];
      SumUpdate(evs, qs[1..], p - 1, q);
    }
  }

  /** All queues empty, the sums are 0. */
  lemma {:induction false} SumEmpty(evs: map<Id, Event>, qs: seq<seq<Id>>)
    requires forall p :: 0 <= p < |qs| ==> qs[p] == []
    ensures SumExt(evs, qs) == 0 && SumLen(qs) == 0
  {
    if qs != [] {
      SumEmpty(evs, qs[1..]);
    }
  }

  /** No events queued anywhere, when the total is 0. */
  lemma {:induction false} SumLenZero(qs: seq<seq<Id>>)
    requires SumLen(qs) == 0
    ensures forall p :: 0 <= p < |qs| ==> qs[p] == []
  {
    if qs != [] {
      SumLenZero(qs[1..]);
      assert forall p :: 1 <= p < |qs| ==> qs[p] == qs[1..][p - 1];
    }
  }

  /** The lists hold registered events, each at most once. */
  predicate ListsOk(b: Base) {
    Distinct(b.inserted) && Distinct(b.timers) && Distinct(b.deferred)
    && (forall p :: 0 <= p < |b.active| ==> Distinct(b.active[p]))
    && (forall id :: id in b.inserted ==> id in b.evs)
    && (forall id :: id in b.timers ==> id in b.evs)
    && (forall p, id :: 0 <= p < |b.active| && id in b.active[p] ==> id in b.evs && b.evs[id].pri == p)
  }

  /** Every registered event's priority names an active queue. */
  predicate PriOk(b: Base) {
    forall id :: id in b.evs ==> 0 <= b.evs[id].pri < |b.active|
  }

  /**
   * event_count counts every queue membership of a non-internal event;
   * event_count_active counts active events and queued deferred callbacks.
   */
  predicate CountsOk(b: Base) {
    b.eventCount == Ext(b.evs, b.inserted) + Ext(b.evs, b.timers) + SumExt(b.evs, b.active)
    && b.countActive == SumLen(b.active) + |b.deferred|
  }

  predicate Valid(b: Base) {
    ListsOk(b) && PriOk(b) && CountsOk(b) && forall id :: id in b.evs ==> id < b.nextId
  }

  /** The base after event_base_new: one priority, nothing registered. */
  function NewBase(now: int): (b: Base)
    ensures Valid(b) && |b.active| == 1 && b.eventCount == 0 && b.countActive == 0
  {
    Base(map[], [], [[]], [], [], 0, 0, now, false, false, 0)
  }

  /** No event is active and no deferred callback is queued. */
  lemma {:induction false} IdleBase(b: Base)
    requires Valid(b) && b.countActive == 0
    ensures forall p :: 0 <= p < |b.active| ==> b.active[p] == []
    ensures b.deferred == []
    ensures forall id :: id in b.evs ==> !IsActive(b, id)
  {
    SumLenZero(b.active);
  }
}
