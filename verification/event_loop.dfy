/**
 * Running the active events: one priority's queue
 * (event_process_active_single_queue) with the persist and signal
 * closures, the deferred callbacks, the scan over the priorities
 * (event_process_active), and event_base_loop.
 *
 * Callbacks are opaque.  What the loop can observe of them is whether they
 * ask for event_base_loopbreak, which `Callbacks` records per event and per
 * deferred callback; they add, delete or activate nothing.
 */
module EventLoop {
  import opened Basics
  import opened EventBase
  import opened EventQueue
  import opened EventOps
  import opened EventTimer

  /**
   * The events whose callbacks call event_base_loopbreak (`breaks`) or are
   * the callback of event_base_loopexit, which sets event_gotterm
   * (`exits`), and the deferred callbacks that call event_base_loopbreak.
   */
  datatype Callbacks = Callbacks(breaks: set<Id>, exits: set<Id>, breaksDeferred: set<nat>)

  /** One event taken off an active queue: its callback ran `calls` times with result `res`. */
  datatype Fired = Fired(id: Id, res: set<Kind>, calls: nat)

  function Ids(fs: seq<Fired>): (r: seq<Id>)
    ensures |r| == |fs| && forall i :: 0 <= i < |fs| ==> r[i] == fs[i].id
  {
    if fs == [] then [] else [fs[0].id] + Ids(fs[1..])
  }

  lemma IdsAppend(a: seq<Fired>, c: seq<Fired>)
    ensures Ids(a + c) == Ids(a) + Ids(c)
  {
    assert Ids(a + c) == Ids(a) + Ids(c) by {
      assert |Ids(a + c)| == |Ids(a) + Ids(c)|;
      forall i | 0 <= i < |a + c| ensures Ids(a + c)[i] == (Ids(a) + Ids(c))[i] {
        if i >= |a| { assert (a + c)[i] == c[i - |a|]; }
      }
    }
  }

  /** Did any of the callbacks run ask for the loop to exit (event_base_loopexit)? */
  function AnyExit(fs: seq<Fired>, cbs: Callbacks): (r: bool)
    ensures r <==> exists i :: 0 <= i < |fs| && fs[i].id in cbs.exits && fs[i].calls > 0
  {
    if fs == [] then false
    else (fs[0].id in cbs.exits && fs[0].calls > 0) || AnyExit(fs[1..], cbs)
  }

  lemma AnyExitAppend(a: seq<Fired>, c: seq<Fired>, cbs: Callbacks)
    ensures AnyExit(a + c, cbs) == (AnyExit(a, cbs) || AnyExit(c, cbs))
  {
    if AnyExit(a + c, cbs) {
      var i :| 0 <= i < |a + c| && (a + c)[i].id in cbs.exits && (a + c)[i].calls > 0;
      if i >= |a| { assert c[i - |a|] == (a + c)[i]; }
    }
    if AnyExit(a, cbs) {
      var i :| 0 <= i < |a| && a[i].id in cbs.exits && a[i].calls > 0;
      assert (a + c)[i] == a[i];
    }
    if AnyExit(c, cbs) {
      var i :| 0 <= i < |c| && c[i].id in cbs.exits && c[i].calls > 0;
      assert (a + c)[i + |a|] == c[i];
    }
  }

  /**
   * The first step for the head of an active queue: a persistent event
   * only leaves the active queue, any other is deleted (event_del_internal).
   */
  function Dequeue(b: Base, id: Id): (r: Base)
    requires Valid(b) && id in b.evs && IsActive(b, id)
    ensures Valid(r) && SameLoop(b, r) && SameInternal(b.evs, r.evs) && !IsActive(r, id)
    ensures forall x :: x in b.evs && x != id ==> r.evs[x] == b.evs[x]
    ensures r.active == b.active[b.evs[id].pri := Without(b.active[b.evs[id].pri], id)]
    ensures r.countActive == b.countActive - 1
    ensures r.evs[id].res == b.evs[id].res && r.evs[id].closure == b.evs[id].closure
    ensures r.evs[id].ioTimeout == b.evs[id].ioTimeout && r.evs[id].pncalls == b.evs[id].pncalls
    ensures Persist in b.evs[id].events ==> r.evs == b.evs && r.inserted == b.inserted && r.timers == b.timers
    ensures Persist !in b.evs[id].events ==>
              r.evs == b.evs[id := AbortRepeats(b.evs[id])] && id !in r.inserted && id !in r.timers
  {
    WithoutDistinct(b.active[b.evs[id].pri], id);
    if Persist in b.evs[id].events then DropActive(b, id)
    else
      SameInternalUpdate(b.evs, id, AbortRepeats(b.evs[id]));
      DelInternal(b, id, true).0
  }

  lemma SameInternalUpdate(evs: map<Id, Event>, id: Id, e: Event)
    requires id in evs && e.internal == evs[id].internal
    ensures SameInternal(evs, evs[id := e])
  {
  }

  /** Run the callback of `id` once: it may ask for a break or for the loop to exit. */
  function Called(b: Base, id: Id, cbs: Callbacks): (r: Base)
    requires Valid(b)
    ensures Valid(r) && r.brk == (b.brk || id in cbs.breaks) && r.gotterm == (b.gotterm || id in cbs.exits)
    ensures r.(brk := b.brk, gotterm := b.gotterm) == b
  {
    b.(brk := b.brk || id in cbs.breaks, gotterm := b.gotterm || id in cbs.exits)
  }

  /**
   * The closure of a dequeued event, returning the base and the number of
   * callback runs.  event_persist_closure re-adds the event with its
   * remembered timeout when that is non-zero, then runs the callback once.
   * event_signal_closure runs the callback ncalls times, counting ev_ncalls
   * down, and stops after any run that leaves the break flag set; once it
   * returns no live counter is left (`pncalls` false).  Without a closure
   * the callback runs once.
   */
  function RunClosure(b: Base, id: Id, cbs: Callbacks, env: Env): (r: (Base, nat))
    requires Valid(b) && id in b.evs && !IsActive(b, id)
    ensures Valid(r.0) && SameLoop(b, r.0.(brk := b.brk, gotterm := b.gotterm)) && id in r.0.evs
    ensures SameInternal(b.evs, r.0.evs) && forall x :: x in b.evs && x != id ==> r.0.evs[x] == b.evs[x]
    ensures r.0.active == b.active && r.0.countActive == b.countActive
    ensures r.0.brk == (b.brk || (id in cbs.breaks && r.1 > 0))
    ensures r.0.gotterm == (b.gotterm || (id in cbs.exits && r.1 > 0))
    ensures b.evs[id].closure != SignalRepeat ==> r.1 == 1
    ensures b.evs[id].closure == SignalRepeat ==>
              r.1 <= b.evs[id].ncalls && !r.0.evs[id].pncalls
              && r.0.evs[id].ncalls == b.evs[id].ncalls - r.1
              && (r.1 < b.evs[id].ncalls ==> r.1 == 1 && r.0.brk)
              && (b.evs[id].ncalls > 0 && !b.brk && id !in cbs.breaks ==> r.1 == b.evs[id].ncalls)
              && r.0.inserted == b.inserted && r.0.timers == b.timers
    ensures b.evs[id].closure == Plain || (b.evs[id].closure == PersistRearm && b.evs[id].ioTimeout == 0) ==>
              r.0 == Called(b, id, cbs)
  {
    match b.evs[id].closure
    case Plain => (Called(b, id, cbs), 1)
    case PersistRearm => (PersistClosure(b, id, cbs, env), 1)
    case SignalRepeat => SignalClosure(b, id, cbs)
  }

  /** event_persist_closure: re-add with the remembered timeout, then the callback. */
  function PersistClosure(b: Base, id: Id, cbs: Callbacks, env: Env): (r: Base)
    requires Valid(b) && id in b.evs && !IsActive(b, id)
    ensures Valid(r) && SameLoop(b, r.(brk := b.brk, gotterm := b.gotterm)) && id in r.evs
    ensures SameInternal(b.evs, r.evs) && forall x :: x in b.evs && x != id ==> r.evs[x] == b.evs[x]
    ensures r.active == b.active && r.countActive == b.countActive
    ensures r.brk == (b.brk || id in cbs.breaks) && r.gotterm == (b.gotterm || id in cbs.exits)
    ensures b.evs[id].ioTimeout == 0 ==> r == Called(b, id, cbs)
  {
    Called(Rearm(b, id, env), id, cbs)
  }

  /** The event_add of event_persist_closure, made only for a non-zero remembered timeout. */
  function Rearm(b: Base, id: Id, env: Env): (r: Base)
    requires Valid(b) && id in b.evs && !IsActive(b, id)
    ensures Valid(r) && SameLoop(b, r) && id in r.evs && SameInternal(b.evs, r.evs)
    ensures forall x :: x in b.evs && x != id ==> r.evs[x] == b.evs[x]
    ensures r.active == b.active && r.countActive == b.countActive
    ensures b.evs[id].ioTimeout == 0 ==> r == b
    ensures b.evs[id].ioTimeout != 0 ==> r == AddInternal(b, id, Some(b.evs[id].ioTimeout), env).0
  {
    var e := b.evs[id];
    if e.ioTimeout == 0 then b
    else
      assert !CancelsFiring(b, id);
      SameInternalUpdate(b.evs, id, Rearmed(e, false, e.ioTimeout, env.now));
      AddInternal(b, id, Some(e.ioTimeout), env).0
  }

  /** event_signal_closure. */
  function SignalClosure(b: Base, id: Id, cbs: Callbacks): (r: (Base, nat))
    requires Valid(b) && id in b.evs
    ensures Valid(r.0) && SameLoop(b, r.0.(brk := b.brk, gotterm := b.gotterm)) && id in r.0.evs
    ensures SameInternal(b.evs, r.0.evs) && forall x :: x in b.evs && x != id ==> r.0.evs[x] == b.evs[x]
    ensures r.0.active == b.active && r.0.countActive == b.countActive
    ensures r.0.inserted == b.inserted && r.0.timers == b.timers
    ensures r.0.brk == (b.brk || (id in cbs.breaks && r.1 > 0))
    ensures r.0.gotterm == (b.gotterm || (id in cbs.exits && r.1 > 0))
    ensures r.1 <= b.evs[id].ncalls && !r.0.evs[id].pncalls && r.0.evs[id].ncalls == b.evs[id].ncalls - r.1
    ensures r.1 < b.evs[id].ncalls ==> r.1 == 1 && r.0.brk
    ensures b.evs[id].ncalls > 0 && !b.brk && id !in cbs.breaks ==> r.1 == b.evs[id].ncalls
  {
    var e := b.evs[id];
    var n := e.ncalls;
    var calls := if n == 0 then 0 else if b.brk || id in cbs.breaks then 1 else n;
    var b1 := SetEvent(b, id, e.(ncalls := n - calls, pncalls := false));
    SameInternalUpdate(b.evs, id, e.(ncalls := n - calls, pncalls := false));
    (if calls == 0 then b1 else Called(b1, id, cbs), calls)
  }

  /**
   * What running one active queue did: `fired` lists the dequeued events in
   * queue order with the result their callbacks saw; the queue lost exactly
   * that prefix and nothing else queued changed.  A count `c >= 0` means
   * the whole queue ran without a break and counts its non-internal events;
   * -1 means a callback left the break flag set and processing stopped right
   * after it.
   */
  ghost predicate Drained(b: Base, p: nat, cbs: Callbacks, r: Base, c: int, fired: seq<Fired>)
    requires p < |b.active|
  {
    |r.active| == |b.active| && r.deferred == b.deferred && SameInternal(b.evs, r.evs)
    && r.gotterm == (b.gotterm || AnyExit(fired, cbs)) && r.eventTv == b.eventTv && r.nextId == b.nextId
    && |fired| <= |b.active[p]| && Ids(fired) == b.active[p][..|fired|]
    && r.active[p] == b.active[p][|fired|..]
    && (forall q :: 0 <= q < |b.active| && q != p ==> r.active[q] == b.active[q])
    && r.countActive == b.countActive - |fired|
    && (forall i :: 0 <= i < |fired| ==> fired[i].id in b.evs && fired[i].res == b.evs[fired[i].id].res)
    && (c == -1 || c >= 0)
    && (c >= 0 ==> |fired| == |b.active[p]| && c == Ext(b.evs, b.active[p]) && r.brk == b.brk)
    && (c >= 0 ==> forall i :: 0 <= i < |fired| ==> !(fired[i].id in cbs.breaks && fired[i].calls > 0))
    && (c == -1 ==> r.brk && fired != []
                    && (b.brk || (fired[|fired| - 1].id in cbs.breaks && fired[|fired| - 1].calls > 0)))
  }

  /**
   * event_process_active_single_queue: take the head of the queue off it
   * (event_queue_remove for a persistent event, event_del_internal for any
   * other), run its closure or callback, and return -1 as soon as the break
   * flag is set; otherwise go on until the queue is empty and return the
   * number of non-internal events processed.
   */
  function ProcessQueue(b: Base, p: nat, cbs: Callbacks, env: Env): (r: (Base, int, seq<Fired>))
    requires Valid(b) && p < |b.active|
    ensures Valid(r.0) && Drained(b, p, cbs, r.0, r.1, r.2)
    decreases |b.active[p]|, 1
  {
    if b.active[p] == [] then (b, 0, []) else ProcessHead(b, p, cbs, env)
  }

  /** ProcessQueue on a non-empty queue. */
  function ProcessHead(b: Base, p: nat, cbs: Callbacks, env: Env): (r: (Base, int, seq<Fired>))
    requires Valid(b) && p < |b.active| && b.active[p] != []
    ensures Valid(r.0) && Drained(b, p, cbs, r.0, r.1, r.2)
    decreases |b.active[p]|, 0
  {
    var s := RunHead(b, p, cbs, env);
    if s.0.brk then
      BreakStep(b, p, cbs, s.0, s.1);
      (s.0, -1, [s.1])
    else
      var rest := ProcessQueue(s.0, p, cbs, env);
      QueueStep(b, p, cbs, s.0, s.1, rest.0, rest.1, rest.2);
      (rest.0, if rest.1 < 0 then -1 else rest.1 + One(b.evs, s.1.id), [s.1] + rest.2)
  }

  /** One turn of the queue loop: dequeue the head and run its closure. */
  function RunHead(b: Base, p: nat, cbs: Callbacks, env: Env): (r: (Base, Fired))
    requires Valid(b) && p < |b.active| && b.active[p] != []
    ensures Valid(r.0) && r.1.id == b.active[p][0] && r.1.id in b.evs && r.1.res == b.evs[r.1.id].res
    ensures |r.0.active| == |b.active| && r.0.deferred == b.deferred && SameInternal(b.evs, r.0.evs)
    ensures r.0.gotterm == (b.gotterm || (r.1.id in cbs.exits && r.1.calls > 0))
    ensures r.0.eventTv == b.eventTv && r.0.nextId == b.nextId
    ensures r.0.active[p] == b.active[p][1..] && r.0.countActive == b.countActive - 1
    ensures forall q :: 0 <= q < |b.active| && q != p ==> r.0.active[q] == b.active[q]
    ensures forall x :: x in b.evs && x != r.1.id ==> r.0.evs[x] == b.evs[x]
    ensures r.0.brk == (b.brk || (r.1.id in cbs.breaks && r.1.calls > 0))
    ensures Distinct(b.active[p]) && forall x :: x in b.active[p] ==> x in b.evs
  {
    var id := b.active[p][0];
    assert id in b.evs && b.evs[id].pri == p && IsActive(b, id);
    var b1 := Dequeue(b, id);
    var x := RunClosure(b1, id, cbs, env);
    (x.0, Fired(id, b.evs[id].res, x.1))
  }

  lemma BreakStep(b: Base, p: nat, cbs: Callbacks, b2: Base, f: Fired)
    requires p < |b.active| && b.active[p] != []
    requires f.id == b.active[p][0] && f.id in b.evs && f.res == b.evs[f.id].res
    requires |b2.active| == |b.active| && b2.deferred == b.deferred && SameInternal(b.evs, b2.evs)
    requires b2.gotterm == (b.gotterm || (f.id in cbs.exits && f.calls > 0))
    requires b2.eventTv == b.eventTv && b2.nextId == b.nextId
    requires b2.active[p] == b.active[p][1..] && b2.countActive == b.countActive - 1
    requires forall q :: 0 <= q < |b.active| && q != p ==> b2.active[q] == b.active[q]
    requires b2.brk == (b.brk || (f.id in cbs.breaks && f.calls > 0)) && b2.brk
    ensures Drained(b, p, cbs, b2, -1, [f])
  {
    assert b.active[p][..1] == [f.id];
    assert [f][1..] == [];
  }

  lemma QueueStep(b: Base, p: nat, cbs: Callbacks, b2: Base, f: Fired, r: Base, c: int, fired: seq<Fired>)
    requires p < |b.active| && b.active[p] != [] && Distinct(b.active[p])
    requires f.id == b.active[p][0] && f.id in b.evs && f.res == b.evs[f.id].res
    requires forall x :: x in b.active[p] ==> x in b.evs
    requires |b2.active| == |b.active| && b2.deferred == b.deferred && SameInternal(b.evs, b2.evs)
    requires b2.gotterm == (b.gotterm || (f.id in cbs.exits && f.calls > 0))
    requires b2.eventTv == b.eventTv && b2.nextId == b.nextId
    requires b2.active[p] == b.active[p][1..] && b2.countActive == b.countActive - 1
    requires forall q :: 0 <= q < |b.active| && q != p ==> b2.active[q] == b.active[q]
    requires forall x :: x in b.evs && x != f.id ==> b2.evs[x] == b.evs[x]
    requires !b.brk && !b2.brk && !(f.id in cbs.breaks && f.calls > 0)
    requires Drained(b2, p, cbs, r, c, fired)
    ensures Drained(b, p, cbs, r, if c < 0 then -1 else c + One(b.evs, f.id), [f] + fired)
  {
    var q := b.active[p];
    var all := [f] + fired;
    assert Ids(all) == [f.id] + Ids(fired);
    assert all[1..] == fired;
    assert q[..|all|] == [q[0]] + q[1..][..|fired|];
    assert q[|all|..] == q[1..][|fired|..];
    forall i | 0 <= i < |all| ensures all[i].id in b.evs && all[i].res == b.evs[all[i].id].res {
      if i > 0 {
        assert all[i] == fired[i - 1] && Ids(fired)[i - 1] == q[i];
      }
    }
    if c >= 0 {
      ExtFrame(b.evs, b2.evs, q[1..]);
    }
  }

  /**
   * What event_process_deferred_callbacks did: `ran` lists the deferred
   * callbacks it took off the queue, in order; each took one off
   * event_count_active.  A count `c >= 0` means the queue ran dry without
   * a break and counts every callback; -1 means a callback left the break
   * flag set and processing stopped after it.  Nothing else changes.
   */
  predicate Ran(b: Base, cbs: Callbacks, r: Base, c: int, ran: seq<nat>) {
    r == b.(deferred := r.deferred, countActive := r.countActive, brk := r.brk)
    && |ran| <= |b.deferred| && ran == b.deferred[..|ran|] && r.deferred == b.deferred[|ran|..]
    && r.countActive == b.countActive - |ran|
    && (c == -1 || c >= 0)
    && (c >= 0 ==> c == |b.deferred| && ran == b.deferred && r.brk == b.brk)
    && (c >= 0 ==> forall j :: 0 <= j < |ran| ==> ran[j] !in cbs.breaksDeferred)
    && (c == -1 ==> r.brk && ran != [] && (b.brk || ran[|ran| - 1] in cbs.breaksDeferred))
  }

  /** event_process_deferred_callbacks. */
  function ProcessDeferred(b: Base, cbs: Callbacks): (r: (Base, int, seq<nat>))
    requires Valid(b)
    ensures Valid(r.0) && Ran(b, cbs, r.0, r.1, r.2)
    decreases |b.deferred|, 1
  {
    if b.deferred == [] then (b, 0, []) else DeferredHead(b, cbs)
  }

  /** ProcessDeferred on a non-empty queue. */
  function DeferredHead(b: Base, cbs: Callbacks): (r: (Base, int, seq<nat>))
    requires Valid(b) && b.deferred != []
    ensures Valid(r.0) && Ran(b, cbs, r.0, r.1, r.2)
    decreases |b.deferred|, 0
  {
    var d := b.deferred[0];
    var b1 := Unqueued(b, cbs);
    if b1.brk then (b1, -1, [d])
    else
      var rest := ProcessDeferred(b1, cbs);
      DeferredStep(b, cbs, b1, rest.0, rest.1, rest.2);
      (rest.0, if rest.1 < 0 then -1 else rest.1 + 1, [d] + rest.2)
  }

  /** Take the head off the deferred queue and run it. */
  function Unqueued(b: Base, cbs: Callbacks): (r: Base)
    requires Valid(b) && b.deferred != []
    ensures Valid(r) && r.deferred == b.deferred[1..] && r.countActive == b.countActive - 1
    ensures r.brk == (b.brk || b.deferred[0] in cbs.breaksDeferred)
    ensures r == b.(deferred := r.deferred, countActive := r.countActive, brk := r.brk)
  {
    b.(deferred := b.deferred[1..], countActive := b.countActive - 1,
       brk := b.brk || b.deferred[0] in cbs.breaksDeferred)
  }

  lemma DeferredStep(b: Base, cbs: Callbacks, b1: Base, r: Base, c: int, ran: seq<nat>)
    requires b.deferred != [] && b1.deferred == b.deferred[1..] && b1.countActive == b.countActive - 1
    requires b1 == b.(deferred := b1.deferred, countActive := b1.countActive, brk := b1.brk)
    requires !b1.brk && b1.brk == (b.brk || b.deferred[0] in cbs.breaksDeferred)
    requires Ran(b1, cbs, r, c, ran)
    ensures Ran(b, cbs, r, if c < 0 then -1 else c + 1, [b.deferred[0]] + ran)
  {
    assert b.deferred[..|ran| + 1] == [b.deferred[0]] + b1.deferred[..|ran|];
    assert b.deferred[|ran| + 1..] == b1.deferred[|ran|..];
  }

  /** The events event_process_active may visit: the queues, concatenated. */
  function Flatten(qs: seq<seq<Id>>): (r: seq<Id>)
    ensures |r| == SumLen(qs)
  {
    if qs == [] then [] else qs[0] + Flatten(qs[1..])
  }

  /**
   * The first priority from `i` on whose queue holds a non-internal event
   * (|qs| when there is none): where the scan of event_process_active stops.
   */
  function StopAt(evs: map<Id, Event>, qs: seq<seq<Id>>, i: nat): (k: nat)
    requires i <= |qs|
    ensures i <= k <= |qs|
    ensures forall j :: i <= j < k ==> Ext(evs, qs[j]) == 0
    ensures k < |qs| ==> Ext(evs, qs[k]) > 0
    decreases |qs| - i
  {
    if i == |qs| || Ext(evs, qs[i]) > 0 then i else StopAt(evs, qs, i + 1)
  }

  /** One past the last priority the scan from `i` processes. */
  function ScanEnd(evs: map<Id, Event>, qs: seq<seq<Id>>, i: nat): (e: nat)
    requires i <= |qs|
    ensures i <= e <= |qs| && (i < |qs| ==> i < e)
  {
    var k := StopAt(evs, qs, i);
    if k < |qs| then k + 1 else k
  }

  lemma {:induction false} StopFrame(e1: map<Id, Event>, q1: seq<seq<Id>>, e2: map<Id, Event>, q2: seq<seq<Id>>, i: nat)
    requires SameInternal(e1, e2) && |q1| == |q2| && i <= |q1|
    requires forall k :: i <= k < |q1| ==> q1[k] == q2[k]
    ensures StopAt(e1, q1, i) == StopAt(e2, q2, i)
    decreases |q1| - i
  {
    if i < |q1| {
      ExtFrame(e1, e2, q1[i]);
      StopFrame(e1, q1, e2, q2, i + 1);
    }
  }

  /**
   * What the scan of event_process_active over the priorities from `i` did.
   * With `e` the end of the scan, the events of queues i..e-1 in order
   * are `all`; `fired` is a prefix of them and the queues hold the rest;
   * queues outside i..e-1 are untouched.  Without a break every one of them
   * ran and the break flag is as before.
   */
  ghost predicate Levels(b: Base, i: nat, cbs: Callbacks, r: Base, broke: bool, fired: seq<Fired>)
    requires i <= |b.active|
  {
    LevelsFrame(b, i, cbs, r, fired) && LevelsOrder(b, i, r, broke, fired)
  }

  /** What the scan leaves alone: everything but the queues i..e-1, the counter and the request flags. */
  ghost predicate LevelsFrame(b: Base, i: nat, cbs: Callbacks, r: Base, fired: seq<Fired>)
    requires i <= |b.active|
  {
    var e := ScanEnd(b.evs, b.active, i);
    |r.active| == |b.active| && r.deferred == b.deferred && SameInternal(b.evs, r.evs)
    && r.gotterm == (b.gotterm || AnyExit(fired, cbs)) && r.eventTv == b.eventTv && r.nextId == b.nextId
    && (forall k :: 0 <= k < i ==> r.active[k] == b.active[k])
    && (forall k :: e <= k < |b.active| ==> r.active[k] == b.active[k])
    && r.countActive == b.countActive - |fired|
  }

  /** Which events of the queues i..e-1 ran, in order, and the break flag. */
  ghost predicate LevelsOrder(b: Base, i: nat, r: Base, broke: bool, fired: seq<Fired>)
    requires i <= |b.active|
  {
    var e := ScanEnd(b.evs, b.active, i);
    var all := Flatten(b.active[i..e]);
    |r.active| == |b.active|
    && |fired| <= |all| && Ids(fired) == all[..|fired|] && Flatten(r.active[i..e]) == all[|fired|..]
    && (!broke ==> |fired| == |all| && r.brk == b.brk && forall k :: i <= k < e ==> r.active[k] == [])
    && (broke ==> r.brk && fired != [])
  }

  /**
   * The loop of event_process_active from priority `i`: skip empty queues,
   * run the first non-empty one; stop on a break (true), stop after a queue
   * that held a non-internal event, go on after one that held only
   * internal events.
   */
  function ProcessLevels(b: Base, i: nat, cbs: Callbacks, env: Env): (r: (Base, bool, seq<Fired>))
    requires Valid(b) && i <= |b.active|
    ensures Valid(r.0) && Levels(b, i, cbs, r.0, r.1, r.2)
    decreases |b.active| - i
  {
    if i == |b.active| then
      assert b.active[i..i] == [];
      (b, false, [])
    else if b.active[i] == [] then
      var x := ProcessLevels(b, i + 1, cbs, env);
      SkipLevel(b, i, cbs, x.0, x.1, x.2);
      x
    else
      var x := ProcessQueue(b, i, cbs, env);
      if x.1 < 0 then
        BrokeLevel(b, i, cbs, x.0, x.2);
        (x.0, true, x.2)
      else if x.1 > 0 then
        StopLevel(b, i, cbs, x.0, x.1, x.2);
        (x.0, false, x.2)
      else
        var y := ProcessLevels(x.0, i + 1, cbs, env);
        InternalLevel(b, i, cbs, x.0, x.2, y.0, y.1, y.2);
        (y.0, y.1, x.2 + y.2)
  }

  lemma SliceHead(qs: seq<seq<Id>>, i: nat, e: nat)
    requires i < e <= |qs|
    ensures Flatten(qs[i..e]) == qs[i] + Flatten(qs[i + 1..e])
  {
    assert qs[i..e][0] == qs[i] && qs[i..e][1..] == qs[i + 1..e];
  }

  lemma SkipLevel(b: Base, i: nat, cbs: Callbacks, r: Base, broke: bool, fired: seq<Fired>)
    requires i < |b.active| && b.active[i] == []
    requires Levels(b, i + 1, cbs, r, broke, fired)
    ensures Levels(b, i, cbs, r, broke, fired)
  {
    var e := ScanEnd(b.evs, b.active, i);
    assert e == ScanEnd(b.evs, b.active, i + 1);
    SliceHead(b.active, i, e);
    SliceHead(r.active, i, e);
    assert r.active[i] == [];
    assert Flatten(b.active[i..e]) == Flatten(b.active[i + 1..e]);
    assert Flatten(r.active[i..e]) == Flatten(r.active[i + 1..e]);
  }

  lemma StopLevel(b: Base, i: nat, cbs: Callbacks, r: Base, c: int, fired: seq<Fired>)
    requires i < |b.active| && c > 0 && Drained(b, i, cbs, r, c, fired)
    ensures Levels(b, i, cbs, r, false, fired)
  {
    assert ScanEnd(b.evs, b.active, i) == i + 1;
    SliceHead(b.active, i, i + 1);
    SliceHead(r.active, i, i + 1);
  }

  lemma BrokeLevel(b: Base, i: nat, cbs: Callbacks, r: Base, fired: seq<Fired>)
    requires i < |b.active| && Drained(b, i, cbs, r, -1, fired)
    ensures Levels(b, i, cbs, r, true, fired)
  {
    var e := ScanEnd(b.evs, b.active, i);
    var q := b.active[i];
    var tail := Flatten(b.active[i + 1..e]);
    SliceHead(b.active, i, e);
    SliceHead(r.active, i, e);
    assert r.active[i + 1..e] == b.active[i + 1..e];
    assert (q + tail)[..|fired|] == q[..|fired|];
    assert (q + tail)[|fired|..] == q[|fired|..] + tail;
  }

  lemma InternalLevel(b: Base, i: nat, cbs: Callbacks, m: Base, f1: seq<Fired>,
                      r: Base, broke: bool, f2: seq<Fired>)
    requires i < |b.active| && Drained(b, i, cbs, m, 0, f1)
    requires Levels(m, i + 1, cbs, r, broke, f2)
    ensures Levels(b, i, cbs, r, broke, f1 + f2)
  {
    InternalFrame(b, i, cbs, m, f1, r, broke, f2);
    InternalOrder(b, i, cbs, m, f1, r, broke, f2);
  }

  lemma InternalFrame(b: Base, i: nat, cbs: Callbacks, m: Base, f1: seq<Fired>,
                      r: Base, broke: bool, f2: seq<Fired>)
    requires i < |b.active| && Drained(b, i, cbs, m, 0, f1)
    requires Levels(m, i + 1, cbs, r, broke, f2)
    ensures LevelsFrame(b, i, cbs, r, f1 + f2)
  {
    StopFrame(b.evs, b.active, m.evs, m.active, i + 1);
    AnyExitAppend(f1, f2, cbs);
  }

  lemma InternalOrder(b: Base, i: nat, cbs: Callbacks, m: Base, f1: seq<Fired>,
                      r: Base, broke: bool, f2: seq<Fired>)
    requires i < |b.active| && Drained(b, i, cbs, m, 0, f1)
    requires Levels(m, i + 1, cbs, r, broke, f2)
    ensures LevelsOrder(b, i, r, broke, f1 + f2)
  {
    var e := ScanEnd(b.evs, b.active, i);
    assert e == ScanEnd(m.evs, m.active, i + 1) by {
      StopFrame(b.evs, b.active, m.evs, m.active, i + 1);
    }
    IdsAppend(f1, f2);
    JoinSeq(b.active, m.active, r.active, i, e, Ids(f1), Ids(f2));
  }

  /**
   * The queue order of InternalLevel: a whole queue `a` ran, then a prefix
   * `c` of the queues after it.
   */
  lemma JoinSeq(bq: seq<seq<Id>>, mq: seq<seq<Id>>, rq: seq<seq<Id>>, i: nat, e: nat, a: seq<Id>, c: seq<Id>)
    requires i < e <= |bq| && |mq| == |bq| && |rq| == |bq|
    requires a == bq[i] && rq[i] == []
    requires forall k :: i < k < e ==> mq[k] == bq[k]
    requires |c| <= |Flatten(mq[i + 1..e])| && c == Flatten(mq[i + 1..e])[..|c|]
    requires Flatten(rq[i + 1..e]) == Flatten(mq[i + 1..e])[|c|..]
    ensures |a + c| <= |Flatten(bq[i..e])| && a + c == Flatten(bq[i..e])[..|a + c|]
    ensures Flatten(rq[i..e]) == Flatten(bq[i..e])[|a + c|..]
  {
    SameSlice(mq, bq, i + 1, e);
    SliceHead(bq, i, e);
    SliceHead(rq, i, e);
    PrefixJoin(bq[i], Flatten(bq[i + 1..e]), a, c);
  }

  lemma SameSlice(q1: seq<seq<Id>>, q2: seq<seq<Id>>, i: nat, e: nat)
    requires i <= e <= |q1| == |q2|
    requires forall k :: i <= k < e ==> q1[k] == q2[k]
    ensures q1[i..e] == q2[i..e]
  {
  }

  /** A whole queue followed by a prefix of the rest is a prefix of the two joined. */
  lemma PrefixJoin(q: seq<Id>, tail: seq<Id>, a: seq<Id>, c: seq<Id>)
    requires a == q && |c| <= |tail| && c == tail[..|c|]
    ensures a + c == (q + tail)[..|a| + |c|]
    ensures (q + tail)[|a| + |c|..] == tail[|c|..]
  {
    assert (q + tail)[..|a| + |c|] == q + tail[..|c|];
  }

  /**
   * What event_process_active did: the scan over the priorities ran
   * `fired`, a prefix of the events of the queues it visits, and then, unless
   * a callback broke it off, the deferred callbacks ran `ran`, a prefix of
   * the deferred queue.  Without a break everything visited ran.
   */
  ghost predicate ActiveRan(b: Base, cbs: Callbacks, r: Base, fired: seq<Fired>, ran: seq<nat>) {
    var e := ScanEnd(b.evs, b.active, 0);
    var all := Flatten(b.active[0..e]);
    |r.active| == |b.active| && SameInternal(b.evs, r.evs) && r.eventTv == b.eventTv && r.nextId == b.nextId
    && r.gotterm == (b.gotterm || AnyExit(fired, cbs))
    && (forall k :: e <= k < |b.active| ==> r.active[k] == b.active[k])
    && |fired| <= |all| && Ids(fired) == all[..|fired|] && Flatten(r.active[0..e]) == all[|fired|..]
    && |ran| <= |b.deferred| && ran == b.deferred[..|ran|] && r.deferred == b.deferred[|ran|..]
    && r.countActive == b.countActive - |fired| - |ran|
    && (ran != [] ==> |fired| == |all|)
    && (!r.brk ==> !b.brk && |fired| == |all| && ran == b.deferred && forall k :: 0 <= k < e ==> r.active[k] == [])
  }

  /** event_process_active: the priority scan, then the deferred callbacks unless it broke. */
  function ProcessActive(b: Base, cbs: Callbacks, env: Env): (r: (Base, seq<Fired>, seq<nat>))
    requires Valid(b)
    ensures Valid(r.0) && ActiveRan(b, cbs, r.0, r.1, r.2)
  {
    var l := ProcessLevels(b, 0, cbs, env);
    if l.1 then
      assert b.deferred[..0] == [] && b.deferred[0..] == b.deferred;
      (l.0, l.2, [])
    else
      var d := ProcessDeferred(l.0, cbs);
      ActiveJoin(b, cbs, l.0, l.2, d.0, d.1, d.2);
      (d.0, l.2, d.2)
  }

  lemma ActiveJoin(b: Base, cbs: Callbacks, m: Base, fired: seq<Fired>, r: Base, c: int, ran: seq<nat>)
    requires Levels(b, 0, cbs, m, false, fired) && Ran(m, cbs, r, c, ran)
    ensures ActiveRan(b, cbs, r, fired, ran)
  {
  }

  /**
   * `r` differs from `b` only by activations: same loop state, same
   * registrations and lists other than the active queues, and every event
   * active in `b` still active.
   */
  predicate Grows(b: Base, r: Base) {
    SameLoop(b, r) && SameInternal(b.evs, r.evs)
    && r.inserted == b.inserted && r.timers == b.timers && r.countActive >= b.countActive
    && forall x :: x in b.evs && IsActive(b, x) ==> IsActive(r, x)
  }

  lemma GrowsTrans(a: Base, b: Base, c: Base)
    requires Grows(a, b) && Grows(b, c)
    ensures Grows(a, c)
  {
  }

  /**
   * The activations a backend's dispatch makes: event_active with result
   * `res` and one call for each ready event still registered.
   */
  function Deliver(b: Base, ready: seq<(Id, set<Kind>)>): (r: Base)
    requires Valid(b)
    ensures Valid(r) && Grows(b, r)
    ensures forall j :: 0 <= j < |ready| && ready[j].0 in b.evs ==> IsActive(r, ready[j].0)
    decreases |ready|, 1
  {
    if ready == [] then b else DeliverFirst(b, ready)
  }

  /** Deliver on a non-empty list. */
  function DeliverFirst(b: Base, ready: seq<(Id, set<Kind>)>): (r: Base)
    requires Valid(b) && ready != []
    ensures Valid(r) && Grows(b, r)
    ensures forall j :: 0 <= j < |ready| && ready[j].0 in b.evs ==> IsActive(r, ready[j].0)
    decreases |ready|, 0
  {
    var b1 := DeliverOne(b, ready[0].0, ready[0].1);
    var r := Deliver(b1, ready[1..]);
    GrowsTrans(b, b1, r);
    assert forall j :: 0 <= j < |ready| && ready[j].0 in b.evs ==> IsActive(r, ready[j].0) by {
      forall j | 0 <= j < |ready| && ready[j].0 in b.evs ensures IsActive(r, ready[j].0) {
        if j > 0 {
          assert ready[j] == ready[1..][j - 1];
          assert ready[j].0 in b1.evs;
        }
      }
    }
    r
  }

  /** One ready event: event_active when it is still registered. */
  function DeliverOne(b: Base, id: Id, res: set<Kind>): (r: Base)
    requires Valid(b)
    ensures Valid(r) && Grows(b, r) && (id in b.evs ==> IsActive(r, id))
  {
    if id in b.evs then
      ActiveStays(b, id, res, 1);
      ActiveInternal(b, id, res, 1)
    else b
  }

  /** event_active_internal leaves every active event active. */
  lemma ActiveStays(b: Base, id: Id, res: set<Kind>, ncalls: nat)
    requires Valid(b) && id in b.evs
    ensures Grows(b, ActiveInternal(b, id, res, ncalls))
  {
    var r := ActiveInternal(b, id, res, ncalls);
    forall x | x in b.evs && IsActive(b, x) ensures IsActive(r, x) {
      if x != id && !IsActive(b, id) {
        assert r.evs[x] == b.evs[x];
        assert x in r.active[b.evs[x].pri];
      }
    }
  }
}
