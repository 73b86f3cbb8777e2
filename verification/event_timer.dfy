/**
 * The timer heap as the loop uses it: the earliest deadline
 * (min_heap_top), how long the backend may block (timeout_next), the
 * correction for a clock that ran backwards (timeout_correct) and the
 * expiry of due timers (timeout_process).
 */
module EventTimer {
  import opened Basics
  import opened EventBase
  import opened EventQueue
  import opened EventOps

  /** Every member of `s` is registered. */
  predicate AllIn(evs: map<Id, Event>, s: seq<Id>) {
    forall x :: x in s ==> x in evs
  }

  /**
   * min_heap_top over `s`: an event with the smallest deadline, the first
   * of them in heap order (the heap's tie-break is not modelled).
   */
  function Earliest(evs: map<Id, Event>, s: seq<Id>): (r: Option<Id>)
    requires AllIn(evs, s)
    ensures r.None? <==> s == []
    ensures r.Some? ==> r.value in s && forall x :: x in s ==> evs[r.value].deadline <= evs[x].deadline
  {
    if s == [] then None
    else
      match Earliest(evs, s[1..])
      case None => Some(s[0])
      case Some(m) => if evs[s[0]].deadline <= evs[m].deadline then Some(s[0]) else Some(m)
  }

  /** The base's earliest timer. */
  function MinTimer(b: Base): (r: Option<Id>)
    requires Valid(b)
    ensures r.None? <==> b.timers == []
    ensures r.Some? ==> r.value in b.timers && r.value in b.evs
    ensures r.Some? ==> forall x :: x in b.timers ==> b.evs[r.value].deadline <= b.evs[x].deadline
  {
    Earliest(b.evs, b.timers)
  }

  /** The time from `now` to a deadline, 0 once it has passed. */
  function Remaining(deadline: int, now: int): nat {
    if deadline <= now then 0 else deadline - now
  }

  /**
   * timeout_next: with no timer the backend may block indefinitely (None);
   * otherwise it may block until the earliest deadline, not at all when
   * that deadline has passed.
   */
  function TimeoutNext(b: Base, now: int): (r: Option<nat>)
    requires Valid(b)
    ensures r.None? <==> b.timers == []
    ensures r.Some? ==> forall x :: x in b.timers ==> r.value <= Remaining(b.evs[x].deadline, now)
    ensures r.Some? ==> exists x :: x in b.timers && r.value == Remaining(b.evs[x].deadline, now)
    ensures r == Some(0) <==> exists x :: x in b.timers && b.evs[x].deadline <= now
  {
    match MinTimer(b)
    case None => None
    case Some(m) =>
      var t := Remaining(b.evs[m].deadline, now);
      assert forall x :: x in b.timers ==> t <= Remaining(b.evs[x].deadline, now);
      Some(t)
  }

  /** The events' records after every timer's deadline moved back by `off`. */
  function Shifted(b: Base, off: int): (evs: map<Id, Event>)
    ensures evs.Keys == b.evs.Keys
    ensures forall x :: x in b.evs ==> evs[x] == if x in b.timers then b.evs[x].(deadline := b.evs[x].deadline - off) else b.evs[x]
  {
    map x | x in b.evs :: if x in b.timers then b.evs[x].(deadline := b.evs[x].deadline - off) else b.evs[x]
  }

  /** New records with the same ids, priorities and EVLIST_INTERNAL bits keep the base valid. */
  lemma RerecordValid(b: Base, evs: map<Id, Event>)
    requires Valid(b) && SameInternal(b.evs, evs)
    requires forall x :: x in b.evs ==> evs[x].pri == b.evs[x].pri
    ensures Valid(b.(evs := evs))
  {
    ExtFrame(b.evs, evs, b.inserted);
    ExtFrame(b.evs, evs, b.timers);
    SumExtFrame(b.evs, evs, b.active);
  }

  /**
   * timeout_correct.  With a monotonic clock nothing happens.  A clock at
   * or after event_tv becomes the new event_tv.  A clock behind event_tv
   * moves every timer's deadline back by the difference; event_tv itself
   * is left as it was.
   */
  function TimeoutCorrect(b: Base, now: int, monotonic: bool): (r: Base)
    requires Valid(b)
    ensures Valid(r) && r.inserted == b.inserted && r.timers == b.timers && r.active == b.active
    ensures r.evs.Keys == b.evs.Keys && r.deferred == b.deferred && r.countActive == b.countActive
    ensures r.eventCount == b.eventCount && r.brk == b.brk && r.gotterm == b.gotterm
    ensures monotonic ==> r == b
    ensures !monotonic && now >= b.eventTv ==> r == b.(eventTv := now)
    ensures !monotonic && now < b.eventTv ==>
              r.eventTv == b.eventTv
              && (forall x :: x in b.timers ==> r.evs[x].deadline - now == b.evs[x].deadline - b.eventTv)
              && (forall x :: x in b.evs && x !in b.timers ==> r.evs[x] == b.evs[x])
  {
    if monotonic then b
    else if now >= b.eventTv then b.(eventTv := now)
    else
      var evs := Shifted(b, b.eventTv - now);
      assert SameInternal(b.evs, evs);
      RerecordValid(b, evs);
      b.(evs := evs)
  }

  /** A correction keeps the timers' order: the earliest timer stays the earliest. */
  lemma CorrectKeepsOrder(b: Base, now: int, monotonic: bool, x: Id, y: Id)
    requires Valid(b) && x in b.timers && y in b.timers
    ensures var r := TimeoutCorrect(b, now, monotonic);
            r.evs[x].deadline <= r.evs[y].deadline <==> b.evs[x].deadline <= b.evs[y].deadline
  {
  }

  /** Moving every deadline of `s` by the same amount does not change which timer is earliest. */
  lemma {:induction false} EarliestShift(e1: map<Id, Event>, e2: map<Id, Event>, s: seq<Id>, off: int)
    requires AllIn(e1, s) && AllIn(e2, s)
    requires forall x :: x in s ==> e2[x].deadline == e1[x].deadline - off
    ensures Earliest(e2, s) == Earliest(e1, s)
  {
    if s != [] {
      EarliestShift(e1, e2, s[1..], off);
    }
  }

  /** After a correction the heap's top is the same event. */
  lemma CorrectKeepsEarliest(b: Base, now: int, monotonic: bool)
    requires Valid(b)
    ensures MinTimer(TimeoutCorrect(b, now, monotonic)) == MinTimer(b)
  {
    var r := TimeoutCorrect(b, now, monotonic);
    if !monotonic && now < b.eventTv {
      EarliestShift(b.evs, r.evs, b.timers, b.eventTv - now);
    }
  }

  /** Timers of `s` still pending at `now`, in order. */
  function Pending(evs: map<Id, Event>, s: seq<Id>, now: int): (r: seq<Id>)
    requires AllIn(evs, s)
    ensures forall x :: x in r <==> x in s && evs[x].deadline > now
  {
    if s == [] then []
    else if evs[s[0]].deadline > now then [s[0]] + Pending(evs, s[1..], now)
    else Pending(evs, s[1..], now)
  }

  lemma {:induction false} PendingFrame(e1: map<Id, Event>, e2: map<Id, Event>, s: seq<Id>, now: int)
    requires AllIn(e1, s) && AllIn(e2, s)
    requires forall x :: x in s ==> e1[x].deadline == e2[x].deadline
    ensures Pending(e1, s, now) == Pending(e2, s, now)
  {
    if s != [] {
      PendingFrame(e1, e2, s[1..], now);
    }
  }

  lemma {:induction false} PendingWithout(evs: map<Id, Event>, s: seq<Id>, m: Id, now: int)
    requires AllIn(evs, s) && m in evs && evs[m].deadline <= now
    ensures AllIn(evs, Without(s, m))
    ensures Pending(evs, Without(s, m), now) == Pending(evs, s, now)
  {
    if s != [] && s[0] != m {
      PendingWithout(evs, s[1..], m, now);
      assert ([s[0]] + Without(s[1..], m))[1..] == Without(s[1..], m);
    }
  }

  /**
   * One round of timeout_process's loop: the expired event is deleted from
   * every list and made active with result EV_TIMEOUT and one call.
   */
  function Expire(b: Base, id: Id): (r: Base)
    requires Valid(b) && id in b.evs
    ensures Valid(r) && SameLoop(b, r) && r.evs.Keys == b.evs.Keys
    ensures r.timers == Without(b.timers, id) && r.inserted == Without(b.inserted, id)
    ensures IsActive(r, id) && r.evs[id].res == {Timeout}
    ensures forall x :: x in b.evs ==> r.evs[x].deadline == b.evs[x].deadline
    ensures forall x :: x in b.evs && x != id ==> r.evs[x] == b.evs[x] && (IsActive(r, x) <==> IsActive(b, x))
  {
    var d := DelInternal(b, id, true).0;
    var r := ActiveInternal(d, id, {Timeout}, 1);
    ExpireActive(b, id, d, r);
    r
  }

  lemma ExpireActive(b: Base, id: Id, d: Base, r: Base)
    requires Valid(b) && id in b.evs && Valid(d) && Valid(r)
    requires d.evs.Keys == b.evs.Keys && r.evs.Keys == b.evs.Keys && |d.active| == |b.active|
    requires forall x :: x in b.evs && x != id ==> d.evs[x] == b.evs[x] && r.evs[x] == b.evs[x]
    requires d.active == b.active[b.evs[id].pri := Without(b.active[b.evs[id].pri], id)]
    requires d.evs[id].pri == b.evs[id].pri && !IsActive(d, id)
    requires r.active == d.active[d.evs[id].pri := d.active[d.evs[id].pri] + [id]]
    ensures forall x :: x in b.evs && x != id ==> (IsActive(r, x) <==> IsActive(b, x))
  {
    var p := b.evs[id].pri;
    forall x | x in b.evs && x != id ensures IsActive(r, x) <==> IsActive(b, x) {
      var q := b.evs[x].pri;
      if q == p {
        assert x in Without(b.active[p], id) <==> x in b.active[p];
      }
    }
  }

  /** `s` is ordered by the deadlines in `evs`. */
  predicate ByDeadline(evs: map<Id, Event>, s: seq<Id>)
    requires AllIn(evs, s)
  {
    forall i, j :: 0 <= i < j < |s| ==> evs[s[i]].deadline <= evs[s[j]].deadline
  }

  /**
   * What timeout_process promises of its run from `b` to `r`, firing
   * `fired`: the timers left are those pending at `now`, in order; the
   * fired events are exactly the timers due at `now`, each once, by
   * deadline, and each is active with result EV_TIMEOUT; no deadline moves
   * and every other event is as it was, active or not as before.
   */
  ghost predicate Expired(b: Base, now: int, r: Base, fired: seq<Id>) {
    r.evs.Keys == b.evs.Keys && AllIn(b.evs, b.timers) && AllIn(b.evs, fired)
    && r.timers == Pending(b.evs, b.timers, now)
    && (forall x :: x in fired <==> x in b.timers && b.evs[x].deadline <= now)
    && Distinct(fired) && ByDeadline(b.evs, fired)
    && (forall x :: x in fired ==> IsActive(r, x) && r.evs[x].res == {Timeout})
    && (forall x :: x in b.evs ==> r.evs[x].deadline == b.evs[x].deadline)
    && (forall x :: x in b.evs && x !in fired ==> r.evs[x] == b.evs[x] && (IsActive(r, x) <==> IsActive(b, x)))
  }

  /**
   * timeout_process.  While the earliest timer is due at `now` it expires
   * (Expire).  Returns the base and the expired events in the order they
   * fired.
   */
  function TimeoutProcess(b: Base, now: int): (r: (Base, seq<Id>))
    requires Valid(b)
    ensures Valid(r.0) && SameLoop(b, r.0) && Expired(b, now, r.0, r.1)
    decreases |b.timers|
  {
    match MinTimer(b)
    case None => (b, [])
    case Some(m) =>
      if b.evs[m].deadline > now then
        assert forall x :: x in b.timers ==> b.evs[x].deadline > now;
        PendingAll(b.evs, b.timers, now);
        (b, [])
      else
        var b1 := Expire(b, m);
        WithoutDistinct(b.timers, m);
        var rest := TimeoutProcess(b1, now);
        ExpireStep(b, now, m, b1, rest.0, rest.1);
        (rest.0, [m] + rest.1)
  }

  /** One expiry followed by the rest of the run is a run. */
  lemma ExpireStep(b: Base, now: int, m: Id, b1: Base, r: Base, fired: seq<Id>)
    requires Distinct(b.timers) && AllIn(b.evs, b.timers) && m in b.timers && b.evs[m].deadline <= now
    requires forall x :: x in b.timers ==> b.evs[m].deadline <= b.evs[x].deadline
    requires b1.evs.Keys == b.evs.Keys && b1.timers == Without(b.timers, m) && m !in b1.timers
    requires IsActive(b1, m) && b1.evs[m].res == {Timeout}
    requires forall x :: x in b.evs ==> b1.evs[x].deadline == b.evs[x].deadline
    requires forall x :: x in b.evs && x != m ==> b1.evs[x] == b.evs[x] && (IsActive(b1, x) <==> IsActive(b, x))
    requires Expired(b1, now, r, fired)
    ensures Expired(b, now, r, [m] + fired)
  {
    StepPending(b, now, m, b1, r);
    StepMembers(b, now, m, b1, fired);
    StepOrder(b, m, fired);
    StepActive(b, m, b1, r, fired);
  }

  lemma {:induction false} PendingAll(evs: map<Id, Event>, s: seq<Id>, now: int)
    requires AllIn(evs, s) && forall x :: x in s ==> evs[x].deadline > now
    ensures Pending(evs, s, now) == s
  {
    if s != [] {
      PendingAll(evs, s[1..], now);
    }
  }

  /** After one expiry the remaining timers are still those pending at `now`. */
  lemma StepPending(b: Base, now: int, m: Id, b1: Base, r: Base)
    requires AllIn(b.evs, b.timers) && m in b.evs && b.evs[m].deadline <= now
    requires b1.evs.Keys == b.evs.Keys && b1.timers == Without(b.timers, m)
    requires forall x :: x in b.evs ==> b1.evs[x].deadline == b.evs[x].deadline
    requires AllIn(b1.evs, b1.timers) && r.timers == Pending(b1.evs, b1.timers, now)
    ensures r.timers == Pending(b.evs, b.timers, now)
  {
    PendingFrame(b1.evs, b.evs, b1.timers, now);
    PendingWithout(b.evs, b.timers, m, now);
  }

  /** The expired event and those that expire after it are exactly the due timers. */
  lemma StepMembers(b: Base, now: int, m: Id, b1: Base, fired: seq<Id>)
    requires AllIn(b.evs, b.timers) && m in b.timers && b.evs[m].deadline <= now
    requires b1.evs.Keys == b.evs.Keys && b1.timers == Without(b.timers, m) && m !in b1.timers
    requires forall x :: x in b.evs ==> b1.evs[x].deadline == b.evs[x].deadline
    requires forall x :: x in fired <==> x in b1.timers && b1.evs[x].deadline <= now
    ensures m !in fired && AllIn(b.evs, [m] + fired)
    ensures forall x :: x in [m] + fired <==> x in b.timers && b.evs[x].deadline <= now
  {
  }

  /** ... once each, by deadline. */
  lemma StepOrder(b: Base, m: Id, fired: seq<Id>)
    requires AllIn(b.evs, [m] + fired) && m !in fired && Distinct(fired)
    requires forall x :: x in fired ==> b.evs[m].deadline <= b.evs[x].deadline
    requires ByDeadline(b.evs, fired)
    ensures Distinct([m] + fired) && ByDeadline(b.evs, [m] + fired)
  {
    var f := [m] + fired;
    forall i, j | 0 <= i < j < |f| ensures b.evs[f[i]].deadline <= b.evs[f[j]].deadline {
      assert f[j] == fired[j - 1];
      if i > 0 { assert f[i] == fired[i - 1]; }
    }
    DistinctCons(m, fired);
  }

  lemma DistinctCons<T>(x: T, s: seq<T>)
    requires Distinct(s) && x !in s
    ensures Distinct([x] + s)
  {
    var f := [x] + s;
    forall i, j | 0 <= i < j < |f| ensures f[i] != f[j] {
      assert f[j] == s[j - 1];
      if i > 0 { assert f[i] == s[i - 1]; }
    }
  }

  /** Every expired event is active with EV_TIMEOUT; the other events are as they were. */
  lemma StepActive(b: Base, m: Id, b1: Base, r: Base, fired: seq<Id>)
    requires m in b.evs && b1.evs.Keys == b.evs.Keys && r.evs.Keys == b.evs.Keys && m !in fired
    requires IsActive(b1, m) && b1.evs[m].res == {Timeout}
    requires forall x :: x in b.evs ==> b1.evs[x].deadline == b.evs[x].deadline
    requires forall x :: x in b.evs && x != m ==> b1.evs[x] == b.evs[x] && (IsActive(b1, x) <==> IsActive(b, x))
    requires forall x :: x in fired ==> x in r.evs && IsActive(r, x) && r.evs[x].res == {Timeout}
    requires forall x :: x in b1.evs ==> r.evs[x].deadline == b1.evs[x].deadline
    requires forall x :: x in b1.evs && x !in fired ==> r.evs[x] == b1.evs[x] && (IsActive(r, x) <==> IsActive(b1, x))
    ensures forall x :: x in [m] + fired ==> x in r.evs && IsActive(r, x) && r.evs[x].res == {Timeout}
    ensures forall x :: x in b.evs ==> r.evs[x].deadline == b.evs[x].deadline
    ensures forall x :: x in b.evs && x !in [m] + fired ==> r.evs[x] == b.evs[x] && (IsActive(r, x) <==> IsActive(b, x))
  {
  }
}
