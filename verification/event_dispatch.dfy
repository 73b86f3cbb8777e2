/**
 * event_base_loop: the loop around the backend's dispatch, with the
 * EVLOOP_ONCE and EVLOOP_NONBLOCK flags and the loopbreak and loopexit
 * requests.
 *
 * The loop is driven by a sequence of ticks, one per call of the backend's
 * dispatch: what the backend reported ready (None when dispatch fails) and
 * the clock read right after it.  The clock read is cached in tv_cache, so
 * the same reading serves the timers, the callbacks and the next
 * iteration's timeout_correct; the first iteration uses the reading the
 * loop starts with.
 */
module EventDispatch {
  import opened Basics
  import opened EventBase
  import opened EventOps
  import opened EventTimer
  import opened EventLoop

  /** EVLOOP_ONCE and EVLOOP_NONBLOCK. */
  datatype LoopFlags = LoopFlags(once: bool, nonblock: bool)

  /** use_monotonic, and the answers of the allocator and the backend's add. */
  datatype Platform = Platform(monotonic: bool, heapOk: bool, mapOk: bool)

  /** One dispatch: the events it found ready, or None when it failed, and the clock after it. */
  datatype Tick = Tick(ready: Option<seq<(Id, set<Kind>)>>, now: int)

  /**
   * One pass of the loop.  `Stopped` is a return from event_base_loop before
   * or at the dispatch with its result; `Polled` is a pass that called the
   * dispatch with timeout `wait` (None: block until an event) and `done`
   * says the loop ends with 0 after it.
   */
  datatype Turn = Stopped(base: Base, code: int) | Polled(base: Base, wait: Option<nat>, done: bool)

  /** How a run of the loop ended: with a return value, or still running when the ticks ran out. */
  datatype Outcome = Exited(code: int) | Running

  /**
   * One pass of event_base_loop: a pending loopexit or loopbreak request is
   * consumed and ends the loop with 0; otherwise the pass goes on to the
   * dispatch (Poll).
   */
  function Iterate(b: Base, flags: LoopFlags, cbs: Callbacks, plat: Platform, before: int, t: Tick): (r: Turn)
    requires Valid(b)
    ensures Valid(r.base)
    ensures b.gotterm ==> r == Stopped(b.(gotterm := false), 0)
    ensures !b.gotterm && b.brk ==> r == Stopped(b.(brk := false), 0)
    ensures !b.gotterm && !b.brk ==> r == Poll(b, flags, cbs, plat, before, t)
  {
    if b.gotterm then
      FlagsValid(b, false, b.brk);
      Stopped(b.(gotterm := false), 0)
    else if b.brk then
      FlagsValid(b, false, false);
      Stopped(b.(brk := false), 0)
    else Poll(b, flags, cbs, plat, before, t)
  }

  /** The loop's request flags do not enter the invariant. */
  lemma FlagsValid(b: Base, gotterm: bool, brk: bool)
    requires Valid(b)
    ensures Valid(b.(gotterm := gotterm, brk := brk))
  {
  }

  /**
   * The pass without a pending request: timeout_correct, the wait the
   * dispatch gets (none with events active or under EVLOOP_NONBLOCK,
   * else timeout_next), a return of 1 when nothing is registered or
   * active, event_tv set, then the dispatch: -1 when it fails.
   */
  function Poll(b: Base, flags: LoopFlags, cbs: Callbacks, plat: Platform, before: int, t: Tick): (r: Turn)
    requires Valid(b) && !b.gotterm && !b.brk
    ensures Valid(r.base)
    ensures (r.Stopped? && r.code == 1) <==> b.eventCount == 0 && b.countActive == 0
    ensures r.Stopped? && r.code == 1 ==> r.base.eventCount == 0 && r.base.countActive == 0
    ensures b.eventCount > 0 || b.countActive > 0 ==> (r.Stopped? <==> t.ready.None?) && (r.Stopped? ==> r.code == -1)
    ensures r.Polled? && (flags.nonblock || b.countActive > 0) ==> r.wait == Some(0)
    ensures r.Polled? && !flags.nonblock && b.countActive == 0 ==>
              r.wait == TimeoutNext(TimeoutCorrect(b, before, plat.monotonic), before)
    ensures r.Polled? && r.done ==> r.base.countActive == 0 && (flags.once || flags.nonblock)
    ensures r.Polled? && r.base.brk ==> !r.done || (flags.once && r.base.countActive == 0)
  {
    var b1 := TimeoutCorrect(b, before, plat.monotonic);
    var wait := if b1.countActive == 0 && !flags.nonblock then TimeoutNext(b1, before) else Some(0);
    if b1.eventCount == 0 && b1.countActive == 0 then Stopped(b1, 1)
    else
      ClockValid(b1, before);
      Dispatch(b1.(eventTv := before), flags, cbs, plat, wait, t)
  }

  /** Recording the clock in event_tv keeps the invariant. */
  lemma ClockValid(b: Base, now: int)
    requires Valid(b)
    ensures Valid(b.(eventTv := now))
  {
  }

  /** The backend's dispatch with timeout `wait`, and what follows it. */
  function Dispatch(b: Base, flags: LoopFlags, cbs: Callbacks, plat: Platform, wait: Option<nat>, t: Tick): (r: Turn)
    requires Valid(b)
    ensures Valid(r.base)
    ensures r.Stopped? <==> t.ready.None?
    ensures r.Stopped? ==> r.code == -1
    ensures r.Polled? ==> r.wait == wait
    ensures r.Polled? && r.done ==> r.base.countActive == 0 && (flags.once || flags.nonblock)
    ensures r.Polled? && !b.brk && r.base.brk ==> !r.done || (flags.once && r.base.countActive == 0)
  {
    match t.ready
    case None => Stopped(b, -1)
    case Some(ready) =>
      var x := AfterDispatch(b, flags, cbs, plat, ready, t.now);
      Polled(x.0, wait, x.1)
  }

  /**
   * The rest of the pass: the backend's activations, timeout_process, and
   * event_process_active when anything is active.  The flag says the loop
   * is done: EVLOOP_ONCE after processing left nothing active, or
   * EVLOOP_NONBLOCK when there was nothing to process.
   */
  function AfterDispatch(b: Base, flags: LoopFlags, cbs: Callbacks, plat: Platform,
                         ready: seq<(Id, set<Kind>)>, now: int): (r: (Base, bool))
    requires Valid(b)
    ensures Valid(r.0) && r.0.nextId == b.nextId
    ensures r.1 ==> r.0.countActive == 0 && (flags.once || flags.nonblock)
    ensures !b.brk && r.0.brk ==> !r.1 || (flags.once && r.0.countActive == 0)
  {
    var b3 := Deliver(b, ready);
    var b4 := TimeoutProcess(b3, now).0;
    if b4.countActive > 0 then
      var b5 := ProcessActive(b4, cbs, Env(now, plat.heapOk, plat.mapOk)).0;
      (b5, b5.countActive == 0 && flags.once)
    else (b4, flags.nonblock)
  }

  /**
   * event_base_loop over `ticks`: passes until one returns, or until the
   * ticks run out (Running).  Returns the base, the outcome and the wait
   * each dispatch got.
   */
  function Loop(b: Base, flags: LoopFlags, cbs: Callbacks, plat: Platform, before: int, ticks: seq<Tick>)
    : (r: (Base, Outcome, seq<Option<nat>>))
    requires Valid(b)
    ensures Valid(r.0) && |r.2| <= |ticks|
    ensures r.1.Running? ==> |r.2| == |ticks|
    decreases |ticks|
  {
    if ticks == [] then (b, Running, [])
    else
      match Iterate(b, flags, cbs, plat, before, ticks[0])
      case Stopped(b1, c) => (b1, Exited(c), [])
      case Polled(b1, w, done) =>
        if done then (b1, Exited(0), [w])
        else
          var rest := Loop(b1, flags, cbs, plat, ticks[0].now, ticks[1..]);
          (rest.0, rest.1, [w] + rest.2)
  }

  /**
   * event_base_loop returns -1, 0 or 1, and 1 only when nothing is
   * registered or active.
   */
  lemma {:induction false} LoopCodes(b: Base, flags: LoopFlags, cbs: Callbacks, plat: Platform, before: int, ticks: seq<Tick>)
    requires Valid(b)
    ensures var r := Loop(b, flags, cbs, plat, before, ticks);
            (r.1.Exited? ==> r.1.code == -1 || r.1.code == 0 || r.1.code == 1)
            && (r.1 == Exited(1) ==> r.0.eventCount == 0 && r.0.countActive == 0)
    decreases |ticks|
  {
    if ticks != [] {
      var turn := Iterate(b, flags, cbs, plat, before, ticks[0]);
      if turn.Polled? && !turn.done {
        LoopCodes(turn.base, flags, cbs, plat, ticks[0].now, ticks[1..]);
      }
    }
  }

  /** Every dispatch was a poll with a zero timeout. */
  predicate Immediate(waits: seq<Option<nat>>) {
    forall i :: 0 <= i < |waits| ==> waits[i] == Some(0)
  }

  /** Under EVLOOP_NONBLOCK every dispatch is a poll with a zero timeout. */
  lemma {:induction false} LoopNonblock(b: Base, flags: LoopFlags, cbs: Callbacks, plat: Platform, before: int, ticks: seq<Tick>)
    requires Valid(b) && flags.nonblock
    ensures Immediate(Loop(b, flags, cbs, plat, before, ticks).2)
    decreases |ticks|
  {
    if ticks != [] {
      var turn := Iterate(b, flags, cbs, plat, before, ticks[0]);
      if turn.Polled? {
        assert turn.wait == Some(0);
        if !turn.done {
          var rest := Loop(turn.base, flags, cbs, plat, ticks[0].now, ticks[1..]);
          LoopNonblock(turn.base, flags, cbs, plat, ticks[0].now, ticks[1..]);
          assert Loop(b, flags, cbs, plat, before, ticks).2 == [turn.wait] + rest.2;
          ImmediateCons(turn.wait, rest.2);
        }
      }
    }
  }

  lemma ImmediateCons(w: Option<nat>, ws: seq<Option<nat>>)
    requires w == Some(0) && Immediate(ws)
    ensures Immediate([w] + ws)
  {
    assert forall i :: 1 <= i < |ws| + 1 ==> ([w] + ws)[i] == ws[i - 1];
  }

  /**
   * Without EVLOOP_ONCE or EVLOOP_NONBLOCK the loop only returns 0 by
   * consuming a request, and a loopexit request is cleared when it is.
   */
  lemma {:induction false} LoopExitClears(b: Base, flags: LoopFlags, cbs: Callbacks, plat: Platform, before: int, ticks: seq<Tick>)
    requires Valid(b) && !flags.once && !flags.nonblock
    ensures var r := Loop(b, flags, cbs, plat, before, ticks);
            r.1 == Exited(0) ==> !r.0.gotterm
    decreases |ticks|
  {
    if ticks != [] {
      var turn := Iterate(b, flags, cbs, plat, before, ticks[0]);
      if turn.Polled? && !turn.done {
        LoopExitClears(turn.base, flags, cbs, plat, ticks[0].now, ticks[1..]);
      }
    }
  }

  /**
   * The loop as it should start: a loopbreak or loopexit request left over
   * from an earlier run is dropped on entry, so a request only ends the run
   * it was made in.
   */
  function LoopEntry(b: Base, flags: LoopFlags, cbs: Callbacks, plat: Platform, before: int, ticks: seq<Tick>)
    : (r: (Base, Outcome, seq<Option<nat>>))
    requires Valid(b)
    ensures Valid(r.0) && |r.2| <= |ticks|
    ensures r.1 == Exited(1) ==> r.0.eventCount == 0 && r.0.countActive == 0
  {
    FlagsValid(b, false, false);
    LoopCodes(b.(gotterm := false, brk := false), flags, cbs, plat, before, ticks);
    Loop(b.(gotterm := false, brk := false), flags, cbs, plat, before, ticks)
  }

  /** With the corrected entry, a loop with something registered dispatches at least once or fails. */
  lemma EntryDispatches(b: Base, flags: LoopFlags, cbs: Callbacks, plat: Platform, before: int, ticks: seq<Tick>)
    requires Valid(b) && (b.eventCount > 0 || b.countActive > 0) && ticks != []
    ensures var r := LoopEntry(b, flags, cbs, plat, before, ticks); |r.2| >= 1 || r.1 == Exited(-1)
  {
    var c := b.(gotterm := false, brk := false);
    FlagsValid(b, false, false);
    assert Iterate(c, flags, cbs, plat, before, ticks[0]) == Poll(c, flags, cbs, plat, before, ticks[0]);
  }

  /** Nothing active, no timers, exactly one deferred callback queued. */
  predicate Quiet(b: Base) {
    Valid(b) && b.timers == [] && (forall p :: 0 <= p < |b.active| ==> b.active[p] == []) && |b.deferred| == 1
  }

  /**
   * The setting of the stale-break defect: a quiet base with at least one
   * event registered, no request pending, and a deferred callback that
   * calls event_base_loopbreak.
   */
  predicate StaleSetup(b: Base, cbs: Callbacks) {
    Quiet(b) && !b.brk && !b.gotterm && b.eventCount > 0 && b.deferred[0] in cbs.breaksDeferred
  }

  /** The base once the deferred callback has run and asked for a break. */
  function StaleAfter(b: Base): (r: Base)
    requires Quiet(b)
    ensures r.brk && r.countActive == 0 && r.deferred == [] && r.evs == b.evs && r.eventCount == b.eventCount
  {
    SumEmpty(b.evs, b.active);
    b.(deferred := [], countActive := b.countActive - 1, brk := true)
  }

  /** With every active queue empty the priority scan does nothing. */
  lemma {:induction false} EmptyLevels(b: Base, i: nat, cbs: Callbacks, env: Env)
    requires Valid(b) && i <= |b.active| && forall p :: 0 <= p < |b.active| ==> b.active[p] == []
    ensures ProcessLevels(b, i, cbs, env) == (b, false, [])
    decreases |b.active| - i
  {
    if i < |b.active| {
      EmptyLevels(b, i + 1, cbs, env);
    }
  }

  lemma StaleActive(b: Base, cbs: Callbacks, env: Env)
    requires StaleSetup(b, cbs)
    ensures ProcessActive(b, cbs, env) == (StaleAfter(b), [], b.deferred)
  {
    EmptyLevels(b, 0, cbs, env);
    assert b.deferred[1..] == [] && [b.deferred[0]] == b.deferred;
    assert Unqueued(b, cbs) == StaleAfter(b);
    assert DeferredHead(b, cbs) == (StaleAfter(b), -1, b.deferred);
  }

  lemma StaleDispatch(b: Base, cbs: Callbacks, plat: Platform, now: int)
    requires StaleSetup(b, cbs)
    ensures AfterDispatch(b, LoopFlags(true, false), cbs, plat, [], now) == (StaleAfter(b), true)
  {
    assert Deliver(b, []) == b;
    assert TimeoutProcess(b, now).0 == b;
    StaleActive(b, cbs, Env(now, plat.heapOk, plat.mapOk));
  }

  /** The pass of an EVLOOP_ONCE run in the stale-break setting ends the run with the break flag still set. */
  lemma StaleFirstRun(b: Base, cbs: Callbacks, plat: Platform, before: int, t: Tick)
    requires StaleSetup(b, cbs) && t.ready == Some([])
    ensures var r := Loop(b, LoopFlags(true, false), cbs, plat, before, [t]);
            r.1 == Exited(0) && r.2 == [Some(0)] && r.0.brk && r.0.evs.Keys == b.evs.Keys && r.0.eventCount == b.eventCount
  {
    var b1 := TimeoutCorrect(b, before, plat.monotonic);
    ClockValid(b1, before);
    var b2 := b1.(eventTv := before);
    assert StaleSetup(b2, cbs);
    StaleDispatch(b2, cbs, plat, t.now);
    assert Poll(b, LoopFlags(true, false), cbs, plat, before, t) == Polled(StaleAfter(b2), Some(0), true);
  }

  /**
   * As written, an EVLOOP_ONCE run whose last callback calls
   * event_base_loopbreak ends with done = 1 and leaves event_break set; the
   * next run of the loop, whatever its flags, consumes it and returns 0 at
   * once, without a dispatch, although events are still registered.
   */
  lemma StaleBreak(b: Base, cbs: Callbacks, plat: Platform, before: int, t: Tick, flags: LoopFlags, ticks: seq<Tick>)
    requires StaleSetup(b, cbs) && t.ready == Some([]) && ticks != []
    ensures var first := Loop(b, LoopFlags(true, false), cbs, plat, before, [t]);
            first.1 == Exited(0) && first.0.brk && first.0.eventCount > 0
            && var second := Loop(first.0, flags, cbs, plat, t.now, ticks);
               second.1 == Exited(0) && second.2 == []
  {
    StaleFirstRun(b, cbs, plat, before, t);
  }

  /** The corrected entry: in the same setting the second run dispatches, or fails. */
  lemma StaleBreakFixed(b: Base, cbs: Callbacks, plat: Platform, before: int, t: Tick, flags: LoopFlags, ticks: seq<Tick>)
    requires StaleSetup(b, cbs) && t.ready == Some([]) && ticks != []
    ensures var first := LoopEntry(b, LoopFlags(true, false), cbs, plat, before, [t]);
            var second := LoopEntry(first.0, flags, cbs, plat, t.now, ticks);
            |second.2| >= 1 || second.1 == Exited(-1)
  {
    assert b.(gotterm := false, brk := false) == b;
    StaleFirstRun(b, cbs, plat, before, t);
    var first := LoopEntry(b, LoopFlags(true, false), cbs, plat, before, [t]);
    EntryDispatches(first.0, flags, cbs, plat, t.now, ticks);
  }

  /**
   * The stale-break setting occurs: one read event on descriptor `fd`
   * registered and one deferred callback `d`, which breaks the loop, queued.
   */
  function StaleBase(fd: int, d: nat): (b: Base)
    ensures StaleSetup(b, Callbacks({}, {}, {d}))
  {
    var e := Event(fd, {Read}, {}, false, 0, 0, 0, 0, false, Plain);
    var b := Base(map[0 := e], [0], [[]], [], [d], 1, 1, 0, false, false, 1);
    assert b.inserted[1..] == [] && b.active[1..] == [];
    assert Ext(b.evs, b.inserted) == 1 && SumExt(b.evs, b.active) == 0 && SumLen(b.active) == 0;
    assert Valid(b);
    b
  }
}
