/**
 * The read-watermark state machine of a bufferevent: which events the user
 * enabled, which the backend is actually polling, whether reading is
 * suspended because the input buffer reached its high-water mark, the
 * watermark callback registered on the input buffer, and the reference
 * count.  The backend's enable/disable operations are opaque; each is given
 * as a flag saying whether it succeeded, and a successful call adds or
 * removes the requested kinds from the set the backend polls.
 */
module Bufferevent {
  import opened Basics
  import opened EventBase

  /** struct event_watermark. */
  datatype Marks = Marks(low: nat, high: nat)

  /** The read_watermarks_cb entry on the input buffer: absent, registered but disabled, or enabled. */
  datatype WmCb = NoCb | CbDisabled | CbEnabled

  /**
   * struct bufferevent with its private part.  `inLen` is the length of the
   * input evbuffer; `polling` is what the backend watches; timeouts are in
   * seconds, 0 meaning cleared.
   */
  datatype Bev = Bev(
    enabled: set<Kind>,
    polling: set<Kind>,
    readSuspended: bool,
    wmRead: Marks,
    wmWrite: Marks,
    wmCb: WmCb,
    inLen: nat,
    refcnt: int,
    timeoutRead: nat,
    timeoutWrite: nat)

  /** be_ops->enable: on success the backend polls `ev` as well. */
  function BackendEnable(polling: set<Kind>, ev: set<Kind>, ok: bool): (r: set<Kind>)
    ensures ok ==> r == polling + ev
    ensures !ok ==> r == polling
  {
    if ok then polling + ev else polling
  }

  /** be_ops->disable: on success the backend stops polling `ev`. */
  function BackendDisable(polling: set<Kind>, ev: set<Kind>, ok: bool): (r: set<Kind>)
    ensures ok ==> r == polling - ev
    ensures !ok ==> r == polling
  {
    if ok then polling - ev else polling
  }

  /**
   * The backend polls only what the user enabled, and not READ while reading
   * is suspended; suspension happens only under a nonzero read high mark;
   * the watermark callback is enabled exactly when that mark is nonzero.
   */
  predicate Consistent(b: Bev) {
    b.polling * {Read, Write} <= b.enabled
    && (b.readSuspended ==> Read !in b.polling && b.wmRead.high > 0)
    && (b.wmCb == CbEnabled <==> b.wmRead.high > 0)
  }

  /** bufferevent_wm_suspend_read: disable READ in the backend once. */
  function SuspendRead(b: Bev, ok: bool): (r: Bev)
    ensures r.readSuspended
    ensures b.readSuspended ==> r == b
    ensures !b.readSuspended && ok ==> Read !in r.polling
    ensures r.enabled == b.enabled && r.wmRead == b.wmRead && r.wmCb == b.wmCb && r.inLen == b.inLen
  {
    if !b.readSuspended then b.(polling := BackendDisable(b.polling, {Read}, ok), readSuspended := true)
    else b
  }

  /** bufferevent_wm_unsuspend_read: clear the flag, re-enabling READ only if the user enabled it. */
  function UnsuspendRead(b: Bev, ok: bool): (r: Bev)
    ensures !r.readSuspended
    ensures !b.readSuspended ==> r == b
    ensures b.readSuspended && ok && Read in b.enabled ==> Read in r.polling
    ensures Read !in b.enabled ==> r.polling == b.polling
    ensures r.enabled == b.enabled && r.wmRead == b.wmRead && r.wmCb == b.wmCb && r.inLen == b.inLen
  {
    if b.readSuspended then
      var b1 := b.(readSuspended := false);
      if Read in b.enabled then b1.(polling := BackendEnable(b.polling, {Read}, ok)) else b1
    else b
  }

  /** Suspending twice is suspending once, whatever the second backend call would return. */
  lemma SuspendIdempotent(b: Bev, ok1: bool, ok2: bool)
    ensures SuspendRead(SuspendRead(b, ok1), ok2) == SuspendRead(b, ok1)
    ensures UnsuspendRead(UnsuspendRead(b, ok1), ok2) == UnsuspendRead(b, ok1)
  {
  }

  /**
   * bufferevent_inbuf_wm_cb with the counters of one callback round: a net
   * addition suspends reading at or above the high mark; otherwise reading
   * resumes below it.
   */
  function InbufWmCb(b: Bev, nAdded: nat, nDeleted: nat, ok: bool): (r: Bev)
    ensures nAdded > nDeleted && b.inLen >= b.wmRead.high ==> r.readSuspended
    ensures nAdded <= nDeleted && b.inLen < b.wmRead.high ==> !r.readSuspended
    ensures (nAdded > nDeleted && b.inLen < b.wmRead.high) || (nAdded <= nDeleted && b.inLen >= b.wmRead.high) ==> r == b
    ensures r.enabled == b.enabled && r.wmRead == b.wmRead && r.wmCb == b.wmCb && r.inLen == b.inLen
  {
    if nAdded > nDeleted then
      if b.inLen >= b.wmRead.high then SuspendRead(b, ok) else b
    else
      if b.inLen < b.wmRead.high then UnsuspendRead(b, ok) else b
  }

  /**
   * The input buffer changed to `len` bytes and its callbacks ran with these
   * counters: the watermark callback reacts only while it is enabled.
   */
  function InputChanged(b: Bev, len: nat, nAdded: nat, nDeleted: nat, ok: bool): (r: Bev)
    ensures r.inLen == len && r.enabled == b.enabled && r.wmRead == b.wmRead && r.wmCb == b.wmCb
    ensures b.wmCb != CbEnabled ==> r.readSuspended == b.readSuspended && r.polling == b.polling
    ensures b.wmCb == CbEnabled && nAdded > nDeleted && len >= b.wmRead.high ==> r.readSuspended
    ensures b.wmCb == CbEnabled && nAdded <= nDeleted && len < b.wmRead.high ==> !r.readSuspended
  {
    var b1 := b.(inLen := len);
    if b.wmCb == CbEnabled then InbufWmCb(b1, nAdded, nDeleted, ok) else b1
  }

  /** bufferevent_enable: READ is recorded as enabled but withheld from the backend while suspended. */
  function Enable(b: Bev, ev: set<Kind>, ok: bool): (r: (Bev, int))
    ensures r.0.enabled == b.enabled + ev
    ensures ok ==> r.0.polling == b.polling + (if b.readSuspended then ev - {Read} else ev)
    ensures !ok ==> r.0.polling == b.polling
    ensures b.readSuspended && Read !in b.polling ==> Read !in r.0.polling
    ensures r.1 == (if ok then 0 else -1)
    ensures r.0.readSuspended == b.readSuspended && r.0.wmRead == b.wmRead && r.0.wmCb == b.wmCb
  {
    var impl := if b.readSuspended then ev - {Read} else ev;
    (b.(enabled := b.enabled + ev, polling := BackendEnable(b.polling, impl, ok)), if ok then 0 else -1)
  }

  /** bufferevent_disable: the kinds leave `enabled` whatever the backend returns. */
  function Disable(b: Bev, ev: set<Kind>, ok: bool): (r: (Bev, int))
    ensures r.0.enabled == b.enabled - ev
    ensures ok ==> r.0.polling * ev == {}
    ensures r.0.polling <= b.polling
    ensures r.1 == (if ok then 0 else -1)
    ensures r.0.readSuspended == b.readSuspended && r.0.wmRead == b.wmRead && r.0.wmCb == b.wmCb
  {
    (b.(enabled := b.enabled - ev, polling := BackendDisable(b.polling, ev, ok)), if ok then 0 else -1)
  }

  /** Enabling then disabling the same kinds leaves none of them enabled or polled. */
  lemma EnableThenDisable(b: Bev, ev: set<Kind>, ok1: bool)
    ensures var d := Disable(Enable(b, ev, ok1).0, ev, true).0;
      d.enabled == b.enabled - ev && d.polling * ev == {}
  {
  }

  /**
   * The backend's enable and disable undo each other: kinds not polled
   * before, enabled and then disabled, leave exactly the old polled set,
   * and a failed enable followed by any disable never polls them.
   */
  lemma BackendEnableThenDisable(polling: set<Kind>, ev: set<Kind>, ok1: bool, ok2: bool)
    requires polling * ev == {}
    ensures ok1 ==> BackendDisable(BackendEnable(polling, ev, ok1), ev, true) == polling
    ensures BackendDisable(BackendEnable(polling, ev, ok1), ev, ok2) * ev == (if ok1 && !ok2 then ev else {})
    ensures polling <= BackendDisable(BackendEnable(polling, ev, ok1), ev, ok2)
  {
    forall k | k in polling ensures k !in ev {
      assert k !in polling * ev;
    }
    assert (polling + ev) - ev == polling;
  }

  /** bufferevent_set_timeouts: a missing timeval clears that timeout. */
  function SetTimeouts(b: Bev, tvRead: Option<nat>, tvWrite: Option<nat>): (r: Bev)
    ensures tvRead.Some? ==> r.timeoutRead == tvRead.value
    ensures tvRead.None? ==> r.timeoutRead == 0
    ensures tvWrite.Some? ==> r.timeoutWrite == tvWrite.value
    ensures tvWrite.None? ==> r.timeoutWrite == 0
    ensures r.(timeoutRead := b.timeoutRead, timeoutWrite := b.timeoutWrite) == b
  {
    b.(timeoutRead := if tvRead.Some? then tvRead.value else 0,
       timeoutWrite := if tvWrite.Some? then tvWrite.value else 0)
  }

  /** bufferevent_settimeout, the obsolete form: 0 passes no timeval, which clears that timeout. */
  function SetTimeoutSecs(b: Bev, rd: nat, wr: nat): (r: Bev)
    ensures r.timeoutRead == rd && r.timeoutWrite == wr
    ensures r.(timeoutRead := b.timeoutRead, timeoutWrite := b.timeoutWrite) == b
  {
    SetTimeouts(b, if rd != 0 then Some(rd) else None, if wr != 0 then Some(wr) else None)
  }

  /**
   * bufferevent_setwatermark.  A nonzero read high mark registers (or
   * re-enables) the watermark callback, then suspends if the input is above
   * the mark and unsuspends if it is below; at exactly the mark nothing
   * changes.  A zero high mark disables the callback and unsuspends.
   */
  function SetWatermark(b: Bev, events: set<Kind>, low: nat, high: nat, ok: bool): (r: Bev)
    ensures Write in events ==> r.wmWrite == Marks(low, high)
    ensures Write !in events ==> r.wmWrite == b.wmWrite
    ensures Read !in events ==> r == b.(wmWrite := r.wmWrite)
    ensures Read in events ==> r.wmRead == Marks(low, high)
    ensures Read in events && high > 0 ==> r.wmCb == CbEnabled
    ensures Read in events && high > 0 && b.inLen > high ==> r.readSuspended
    ensures Read in events && high > 0 && b.inLen < high ==> !r.readSuspended
    ensures Read in events && high > 0 && b.inLen == high ==> r.readSuspended == b.readSuspended
    ensures Read in events && high == 0 ==> !r.readSuspended && r.wmCb == (if b.wmCb == NoCb then NoCb else CbDisabled)
    ensures r.enabled == b.enabled && r.inLen == b.inLen && r.refcnt == b.refcnt
  {
    var b1 := if Write in events then b.(wmWrite := Marks(low, high)) else b;
    if Read in events then
      var b2 := b1.(wmRead := Marks(low, high));
      if high > 0 then
        var b3 := b2.(wmCb := CbEnabled);
        if b3.inLen > high then SuspendRead(b3, ok)
        else if b3.inLen < high then UnsuspendRead(b3, ok)
        else b3
      else
        var b3 := if b2.wmCb != NoCb then b2.(wmCb := CbDisabled) else b2;
        UnsuspendRead(b3, ok)
    else b1
  }

  /**
   * The two thresholds differ at the mark itself: with exactly `high` bytes
   * buffered, setting the mark leaves reading on, but the next net addition
   * reported to the callback suspends it, even if it added nothing new
   * beyond the mark.
   */
  lemma WatermarkBoundary(b: Bev, high: nat, a: nat, d: nat, ok: bool)
    requires high > 0 && b.inLen == high && !b.readSuspended && a > d
    ensures !SetWatermark(b, {Read}, 0, high, ok).readSuspended
    ensures InputChanged(SetWatermark(b, {Read}, 0, high, ok), high, a, d, ok).readSuspended
  {
  }

  /** bufferevent_init_common: both buffers and, when asked for, the lock must be allocated. */
  function InitCommon(inputOk: bool, outputOk: bool, threadsafe: bool, lockOk: bool): (r: Option<Bev>)
    ensures r.Some? <==> inputOk && outputOk && (threadsafe ==> lockOk)
    ensures r.Some? ==> r.value.enabled == {Write} && r.value.refcnt == 1
    ensures r.Some? ==> r.value.timeoutRead == 0 && r.value.timeoutWrite == 0
    ensures r.Some? ==> Consistent(r.value) && r.value.polling == {} && r.value.inLen == 0
  {
    if !inputOk || !outputOk then None
    else if threadsafe && !lockOk then None
    else Some(Bev({Write}, {}, false, Marks(0, 0), Marks(0, 0), NoCb, 0, 1, 0, 0))
  }

  /** bufferevent_incref. */
  function Incref(b: Bev): (r: Bev)
    ensures r.refcnt == b.refcnt + 1 && r.(refcnt := b.refcnt) == b
  {
    b.(refcnt := b.refcnt + 1)
  }

  /**
   * _bufferevent_decref_and_unlock, and bufferevent_free which calls it: the
   * bufferevent is destroyed (None) exactly when the decremented count is 0.
   */
  function DecrefAndUnlock(b: Bev): (r: Option<Bev>)
    ensures r.None? <==> b.refcnt == 1
    ensures r.Some? ==> r.value.refcnt == b.refcnt - 1 && r.value.(refcnt := b.refcnt) == b
  {
    if b.refcnt - 1 != 0 then Some(b.(refcnt := b.refcnt - 1)) else None
  }

  /** A reference taken and dropped again leaves the bufferevent as it was. */
  lemma IncrefDecref(b: Bev)
    requires b.refcnt >= 1
    ensures DecrefAndUnlock(Incref(b)) == Some(b)
  {
  }

  /** Dropping the last of `n` references, one at a time, destroys it at the n-th call and not before. */
  function DropAll(b: Bev, n: nat): (r: Option<Bev>)
    decreases n
  {
    if n == 0 then Some(b)
    else match DecrefAndUnlock(b)
      case None => None
      case Some(b1) => DropAll(b1, n - 1)
  }

  lemma {:induction false} DropAllDestroys(b: Bev, n: nat)
    requires b.refcnt >= 1
    ensures n < b.refcnt ==> DropAll(b, n) == Some(b.(refcnt := b.refcnt - n))
    ensures n >= b.refcnt ==> DropAll(b, n) == None
    decreases n
  {
    if n > 0 {
      if b.refcnt > 1 {
        DropAllDestroys(b.(refcnt := b.refcnt - 1), n - 1);
      }
    }
  }

  /** Every operation keeps the bufferevent consistent when the backend's calls succeed. */
  lemma {:induction false} OperationsConsistent(b: Bev, ev: set<Kind>, low: nat, high: nat, len: nat, a: nat, d: nat)
    requires Consistent(b)
    ensures Consistent(SuspendRead(b, true)) || b.wmRead.high == 0
    ensures Consistent(UnsuspendRead(b, true))
    ensures Consistent(InputChanged(b, len, a, d, true))
    ensures Consistent(Enable(b, ev, true).0)
    ensures Consistent(Disable(b, ev, true).0)
    ensures Consistent(SetWatermark(b, ev, low, high, true))
  {
  }
}
