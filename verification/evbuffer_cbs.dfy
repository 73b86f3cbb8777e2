/**
 * The callback list and life cycle of an evbuffer: evbuffer_add_cb,
 * evbuffer_remove_cb_entry, evbuffer_remove_cb, evbuffer_cb_set_flags,
 * evbuffer_setcb, evbuffer_freeze / evbuffer_unfreeze,
 * evbuffer_defer_callbacks, the deferred run, and the reference count.
 */
module EvBufferCbs {
  import opened Basics
  import opened Chain
  import ChainList
  import opened EvBuffer

  /** The index of the entry with handle `h`, when there is one. */
  function IndexOf(cbs: seq<CbEntry>, h: nat): (r: Option<nat>)
    ensures r.Some? ==> r.value < |cbs| && cbs[r.value].handle == h
                        && forall j :: 0 <= j < r.value ==> cbs[j].handle != h
    ensures r.None? ==> forall j :: 0 <= j < |cbs| ==> cbs[j].handle != h
  {
    if |cbs| == 0 then None
    else if cbs[0].handle == h then Some(0)
    else match IndexOf(cbs[1..], h)
      case None => None
      case Some(i) => Some(i + 1)
  }

  /** `cbs` without its entry `i`, the others in order. */
  function Without(cbs: seq<CbEntry>, i: nat): (r: seq<CbEntry>)
    requires i < |cbs|
    ensures |r| == |cbs| - 1
    ensures forall j :: 0 <= j < i ==> r[j] == cbs[j]
    ensures forall j :: i <= j < |r| ==> r[j] == cbs[j + 1]
  {
    cbs[..i] + cbs[i + 1..]
  }

  /**
   * evbuffer_add_cb: a new enabled entry goes to the head of the list, so
   * callbacks run newest first; its handle is fresh.  When the entry cannot
   * be allocated (`allocOk` false) the result is NULL (`None`) and the
   * buffer is unchanged.
   */
  function AddCb(b: Buffer, fn: nat, arg: nat, allocOk: bool): (r: (Buffer, Option<nat>))
    requires Valid(b)
    ensures Valid(r.0)
    ensures r.1.None? <==> !allocOk
    ensures r.1.None? ==> r.0 == b
    ensures r.1.Some? ==>
              r.0.callbacks == [CbEntry(r.1.value, fn, arg, CB_ENABLED)] + b.callbacks
              && (forall i :: 0 <= i < |b.callbacks| ==> b.callbacks[i].handle != r.1.value)
              && r.0 == b.(callbacks := r.0.callbacks, nextHandle := r.0.nextHandle)
  {
    if !allocOk then (b, None)
    else
      var h := b.nextHandle;
      (b.(callbacks := [CbEntry(h, fn, arg, CB_ENABLED)] + b.callbacks, nextHandle := h + 1), Some(h))
  }

  /** evbuffer_remove_cb_entry: unlinks the entry, which must be in the list. */
  function RemoveCbEntry(b: Buffer, h: nat): (r: (Buffer, int))
    requires Valid(b) && IndexOf(b.callbacks, h).Some?
    ensures r.1 == 0 && Valid(r.0)
    ensures r.0 == b.(callbacks := r.0.callbacks)
    ensures |r.0.callbacks| == |b.callbacks| - 1
    ensures forall i :: 0 <= i < |r.0.callbacks| ==> r.0.callbacks[i].handle != h
    ensures forall e :: e in b.callbacks && e.handle != h ==> e in r.0.callbacks
  {
    var i := IndexOf(b.callbacks, h).value;
    WithoutEntry(b.callbacks, i);
    (b.(callbacks := Without(b.callbacks, i)), 0)
  }

  /** Dropping entry `i` of a list with distinct handles drops its handle and keeps every other entry. */
  lemma WithoutEntry(cbs: seq<CbEntry>, i: nat)
    requires i < |cbs|
    requires forall j, k :: 0 <= j < k < |cbs| ==> cbs[j].handle != cbs[k].handle
    ensures forall j :: 0 <= j < |Without(cbs, i)| ==> Without(cbs, i)[j].handle != cbs[i].handle
    ensures forall e :: e in cbs && e.handle != cbs[i].handle ==> e in Without(cbs, i)
  {
    var r := Without(cbs, i);
    forall e | e in cbs && e.handle != cbs[i].handle ensures e in r {
      var j :| 0 <= j < |cbs| && cbs[j] == e;
      if j < i { assert r[j] == e; } else { assert r[j - 1] == e; }
    }
  }

  /** The index of the first entry registered with `fn` and `arg`. */
  function FirstWith(cbs: seq<CbEntry>, fn: nat, arg: nat): (r: Option<nat>)
    ensures r.Some? ==> r.value < |cbs| && cbs[r.value].fn == fn && cbs[r.value].arg == arg
    ensures r.Some? ==> forall j :: 0 <= j < r.value ==> !(cbs[j].fn == fn && cbs[j].arg == arg)
    ensures r.None? ==> forall j :: 0 <= j < |cbs| ==> !(cbs[j].fn == fn && cbs[j].arg == arg)
  {
    if |cbs| == 0 then None
    else if cbs[0].fn == fn && cbs[0].arg == arg then Some(0)
    else match FirstWith(cbs[1..], fn, arg)
      case None => None
      case Some(i) => Some(i + 1)
  }

  /**
   * evbuffer_remove_cb: removes the first entry, in list order, registered
   * with `fn` and `arg` and returns 0; -1 with nothing changed when there
   * is none.
   */
  function RemoveCb(b: Buffer, fn: nat, arg: nat): (r: (Buffer, int))
    requires Valid(b)
    ensures Valid(r.0)
    ensures r.1 == -1 <==> forall j :: 0 <= j < |b.callbacks| ==> !(b.callbacks[j].fn == fn && b.callbacks[j].arg == arg)
    ensures r.1 == -1 ==> r.0 == b
    ensures r.1 != -1 ==>
              r.1 == 0
              && exists i :: 0 <= i < |b.callbacks| && b.callbacks[i].fn == fn && b.callbacks[i].arg == arg
                             && (forall j :: 0 <= j < i ==> !(b.callbacks[j].fn == fn && b.callbacks[j].arg == arg))
                             && r.0 == b.(callbacks := Without(b.callbacks, i))
  {
    match FirstWith(b.callbacks, fn, arg)
    case None => (b, -1)
    case Some(i) =>
      var cbs := Without(b.callbacks, i);
      (b.(callbacks := cbs), 0)
  }

  /**
   * evbuffer_cb_set_flags: the entry keeps its internal flag bits and gets
   * `flags` ORed in.
   */
  function CbSetFlags(b: Buffer, h: nat, flags: bv32): (r: (Buffer, int))
    requires Valid(b) && IndexOf(b.callbacks, h).Some?
    ensures r.1 == 0 && Valid(r.0)
    ensures r.0 == b.(callbacks := r.0.callbacks)
    ensures |r.0.callbacks| == |b.callbacks|
    ensures forall j :: 0 <= j < |b.callbacks| && b.callbacks[j].handle != h ==> r.0.callbacks[j] == b.callbacks[j]
    ensures forall j :: 0 <= j < |b.callbacks| && b.callbacks[j].handle == h ==>
              var e, e' := b.callbacks[j], r.0.callbacks[j];
              e' == e.(flags := e'.flags)
              && e'.flags & CB_USER_FLAGS == flags & CB_USER_FLAGS
              && e'.flags & CB_INTERNAL_FLAGS == (e.flags | flags) & CB_INTERNAL_FLAGS
  {
    var i := IndexOf(b.callbacks, h).value;
    var e := b.callbacks[i];
    var e' := e.(flags := (e.flags & CB_INTERNAL_FLAGS) | flags);
    (b.(callbacks := b.callbacks[i := e']), 0)
  }

  /**
   * evbuffer_setcb: drops every entry, then, for a non-NULL `cb`, adds one
   * entry of the old style (it is told the old and new sizes).
   */
  function SetCb(b: Buffer, cb: nat, arg: nat): (r: Buffer)
    requires Valid(b)
    ensures Valid(r)
    ensures cb == 0 ==> r.callbacks == []
    ensures cb != 0 ==> |r.callbacks| == 1 && r.callbacks[0].fn == cb && r.callbacks[0].arg == arg
                        && r.callbacks[0].flags == CB_ENABLED | CB_OBSOLETE
    ensures r == b.(callbacks := r.callbacks, nextHandle := r.nextHandle)
  {
    var cleared := b.(callbacks := []);
    if cb == 0 then cleared
    else
      var (added, h) := AddCb(cleared, 0, arg, true);
      added.(callbacks := [CbEntry(h.value, cb, arg, CB_ENABLED | CB_OBSOLETE)])
  }

  /** evbuffer_freeze: forbids changes at the front (`start`) or at the end. */
  function Freeze(b: Buffer, start: bool): (r: (Buffer, int))
    ensures r.1 == 0
    ensures start ==> r.0 == b.(freezeStart := true)
    ensures !start ==> r.0 == b.(freezeEnd := true)
  {
    if start then (b.(freezeStart := true), 0) else (b.(freezeEnd := true), 0)
  }

  /** evbuffer_unfreeze. */
  function Unfreeze(b: Buffer, start: bool): (r: (Buffer, int))
    ensures r.1 == 0
    ensures start ==> r.0 == b.(freezeStart := false)
    ensures !start ==> r.0 == b.(freezeEnd := false)
  {
    if start then (b.(freezeStart := false), 0) else (b.(freezeEnd := false), 0)
  }

  /** _evbuffer_incref. */
  function IncRef(b: Buffer): (r: Buffer)
    ensures r == b.(refcnt := b.refcnt + 1)
  {
    b.(refcnt := b.refcnt + 1)
  }

  /**
   * _evbuffer_decref_and_unlock (and evbuffer_free): drops one reference;
   * the last one destroys the buffer, which is None here.
   */
  function DecRef(b: Buffer): (r: Option<Buffer>)
    requires b.refcnt >= 1
    ensures r.None? <==> b.refcnt == 1
    ensures r.Some? ==> r.value == b.(refcnt := b.refcnt - 1)
  {
    if b.refcnt - 1 > 0 then Some(b.(refcnt := b.refcnt - 1)) else None
  }

  /**
   * What destroying a buffer does to its chains: each one goes through
   * evbuffer_chain_free, so a pinned chain is left dangling for its pin
   * holder and every other chain is released.
   */
  function FreeChains(cs: seq<Chunk>): (fs: seq<Fate>)
    ensures |fs| == |cs|
    ensures forall i :: 0 <= i < |cs| ==> fs[i] == Free(cs[i])
    ensures forall i :: 0 <= i < |cs| ==> (fs[i].Dangling? <==> cs[i].Pinned())
  {
    if |cs| == 0 then [] else [Free(cs[0])] + FreeChains(cs[1..])
  }

  /** evbuffer_defer_callbacks: from now on callbacks run from the event loop. */
  function DeferCallbacks(b: Buffer): (r: (Buffer, int))
    ensures r.1 == 0
    ensures r.0 == b.(deferredCbs := true, deferredQueued := false)
  {
    (b.(deferredCbs := true, deferredQueued := false), 0)
  }

  /**
   * evbuffer_deferred_callback, as the event loop runs it: the entry is
   * dequeued, the callbacks run, and the reference taken when the run was
   * scheduled is dropped.
   */
  function DeferredCallback(b: Buffer): (r: Option<Buffer>)
    requires b.refcnt >= 1
    ensures r.None? <==> b.refcnt == 1
    ensures r.Some? ==> r.value == RunCallbacks(b).(deferredQueued := false, refcnt := b.refcnt - 1)
    ensures r.Some? ==> r.value.nAddForCb == 0 && r.value.nDelForCb == 0 && !r.value.deferredQueued
  {
    DecRef(RunCallbacks(b.(deferredQueued := false)))
  }

  // ---------------------------------------------------------------------
  // Properties across calls

  /** Removing the entry just added gives the old list back. */
  lemma AddThenRemoveEntry(b: Buffer, fn: nat, arg: nat)
    requires Valid(b)
    ensures IndexOf(AddCb(b, fn, arg, true).0.callbacks, AddCb(b, fn, arg, true).1.value) == Some(0)
    ensures RemoveCbEntry(AddCb(b, fn, arg, true).0, AddCb(b, fn, arg, true).1.value).0.callbacks == b.callbacks
  {
    var (b1, h) := AddCb(b, fn, arg, true);
    assert b1.callbacks[0].handle == h.value;
    assert Without(b1.callbacks, 0) == b.callbacks;
  }

  /**
   * Since new entries go first, evbuffer_remove_cb right after
   * evbuffer_add_cb with the same function and argument removes the new
   * entry, even when an older identical one exists.
   */
  lemma AddThenRemoveCb(b: Buffer, fn: nat, arg: nat)
    requires Valid(b)
    ensures RemoveCb(AddCb(b, fn, arg, true).0, fn, arg).1 == 0
    ensures RemoveCb(AddCb(b, fn, arg, true).0, fn, arg).0.callbacks == b.callbacks
  {
    var b1 := AddCb(b, fn, arg, true).0;
    assert FirstWith(b1.callbacks, fn, arg) == Some(0);
    assert Without(b1.callbacks, 0) == b.callbacks;
  }

  /** Two callbacks added in turn are called newest first. */
  lemma NewestFirst(b: Buffer, f1: nat, f2: nat, a: nat)
    requires Valid(b) && b.callbacks == []
    ensures var b1 := AddCb(b, f1, a, true);
            var b2 := AddCb(b1.0, f2, a, true);
            forall info, n :: Calls(b2.0.callbacks, info, n)
                              == [Called(b2.1.value, info), Called(b1.1.value, info)]
  {
    var b1 := AddCb(b, f1, a, true);
    var b2 := AddCb(b1.0, f2, a, true);
    forall info, n ensures Calls(b2.0.callbacks, info, n) == [Called(b2.1.value, info), Called(b1.1.value, info)] {
      var cbs := b2.0.callbacks;
      assert cbs[1..] == [CbEntry(b1.1.value, f1, a, CB_ENABLED)];
      assert cbs[1..][1..] == [];
    }
  }

  /**
   * A frozen end refuses appends and a frozen start refuses prepends and
   * drains; each end's freeze leaves the other end working.
   */
  lemma FreezeBlocks(b: Buffer, d: seq<Byte>, n: nat)
    requires Valid(b) && !b.freezeStart && !b.freezeEnd
    ensures var f := Freeze(b, false).0; Add(f, d, true) == (f, -1) && Prepend(f, d, true).1 == 0
    ensures var f := Freeze(b, true).0; Prepend(f, d, true) == (f, -1) && Add(f, d, true).1 == 0
    ensures var f := Freeze(b, true).0; |Contents(b)| > 0 ==> Drain(f, n) == (f, -1)
  {
  }

  /** Unfreezing undoes freezing. */
  lemma FreezeUnfreeze(b: Buffer, start: bool)
    requires start ==> !b.freezeStart
    requires !start ==> !b.freezeEnd
    ensures Unfreeze(Freeze(b, start).0, start).0 == b
  {
  }

  /**
   * A deferred buffer's scheduled run balances the reference the schedule
   * took: invoke, then run from the loop, leaves the count where it was.
   */
  lemma DeferredRunBalances(b: Buffer)
    requires b.deferredCbs && !b.deferredQueued && b.refcnt >= 1
    ensures DeferredCallback(Invoke(b)) == Some(RunCallbacks(b))
  {
  }
}
