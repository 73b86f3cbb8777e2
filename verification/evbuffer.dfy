/**
 * The chained byte buffer `struct evbuffer`: its invariant, change counters
 * and callback notification, and the operations that add bytes at either
 * end or take them from the front.
 *
 * Every operation is a pure function from the old buffer to the new one and
 * the C return code.  `Contents(b)` is the byte string the chains spell out.
 */
module EvBuffer {
  import opened Basics
  import opened Chain
  import ChainList

  /** Callback entry flags. */
  const CB_ENABLED: bv32 := 0x1
  const CB_OBSOLETE: bv32 := 0x0004_0000
  const CB_USER_FLAGS: bv32 := 0xffff
  const CB_INTERNAL_FLAGS: bv32 := 0xffff_0000

  /**
   * A registered callback.  `handle` stands for the entry's address, `fn`
   * and `arg` for the function pointer and its argument (0 is NULL).
   */
  datatype CbEntry = CbEntry(handle: nat, fn: nat, arg: nat, flags: bv32)

  /** struct evbuffer_cb_info. */
  datatype CbInfo = CbInfo(origSize: nat, nAdded: nat, nDeleted: nat)

  /** One callback invocation, in the form the entry asked for. */
  datatype Notice =
    | Called(handle: nat, info: CbInfo)
    | CalledObsolete(handle: nat, oldSize: nat, newSize: nat)

  /**
   * struct evbuffer.  `id` is the buffer's identity (its address), `list`
   * the chains with total_len and previous_to_last, `notices` the callback
   * invocations made so far.
   */
  datatype Buffer = Buffer(
    id: nat,
    list: ChainList.Chains,
    nAddForCb: nat,
    nDelForCb: nat,
    freezeStart: bool,
    freezeEnd: bool,
    deferredCbs: bool,
    deferredQueued: bool,
    refcnt: nat,
    callbacks: seq<CbEntry>,
    nextHandle: nat,
    notices: seq<Notice>)

  /** The bytes held by the buffer, front to back. */
  function Contents(b: Buffer): seq<Byte> {
    Bytes(b.list.chunks)
  }

  /** Callback handles are distinct and below the next fresh handle. */
  predicate HandlesOk(b: Buffer) {
    (forall i :: 0 <= i < |b.callbacks| ==> b.callbacks[i].handle < b.nextHandle)
    && (forall i, j :: 0 <= i < j < |b.callbacks| ==> b.callbacks[i].handle != b.callbacks[j].handle)
  }

  /** A live buffer: a valid chain list, a reference held, distinct callback handles. */
  predicate Valid(b: Buffer) {
    ChainList.Valid(b.list) && b.refcnt >= 1 && HandlesOk(b)
  }

  /** evbuffer_new. */
  function New(id: nat): (b: Buffer)
    ensures Valid(b) && Contents(b) == [] && b.refcnt == 1 && b.id == id
    ensures !b.freezeStart && !b.freezeEnd && b.callbacks == [] && !b.deferredCbs
    ensures b.nAddForCb == 0 && b.nDelForCb == 0 && b.notices == []
  {
    Buffer(id, ChainList.Empty, 0, 0, false, false, false, false, 1, [], 0, [])
  }

  /** evbuffer_get_length. */
  function Length(b: Buffer): (n: nat)
    requires Valid(b)
    ensures n == |Contents(b)|
  {
    b.list.totalLen
  }

  /** evbuffer_get_contiguous_space: the bytes readable without crossing a chain. */
  function ContiguousSpace(b: Buffer): (n: nat)
    requires Valid(b)
    ensures n <= |Contents(b)|
    ensures Contents(b)[..n] == (if |b.list.chunks| == 0 then [] else b.list.chunks[0].data)
  {
    if |b.list.chunks| == 0 then 0 else |b.list.chunks[0].data|
  }

  // ---------------------------------------------------------------------
  // Callbacks

  predicate Enabled(e: CbEntry) {
    e.flags & CB_ENABLED != 0
  }

  function NoticeFor(e: CbEntry, info: CbInfo, newSize: nat): Notice {
    if e.flags & CB_OBSOLETE != 0 then CalledObsolete(e.handle, info.origSize, newSize)
    else Called(e.handle, info)
  }

  /** The invocations made by one run over the callback list, in list order. */
  function Calls(cbs: seq<CbEntry>, info: CbInfo, newSize: nat): (ns: seq<Notice>)
    ensures |ns| <= |cbs|
  {
    if |cbs| == 0 then []
    else (if Enabled(cbs[0]) then [NoticeFor(cbs[0], info, newSize)] else [])
         + Calls(cbs[1..], info, newSize)
  }

  /**
   * A run with every entry disabled calls nothing; a run with every entry
   * enabled calls each of them once, in list order.
   */
  lemma {:induction false} CallsAllOrNone(cbs: seq<CbEntry>, info: CbInfo, newSize: nat)
    ensures (forall i :: 0 <= i < |cbs| ==> !Enabled(cbs[i])) ==> Calls(cbs, info, newSize) == []
    ensures (forall i :: 0 <= i < |cbs| ==> Enabled(cbs[i])) ==>
              |Calls(cbs, info, newSize)| == |cbs|
              && forall i :: 0 <= i < |cbs| ==> Calls(cbs, info, newSize)[i] == NoticeFor(cbs[i], info, newSize)
    decreases |cbs|
  {
    if |cbs| > 0 {
      CallsAllOrNone(cbs[1..], info, newSize);
      assert forall i :: 0 < i < |cbs| ==> cbs[1..][i - 1] == cbs[i];
    }
  }

  /** The size before the counted changes: `total_len + n_del - n_add`, in size_t arithmetic. */
  function OrigSize(total: nat, nAdd: nat, nDel: nat): (s: nat)
    ensures 0 <= total + nDel - nAdd < SizeMod ==> s == total + nDel - nAdd
    ensures total + nDel < nAdd ==> s == total + nDel - nAdd + SizeMod || total + nDel + SizeMod < nAdd
  {
    SizeT(total + nDel - nAdd)
  }

  /**
   * evbuffer_run_callbacks: with no callbacks the counters are simply reset;
   * with nothing counted nothing happens; otherwise every enabled entry is
   * told the size before the changes and the counters are reset.
   */
  function RunCallbacks(b: Buffer): (r: Buffer)
    ensures r.nAddForCb == 0 && r.nDelForCb == 0
    ensures r == b.(nAddForCb := 0, nDelForCb := 0, notices := r.notices)
    ensures |b.callbacks| == 0 || (b.nAddForCb == 0 && b.nDelForCb == 0) ==> r.notices == b.notices
    ensures |b.callbacks| > 0 && (b.nAddForCb > 0 || b.nDelForCb > 0) ==>
              r.notices == b.notices + Calls(b.callbacks,
                 CbInfo(OrigSize(b.list.totalLen, b.nAddForCb, b.nDelForCb), b.nAddForCb, b.nDelForCb),
                 b.list.totalLen)
  {
    if |b.callbacks| == 0 then b.(nAddForCb := 0, nDelForCb := 0)
    else if b.nAddForCb == 0 && b.nDelForCb == 0 then b
    else
      var info := CbInfo(OrigSize(b.list.totalLen, b.nAddForCb, b.nDelForCb), b.nAddForCb, b.nDelForCb);
      b.(nAddForCb := 0, nDelForCb := 0, notices := b.notices + Calls(b.callbacks, info, b.list.totalLen))
  }

  /**
   * evbuffer_invoke_callbacks: a buffer with deferred callbacks schedules
   * one run (taking a reference) unless one is already queued; any other
   * buffer runs its callbacks now.
   */
  function Invoke(b: Buffer): (r: Buffer)
    ensures r.list == b.list && r.id == b.id && r.callbacks == b.callbacks
    ensures r.freezeStart == b.freezeStart && r.freezeEnd == b.freezeEnd
    ensures r.nextHandle == b.nextHandle && r.deferredCbs == b.deferredCbs
    ensures b.deferredCbs && b.deferredQueued ==> r == b
    ensures b.deferredCbs && !b.deferredQueued ==>
              r == b.(refcnt := b.refcnt + 1, deferredQueued := true)
    ensures !b.deferredCbs ==> r == RunCallbacks(b)
  {
    if b.deferredCbs then
      if b.deferredQueued then b else b.(refcnt := b.refcnt + 1, deferredQueued := true)
    else RunCallbacks(b)
  }

  /**
   * `r` is `b` after `added` more and `deleted` fewer bytes were counted for
   * the callbacks and the callbacks were invoked: a deferred buffer keeps
   * the counts and has exactly one run queued, any other buffer has
   * reported them to its enabled callbacks and reset them.
   */
  predicate Reports(b: Buffer, r: Buffer, added: nat, deleted: nat) {
    var nA := b.nAddForCb + added;
    var nD := b.nDelForCb + deleted;
    r.callbacks == b.callbacks && r.nextHandle == b.nextHandle && r.id == b.id
    && r.deferredCbs == b.deferredCbs
    && r.freezeStart == b.freezeStart && r.freezeEnd == b.freezeEnd
    && if b.deferredCbs then
         r.nAddForCb == nA && r.nDelForCb == nD && r.deferredQueued && r.notices == b.notices
         && r.refcnt == (if b.deferredQueued then b.refcnt else b.refcnt + 1)
       else
         r.nAddForCb == 0 && r.nDelForCb == 0 && r.refcnt == b.refcnt
         && r.deferredQueued == b.deferredQueued
         && r.notices == b.notices
                         + (if |b.callbacks| == 0 || (nA == 0 && nD == 0) then []
                            else Calls(b.callbacks, CbInfo(OrigSize(r.list.totalLen, nA, nD), nA, nD),
                                       r.list.totalLen))
  }

  /**
   * Installs the new chain list `l`, counts `added` and `deleted` bytes and
   * invokes the callbacks: the common tail of every changing operation.
   */
  function Commit(b: Buffer, l: ChainList.Chains, added: nat, deleted: nat): (r: Buffer)
    ensures r.list == l && Reports(b, r, added, deleted)
    ensures Valid(b) && ChainList.Valid(l) ==> Valid(r)
  {
    var counted := b.(list := l, nAddForCb := b.nAddForCb + added, nDelForCb := b.nDelForCb + deleted);
    InvokeReports(b, counted, added, deleted);
    SameHandles(counted, Invoke(counted));
    Invoke(counted)
  }

  /** Invoking the callbacks of a buffer whose counters were raised reports the raise. */
  lemma InvokeReports(b: Buffer, counted: Buffer, added: nat, deleted: nat)
    requires counted == b.(list := counted.list, nAddForCb := b.nAddForCb + added,
                           nDelForCb := b.nDelForCb + deleted)
    ensures Reports(b, Invoke(counted), added, deleted)
  {
  }

  /** Handle validity depends only on the callback list and the next handle. */
  lemma SameHandles(b: Buffer, r: Buffer)
    requires r.callbacks == b.callbacks && r.nextHandle == b.nextHandle
    ensures HandlesOk(b) ==> HandlesOk(r)
  {
  }

  /**
   * Once the changes are reported, invoking the callbacks again does
   * nothing: the counters are zero, or a run is already queued.
   */
  lemma InvokeAfterReports(b: Buffer, r: Buffer, added: nat, deleted: nat)
    requires Reports(b, r, added, deleted)
    ensures Invoke(r) == r
  {
  }

  /**
   * Counting part of a change by hand and reporting the rest is the same
   * as reporting all of it.
   */
  lemma ReportsSplit(b: Buffer, b1: Buffer, r: Buffer, first: nat, added: nat, total: nat, deleted: nat)
    requires b1 == b.(list := b1.list, nAddForCb := b.nAddForCb + first) && total == first + added
    requires Reports(b1, r, added, deleted)
    ensures Reports(b, r, total, deleted) && Invoke(r) == r
  {
    InvokeAfterReports(b1, r, added, deleted);
  }

  // ---------------------------------------------------------------------
  // Reserving space and adding at the end

  /**
   * evbuffer_expand: makes room for `n` bytes after the data without
   * changing the bytes.  `allocOk` says whether evbuffer_chain_new succeeds
   * when it is called; when it fails the result is -1 and nothing changes.
   */
  function Expand(b: Buffer, n: nat, allocOk: bool): (r: (Buffer, int))
    requires Valid(b)
    ensures r.1 == 0 || r.1 == -1
    ensures r.1 == -1 <==> !allocOk && ChainList.ExpandAllocates(b.list, n)
    ensures r.1 == -1 ==> r.0 == b
    ensures r.1 == 0 ==> Valid(r.0) && Contents(r.0) == Contents(b)
                         && r.0 == b.(list := r.0.list) && ChainList.LastWritable(r.0.list, n)
  {
    if !allocOk && ChainList.ExpandAllocates(b.list, n) then (b, -1)
    else (b.(list := ChainList.Expand(b.list, n)), 0)
  }

  /**
   * evbuffer_reserve_space: fails (NULL) when the end is frozen or the
   * expansion fails, otherwise expands and yields the index of the chain
   * whose free space is handed out.
   */
  function ReserveSpace(b: Buffer, n: nat, allocOk: bool): (r: (Buffer, Option<nat>))
    requires Valid(b)
    ensures r.1.None? <==> b.freezeEnd || (!allocOk && ChainList.ExpandAllocates(b.list, n))
    ensures r.1.None? ==> r.0 == b
    ensures Valid(r.0) && Contents(r.0) == Contents(b)
    ensures r.1.Some? ==> r.1.value == |r.0.list.chunks| - 1 && ChainList.LastWritable(r.0.list, n)
  {
    if b.freezeEnd then (b, None)
    else
      var (e, res) := Expand(b, n, allocOk);
      if res == -1 then (b, None)
      else (e, Some(|e.list.chunks| - 1))
  }

  /** Free bytes after the data in the last chain, as evbuffer_commit_space computes them. */
  function TailRoom(l: ChainList.Chains): nat
    requires ChainList.Valid(l) && |l.chunks| > 0
  {
    var last := ChainList.Last(l.chunks);
    last.bufferLen - |last.data| - last.misalign
  }

  /**
   * evbuffer_commit_space: the caller has written `data` into the reserved
   * space; it becomes part of the buffer unless the end is frozen or the
   * last chain lacks that much room.
   */
  function CommitSpace(b: Buffer, data: seq<Byte>): (r: (Buffer, int))
    requires Valid(b)
    ensures r.1 == 0 || r.1 == -1
    ensures r.1 == 0 <==> (!b.freezeEnd && |b.list.chunks| > 0 && TailRoom(b.list) >= |data|)
    ensures r.1 == -1 ==> r.0 == b
    ensures r.1 == 0 ==> Valid(r.0) && Contents(r.0) == Contents(b) + data
                         && Reports(b, r.0, |data|, 0)
  {
    if b.freezeEnd || |b.list.chunks| == 0 then (b, -1)
    else if TailRoom(b.list) < |data| then (b, -1)
    else
      var last := ChainList.Last(b.list.chunks);
      (Commit(b, ChainList.ReplaceLast(b.list, last.(data := last.data + data), data), |data|, 0), 0)
  }

  /**
   * Reserving ten bytes in a new buffer leaves one empty, unpinned chain:
   * the list on which evbuffer_chain_insert as written dereferences NULL
   * (ChainList.InsertNullDeref), so evbuffer_add_reference reaches it.
   */
  lemma ReserveLeavesOneEmpty(id: nat)
    ensures ReserveSpace(New(id), 10, true).1 == Some(0)
    ensures ReserveSpace(New(id), 10, true).0.list == ChainList.OneEmpty
  {
    ChainList.BytesOne(Chain.New(10));
  }

  /** Reserving `|d|` bytes and committing `d` appends `d`. */
  lemma ReserveThenCommit(b: Buffer, d: seq<Byte>)
    requires Valid(b) && !b.freezeEnd
    ensures CommitSpace(ReserveSpace(b, |d|, true).0, d).1 == 0
    ensures Contents(CommitSpace(ReserveSpace(b, |d|, true).0, d).0) == Contents(b) + d
  {
    var e := ReserveSpace(b, |d|, true).0;
    assert ChainList.LastWritable(e.list, |d|);
  }

  /**
   * evbuffer_add: appends `d` unless the end is frozen or a chain it needs
   * cannot be allocated; either failure gives -1 before anything changed.
   * The callbacks are told about all of `d` (the source counts less; see
   * AddAsWritten).
   */
  function Add(b: Buffer, d: seq<Byte>, allocOk: bool): (r: (Buffer, int))
    requires Valid(b)
    ensures r.1 == 0 || r.1 == -1
    ensures r.1 == -1 <==> b.freezeEnd || (!allocOk && ChainList.AddAllocates(b.list, |d|))
    ensures r.1 == -1 ==> r.0 == b
    ensures r.1 == 0 ==> Valid(r.0) && Contents(r.0) == Contents(b) + d && Reports(b, r.0, |d|, 0)
  {
    if b.freezeEnd then (b, -1)
    else if !allocOk && ChainList.AddAllocates(b.list, |d|) then (b, -1)
    else (Commit(b, ChainList.AddPlace(b.list, d).0, |d|, 0), 0)
  }

  /** Bytes that fit in the last chain's room never need an allocation: the outcome of malloc does not matter. */
  lemma AddIntoRoom(b: Buffer, d: seq<Byte>)
    requires Valid(b) && |b.list.chunks| > 0
    requires !ChainList.Last(b.list.chunks).flags.immutable && ChainList.Last(b.list.chunks).SpaceLen() >= |d|
    ensures Add(b, d, false) == Add(b, d, true)
  {
  }

  /**
   * evbuffer_add as written: when a new chain is needed, only the bytes
   * placed in the old last chain are counted for the callbacks.
   */
  function AddAsWritten(b: Buffer, d: seq<Byte>, allocOk: bool): (r: (Buffer, int))
    requires Valid(b)
    ensures r.1 == 0 || r.1 == -1
    ensures r.1 == -1 <==> b.freezeEnd || (!allocOk && ChainList.AddAllocates(b.list, |d|))
    ensures r.1 == -1 ==> r.0 == b
    ensures r.1 == 0 ==> Valid(r.0) && Contents(r.0) == Contents(b) + d
                         && Reports(b, r.0, ChainList.AddPlace(b.list, d).1, 0)
  {
    if b.freezeEnd then (b, -1)
    else if !allocOk && ChainList.AddAllocates(b.list, |d|) then (b, -1)
    else
      var p := ChainList.AddPlace(b.list, d);
      (Commit(b, p.0, p.1, 0), 0)
  }

  /** The chain evbuffer_add_reference links in: immutable memory owned by the caller. */
  function ReferenceChunk(d: seq<Byte>): (c: Chunk)
    ensures ChainList.ChunkOk(c) && c.data == d
    ensures c.flags.immutable && c.flags.backing == Reference && !c.Pinned()
  {
    Chunk(d, 0, |d|, Flags(Reference, true, false, false, false))
  }

  /**
   * evbuffer_add_reference: appends `d` as an immutable chain that refers
   * to the caller's memory.  The chain header is allocated first, so a
   * failed allocation or a frozen end gives -1 without change.
   */
  function AddReference(b: Buffer, d: seq<Byte>, allocOk: bool): (r: (Buffer, int))
    requires Valid(b)
    ensures !allocOk || b.freezeEnd ==> r == (b, -1)
    ensures allocOk && !b.freezeEnd ==>
              r.1 == 0 && Valid(r.0) && Contents(r.0) == Contents(b) + d
              && Reports(b, r.0, |d|, 0)
              && |r.0.list.chunks| > 0 && ChainList.Last(r.0.list.chunks) == ReferenceChunk(d)
  {
    if !allocOk || b.freezeEnd then (b, -1)
    else (Commit(b, ChainList.Insert(b.list, ReferenceChunk(d)), |d|, 0), 0)
  }

  /**
   * evbuffer_add_reference of no bytes on an empty buffer leaves a single
   * empty, unpinned chain, so any later insert as written writes through
   * the NULL previous_to_last; Add, built on the corrected insert, appends.
   */
  lemma EmptyReferenceThenAdd(id: nat)
    ensures var b := AddReference(New(id), [], true).0;
      Valid(b) && |b.list.chunks| == 1 && b.list.chunks[0].data == [] && !b.list.chunks[0].Pinned()
      && (forall c :: ChainList.ChunkOk(c) ==> ChainList.InsertAsWritten(b.list, c).None?)
      && Add(b, [7], true).1 == 0 && Contents(Add(b, [7], true).0) == [7]
  {
    var b := AddReference(New(id), [], true).0;
    assert Contents(b) == [];
  }

  // ---------------------------------------------------------------------
  // Adding at the front

  /**
   * evbuffer_prepend: puts `d` in front unless the start is frozen; an
   * immutable first chain is never written.  The count handed to the
   * callbacks is the one the source computes (ChainList.PrependPlace).
   * When the chain it needs cannot be allocated it returns -1, but only
   * after the tail of `d` that fit in front of the first chain was placed
   * and counted; the callbacks are not invoked then.
   */
  function Prepend(b: Buffer, d: seq<Byte>, allocOk: bool): (r: (Buffer, int))
    requires Valid(b)
    ensures r.1 == 0 || r.1 == -1
    ensures b.freezeStart ==> r == (b, -1)
    ensures !b.freezeStart && (allocOk || !ChainList.PrependAllocates(b.list, |d|)) ==>
              r.1 == 0 && Valid(r.0) && Contents(r.0) == d + Contents(b)
              && Reports(b, r.0, ChainList.PrependPlace(b.list, d).1, 0)
    ensures !b.freezeStart && (allocOk || !ChainList.PrependAllocates(b.list, |d|))
            && |b.list.chunks| > 0 && b.list.chunks[0].flags.immutable
            ==> |r.0.list.chunks| == |b.list.chunks| + 1 && r.0.list.chunks[1..] == b.list.chunks
    ensures !b.freezeStart && !allocOk && ChainList.PrependAllocates(b.list, |d|) ==>
              r.1 == -1 && PartlyPrepended(b, d, r.0)
  {
    if b.freezeStart then (b, -1)
    else if !allocOk && ChainList.PrependAllocates(b.list, |d|) then
      if |b.list.chunks| == 0 then (b, -1)
      else
        var p := ChainList.PrependFill(b.list, d);
        (b.(list := p.0, nAddForCb := b.nAddForCb + p.1), -1)
    else
      var p := ChainList.PrependPlace(b.list, d);
      (Commit(b, p.0, p.1, 0), 0)
  }

  /**
   * What a failed evbuffer_prepend leaves: a valid buffer holding some
   * tail of `d` (never all of a non-empty `d`) in front of the old bytes,
   * with that many bytes counted as added and no callback run.
   */
  predicate PartlyPrepended(b: Buffer, d: seq<Byte>, r: Buffer) {
    Valid(r) && r == b.(list := r.list, nAddForCb := r.nAddForCb)
    && b.nAddForCb <= r.nAddForCb <= b.nAddForCb + |d|
    && (r.nAddForCb < b.nAddForCb + |d| || |d| == 0)
    && Contents(r) == d[|d| - (r.nAddForCb - b.nAddForCb)..] + Contents(b)
  }

  // ---------------------------------------------------------------------
  // Removing from the front

  /**
   * evbuffer_drain: removes the first `min(n, length)` bytes; an empty
   * buffer gives 0 and a frozen start -1, both without change.  A
   * read-pinned chain on which the count ends is kept in the list, emptied
   * (the source keeps its bytes; see DrainAsWritten), and the callbacks are
   * told about every drained byte.
   */
  function Drain(b: Buffer, n: nat): (r: (Buffer, int))
    requires Valid(b)
    ensures b.list.totalLen == 0 ==> r == (b, 0)
    ensures b.list.totalLen > 0 && b.freezeStart ==> r == (b, -1)
    ensures b.list.totalLen > 0 && !b.freezeStart ==>
              r.1 == 0 && Valid(r.0) && Contents(r.0) == Contents(b)[Min(n, b.list.totalLen)..]
              && Reports(b, r.0, 0, Min(n, b.list.totalLen))
    ensures b.list.totalLen > 0 && !b.freezeStart && ChainList.Last(b.list.chunks).flags.pinnedR
            ==> |r.0.list.chunks| > 0
                && ChainList.Last(r.0.list.chunks).flags == ChainList.Last(b.list.chunks).flags
  {
    if b.list.totalLen == 0 then (b, 0)
    else if b.freezeStart then (b, -1)
    else
      var len := Min(n, b.list.totalLen);
      (Commit(b, ChainList.DrainChains(b.list, len), 0, len), 0)
  }

  /**
   * evbuffer_drain as written: a read-pinned chain on which the count ends
   * keeps its bytes although total_len no longer counts them, and only the
   * count left over for the last chain reached is added to n_del_for_cb.
   */
  function DrainAsWritten(b: Buffer, n: nat): (r: (Buffer, int))
    requires Valid(b)
    ensures r.1 == 0 || r.1 == -1
    ensures b.list.totalLen > 0 && !b.freezeStart ==>
              r.0.list.totalLen == b.list.totalLen - Min(n, b.list.totalLen)
              && Reports(b, r.0, 0, ChainList.DrainChainsAsWritten(b.list, Min(n, b.list.totalLen)).1)
  {
    if b.list.totalLen == 0 then (b, 0)
    else if b.freezeStart then (b, -1)
    else
      var p := ChainList.DrainChainsAsWritten(b.list, Min(n, b.list.totalLen));
      (Commit(b, p.0, 0, p.1), 0)
  }

  /**
   * evbuffer_remove: moves the first `min(n, length)` bytes out of the
   * buffer and returns them with their count; nothing to remove gives 0
   * and a frozen start -1, both without change.
   */
  function Remove(b: Buffer, n: nat): (r: (Buffer, seq<Byte>, int))
    requires Valid(b)
    ensures Min(n, b.list.totalLen) == 0 ==> r == (b, [], 0)
    ensures Min(n, b.list.totalLen) > 0 && b.freezeStart ==> r == (b, [], -1)
    ensures Min(n, b.list.totalLen) > 0 && !b.freezeStart ==>
              r.2 == Min(n, b.list.totalLen) && Valid(r.0)
              && r.1 == Contents(b)[..r.2] && Contents(r.0) == Contents(b)[r.2..]
              && Reports(b, r.0, 0, r.2)
  {
    var datlen := Min(n, b.list.totalLen);
    if datlen == 0 then (b, [], 0)
    else if b.freezeStart then (b, [], -1)
    else
      var p := ChainList.RemoveChains(b.list, datlen);
      (Commit(b, p.0, 0, datlen), p.1, datlen)
  }

  // ---------------------------------------------------------------------
  // Relations between the operations

  /** What `add` appends, `remove` of everything returns after the old contents. */
  lemma AddThenRemove(b: Buffer, d: seq<Byte>)
    requires Valid(b) && !b.freezeEnd && !b.freezeStart && |d| > 0
    ensures Remove(Add(b, d, true).0, |Contents(b)| + |d|).1 == Contents(b) + d
  {
  }

  /** What `prepend` puts in front, `remove` takes out first, leaving the old contents. */
  lemma PrependThenRemove(b: Buffer, d: seq<Byte>)
    requires Valid(b) && !b.freezeStart && |d| > 0
    ensures Remove(Prepend(b, d, true).0, |d|).1 == d
    ensures Contents(Remove(Prepend(b, d, true).0, |d|).0) == Contents(b)
  {
    var p := Prepend(b, d, true).0;
    assert Contents(p) == d + Contents(b);
    assert (d + Contents(b))[..|d|] == d;
    assert (d + Contents(b))[|d|..] == Contents(b);
  }

  /** Draining and removing the same count leave the same bytes behind. */
  lemma DrainAgreesWithRemove(b: Buffer, n: nat)
    requires Valid(b) && !b.freezeStart && n > 0
    ensures Contents(Drain(b, n).0) == Contents(Remove(b, n).0)
    ensures Drain(b, n).1 == 0 && Remove(b, n).2 == Min(n, |Contents(b)|)
  {
  }
}
