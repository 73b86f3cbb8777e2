/**
 * Moving bytes between two evbuffers: evbuffer_add_buffer,
 * evbuffer_prepend_buffer and evbuffer_remove_buffer.  Whole chains are
 * relinked rather than copied; a buffer's identity is its `id`.
 */
module EvBufferTransfer {
  import opened Basics
  import opened Chain
  import ChainList
  import opened EvBuffer

  /**
   * APPEND_CHAIN: links the chains of `s` after those of `d`;
   * previous_to_last becomes that of `s`, or the old last chain of `d`
   * when `s` has a single chain.
   */
  function AppendChains(d: ChainList.Chains, s: ChainList.Chains): (r: ChainList.Chains)
    requires ChainList.Valid(d) && ChainList.Valid(s) && |d.chunks| > 0 && |s.chunks| > 0
    ensures ChainList.Valid(r) && r.chunks == d.chunks + s.chunks
    ensures Bytes(r.chunks) == Bytes(d.chunks) + Bytes(s.chunks)
  {
    BytesAppend(d.chunks, s.chunks);
    var ptl := match s.prevToLast
               case Some(k) => Some(|d.chunks| + k)
               case None => Some(|d.chunks| - 1);
    var cs := d.chunks + s.chunks;
    assert ChainList.AllOk(cs) by {
      forall i | 0 <= i < |cs| ensures ChainList.ChunkOk(cs[i]) {
        if i < |d.chunks| { assert cs[i] == d.chunks[i]; }
        else { assert cs[i] == s.chunks[i - |d.chunks|]; }
      }
    }
    ChainList.Chains(cs, d.totalLen + s.totalLen, ptl)
  }

  /**
   * PREPEND_CHAIN: links the chains of `s` in front of those of `d`;
   * previous_to_last stays, or becomes the last chain of `s` when `d` has a
   * single chain.
   */
  function PrependChains(d: ChainList.Chains, s: ChainList.Chains): (r: ChainList.Chains)
    requires ChainList.Valid(d) && ChainList.Valid(s) && |d.chunks| > 0 && |s.chunks| > 0
    ensures ChainList.Valid(r) && r.chunks == s.chunks + d.chunks
    ensures Bytes(r.chunks) == Bytes(s.chunks) + Bytes(d.chunks)
  {
    BytesAppend(s.chunks, d.chunks);
    var ptl := match d.prevToLast
               case Some(k) => Some(k + |s.chunks|)
               case None => Some(|s.chunks| - 1);
    var cs := s.chunks + d.chunks;
    assert ChainList.AllOk(cs) by {
      forall i | 0 <= i < |cs| ensures ChainList.ChunkOk(cs[i]) {
        if i < |s.chunks| { assert cs[i] == s.chunks[i]; }
        else { assert cs[i] == d.chunks[i - |s.chunks|]; }
      }
    }
    ChainList.Chains(cs, d.totalLen + s.totalLen, ptl)
  }

  /**
   * evbuffer_add_buffer(dst, src): moves all of `src` to the end of `dst`.
   * Nothing happens (result 0) when `src` is empty or is `dst`; a frozen
   * end of `dst` or start of `src` gives -1.  Returns the new `dst`, the
   * new `src` and the result.
   */
  function AddBuffer(dst: Buffer, src: Buffer): (r: (Buffer, Buffer, int))
    requires Valid(dst) && Valid(src)
    ensures src.list.totalLen == 0 || dst.id == src.id ==> r == (dst, src, 0)
    ensures src.list.totalLen > 0 && dst.id != src.id && (dst.freezeEnd || src.freezeStart)
            ==> r == (dst, src, -1)
    ensures src.list.totalLen > 0 && dst.id != src.id && !dst.freezeEnd && !src.freezeStart ==>
              r.2 == 0 && Valid(r.0) && Valid(r.1)
              && Contents(r.0) == Contents(dst) + Contents(src) && Contents(r.1) == []
              && Reports(dst, r.0, |Contents(src)|, 0) && Reports(src, r.1, 0, |Contents(src)|)
  {
    var n := src.list.totalLen;
    if n == 0 || dst.id == src.id then (dst, src, 0)
    else if dst.freezeEnd || src.freezeStart then (dst, src, -1)
    else
      ChainList.NonEmpty(src.list);
      if dst.list.totalLen == 0 then
        assert Contents(dst) == [];
        (Commit(dst, src.list, n, 0), Commit(src, ChainList.Empty, 0, n), 0)
      else
        ChainList.NonEmpty(dst.list);
        (Commit(dst, AppendChains(dst.list, src.list), n, 0), Commit(src, ChainList.Empty, 0, n), 0)
  }

  /**
   * evbuffer_prepend_buffer(dst, src): moves all of `src` to the front of
   * `dst`, with the same no-op cases as AddBuffer; here a frozen start of
   * either buffer gives -1.
   */
  function PrependBuffer(dst: Buffer, src: Buffer): (r: (Buffer, Buffer, int))
    requires Valid(dst) && Valid(src)
    ensures src.list.totalLen == 0 || dst.id == src.id ==> r == (dst, src, 0)
    ensures src.list.totalLen > 0 && dst.id != src.id && (dst.freezeStart || src.freezeStart)
            ==> r == (dst, src, -1)
    ensures src.list.totalLen > 0 && dst.id != src.id && !dst.freezeStart && !src.freezeStart ==>
              r.2 == 0 && Valid(r.0) && Valid(r.1)
              && Contents(r.0) == Contents(src) + Contents(dst) && Contents(r.1) == []
              && Reports(dst, r.0, |Contents(src)|, 0) && Reports(src, r.1, 0, |Contents(src)|)
  {
    var n := src.list.totalLen;
    if n == 0 || dst.id == src.id then (dst, src, 0)
    else if dst.freezeStart || src.freezeStart then (dst, src, -1)
    else
      ChainList.NonEmpty(src.list);
      if dst.list.totalLen == 0 then
        assert Contents(dst) == [];
        (Commit(dst, src.list, n, 0), Commit(src, ChainList.Empty, 0, n), 0)
      else
        ChainList.NonEmpty(dst.list);
        (Commit(dst, PrependChains(dst.list, src.list), n, 0), Commit(src, ChainList.Empty, 0, n), 0)
  }

  /**
   * The relinking step of evbuffer_remove_buffer: the first `k` chains of
   * `s` move to the end of `d`.  previous_to_last of the destination is the
   * chain before its new last chain (see MoveFrontAsWritten for what the
   * source stores).
   */
  function MoveFront(d: ChainList.Chains, s: ChainList.Chains, k: nat): (r: (ChainList.Chains, ChainList.Chains))
    requires ChainList.Valid(d) && ChainList.Valid(s) && 0 < k <= |s.chunks|
    ensures ChainList.Valid(r.0) && ChainList.Valid(r.1)
    ensures r.0.chunks == d.chunks + s.chunks[..k] && r.1.chunks == s.chunks[k..]
    ensures Bytes(r.0.chunks) == Bytes(d.chunks) + Bytes(s.chunks[..k])
    ensures Bytes(s.chunks) == Bytes(s.chunks[..k]) + Bytes(r.1.chunks)
  {
    var cs := d.chunks + s.chunks[..k];
    BytesAppend(d.chunks, s.chunks[..k]);
    assert ChainList.AllOk(cs) by {
      forall i | 0 <= i < |cs| ensures ChainList.ChunkOk(cs[i]) {
        if i < |d.chunks| { assert cs[i] == d.chunks[i]; }
        else { assert cs[i] == s.chunks[i - |d.chunks|]; }
      }
    }
    (ChainList.Chains(cs, |Bytes(cs)|, ChainList.PrevToLastFor(|cs|)), ChainList.DropWhole(s, k))
  }

  /**
   * The relinking step as written: the destination's previous_to_last is
   * set to the walk's `previous_to_previous`, which is the first chain
   * moved, also when that chain is the only one moved and so becomes the
   * destination's last chain.
   */
  function MoveFrontAsWritten(d: ChainList.Chains, s: ChainList.Chains, k: nat): (r: (ChainList.Chains, ChainList.Chains))
    requires ChainList.Valid(d) && ChainList.Valid(s) && 0 < k <= |s.chunks|
    ensures r.0.chunks == MoveFront(d, s, k).0.chunks && r.1 == MoveFront(d, s, k).1
    ensures r.0.totalLen == |Bytes(r.0.chunks)|
    ensures k >= 2 ==> r.0 == MoveFront(d, s, k).0
  {
    var m := MoveFront(d, s, k);
    var ptl := if k >= 2 then Some(|d.chunks| + k - 2) else Some(|d.chunks|);
    (m.0.(prevToLast := ptl), m.1)
  }

  /**
   * Moving exactly one chain leaves the destination's previous_to_last on
   * its own last chain, which breaks the list invariant.
   */
  lemma MoveOneChainBreaksInvariant(d: ChainList.Chains, s: ChainList.Chains)
    requires ChainList.Valid(d) && ChainList.Valid(s) && |s.chunks| > 0
    ensures !ChainList.Valid(MoveFrontAsWritten(d, s, 1).0)
    ensures MoveFrontAsWritten(d, s, 1).0.prevToLast == Some(|MoveFrontAsWritten(d, s, 1).0.chunks| - 1)
  {
  }

  /** Bytes of a list after cutting `rest` bytes off the front of chain `k`. */
  lemma CutBytes(cs: seq<Chunk>, k: nat, rest: nat)
    requires k < |cs| && rest <= |cs[k].data|
    ensures Bytes(cs) == Bytes(cs[..k]) + cs[k].data[..rest] + (cs[k].data[rest..] + Bytes(cs[k + 1..]))
  {
    ChainList.BytesAround(cs, k);
    assert cs[k].data == cs[k].data[..rest] + cs[k].data[rest..];
  }

  /**
   * The source's chains after evbuffer_remove_buffer takes `n` bytes, fewer
   * than it holds: the covered chains are gone when they held any bytes,
   * and the chain the count ends in loses its front.
   */
  function PartialSrc(s: ChainList.Chains, n: nat): (r: ChainList.Chains)
    requires ChainList.Valid(s) && n < s.totalLen
    ensures ChainList.Valid(r) && Bytes(r.chunks) == Bytes(s.chunks)[n..]
  {
    var w := ChainList.TransferWalk(s.chunks, n);
    var k := w.freed;
    var c := s.chunks[k];
    CutBytes(s.chunks, k, w.rest);
    var head := c.(misalign := c.misalign + w.rest, data := c.data[w.rest..]);
    if |Bytes(s.chunks[..k])| > 0 then
      var m := ChainList.DropWhole(s, k);
      assert m.chunks[0] == c && m.chunks[1..] == s.chunks[k + 1..];
      assert m.chunks[..0] == [];
      ChainList.ReplaceAt(m, 0, head)
    else
      ChainList.ReplaceAt(s, k, head)
  }

  /**
   * The destination's side of evbuffer_remove_buffer taking `n` bytes,
   * fewer than `s` holds: the chains relinked to `d` with the byte count
   * added for them, and the bytes still to be copied with evbuffer_add.
   */
  function PartialDst(d: ChainList.Chains, s: ChainList.Chains, n: nat): (r: (ChainList.Chains, nat, seq<Byte>))
    requires ChainList.Valid(d) && ChainList.Valid(s) && n < s.totalLen
    ensures ChainList.Valid(r.0) && r.1 + |r.2| == n
    ensures Bytes(r.0.chunks) == Bytes(d.chunks) + Bytes(s.chunks)[..r.1]
    ensures r.2 == Bytes(s.chunks)[r.1..n]
  {
    var w := ChainList.TransferWalk(s.chunks, n);
    var k := w.freed;
    var c := s.chunks[k];
    CutBytes(s.chunks, k, w.rest);
    var moved := Bytes(s.chunks[..k]);
    if |moved| > 0 then
      (MoveFront(d, s, k).0, |moved|, c.data[..w.rest])
    else
      (d, 0, c.data[..w.rest])
  }

  /**
   * The destination of evbuffer_remove_buffer taking `n` bytes, fewer than
   * `src` holds: the covered chains relinked and counted, the rest copied
   * with evbuffer_add (which invokes the callbacks), then the callbacks
   * invoked once more.  The result of evbuffer_add is ignored: when it
   * cannot allocate the chain it needs, the copied part never arrives and
   * only the relinked bytes reach `dst`.
   */
  function RemovePartialDst(src: Buffer, dst: Buffer, n: nat, allocOk: bool): (r: Buffer)
    requires Valid(src) && Valid(dst) && 0 < n < src.list.totalLen && !dst.freezeEnd
    ensures var p := PartialDst(dst.list, src.list, n);
            if !allocOk && ChainList.AddAllocates(p.0, |p.2|) then Received(src, dst, r, p.1)
            else Received(src, dst, r, n)
  {
    var p := PartialDst(dst.list, src.list, n);
    CopyRest(src, dst, n, p.0, p.1, p.2, allocOk)
  }

  /**
   * The tail of evbuffer_remove_buffer on the destination's side: `l` holds
   * the relinked chains (`k` bytes), and `rest` is copied with evbuffer_add.
   */
  function CopyRest(src: Buffer, dst: Buffer, n: nat, l: ChainList.Chains, k: nat, rest: seq<Byte>, allocOk: bool): (r: Buffer)
    requires Valid(src) && Valid(dst) && ChainList.Valid(l) && !dst.freezeEnd
    requires k + |rest| == n <= |Contents(src)|
    requires Bytes(l.chunks) == Contents(dst) + Contents(src)[..k] && rest == Contents(src)[k..n]
    ensures !allocOk && ChainList.AddAllocates(l, |rest|) ==> Received(src, dst, r, k)
    ensures allocOk || !ChainList.AddAllocates(l, |rest|) ==> Received(src, dst, r, n)
  {
    var d1 := dst.(list := l, nAddForCb := dst.nAddForCb + k);
    SameHandles(dst, d1);
    var a := Add(d1, rest, allocOk);
    if a.1 == -1 then
      CopyFailed(src, dst, n, d1, k);
      Invoke(d1)
    else
      CopyDone(src, dst, n, d1, a.0, k, rest);
      Invoke(a.0)
  }

  /**
   * `r` is `dst` after receiving the first `got` bytes of `src` at its end,
   * with those bytes reported to its callbacks.
   */
  predicate Received(src: Buffer, dst: Buffer, r: Buffer, got: int) {
    0 <= got <= |Contents(src)| && Valid(r)
    && Contents(r) == Contents(dst) + Contents(src)[..got] && Reports(dst, r, got, 0)
  }

  /** When the evbuffer_add of remove_buffer fails, `dst` ends with just the relinked bytes, reported. */
  lemma CopyFailed(src: Buffer, dst: Buffer, n: nat, d1: Buffer, k: nat)
    requires Valid(src) && Valid(dst) && k <= n <= |Contents(src)|
    requires d1 == dst.(list := d1.list, nAddForCb := dst.nAddForCb + k) && ChainList.Valid(d1.list)
    requires Bytes(d1.list.chunks) == Bytes(dst.list.chunks) + Bytes(src.list.chunks)[..k]
    ensures Received(src, dst, Invoke(d1), k)
  {
    InvokeReports(dst, d1, k, 0);
    SameHandles(dst, d1);
    SameHandles(d1, Invoke(d1));
  }

  /** When it succeeds, `dst` ends with all `n` bytes, reported once. */
  lemma CopyDone(src: Buffer, dst: Buffer, n: nat, d1: Buffer, a: Buffer, k: nat, rest: seq<Byte>)
    requires k + |rest| == n <= |Contents(src)|
    requires d1 == dst.(list := d1.list, nAddForCb := dst.nAddForCb + k)
    requires Contents(d1) == Contents(dst) + Contents(src)[..k]
    requires rest == Contents(src)[k..n]
    requires Valid(a) && Contents(a) == Contents(d1) + rest && Reports(d1, a, |rest|, 0)
    ensures Received(src, dst, a, n) && Invoke(a) == a
  {
    ReportsSplit(dst, d1, a, k, |rest|, n, 0);
    PrefixJoin(Contents(src), k, n);
  }

  lemma PrefixJoin(s: seq<Byte>, k: nat, n: nat)
    requires k <= n <= |s|
    ensures s[..n] == s[..k] + s[k..n]
  {
  }

  /**
   * evbuffer_remove_buffer(src, dst, n): moves the first `min(n, length of
   * src)` bytes of `src` to the end of `dst` and returns that count.  A
   * count of 0 or the same buffer gives 0; a frozen end of `dst` or start
   * of `src` gives -1; asking for everything is AddBuffer.  Otherwise the
   * whole chains the count covers are relinked (when they hold any bytes)
   * and the rest is copied with evbuffer_add.  Returns the new `src`, the
   * new `dst` and the result, which is the count taken from `src` even
   * when the copy into `dst` failed for want of memory.
   */
  function RemoveBuffer(src: Buffer, dst: Buffer, n: nat, allocOk: bool): (r: (Buffer, Buffer, int))
    requires Valid(src) && Valid(dst)
    ensures n == 0 || dst.id == src.id ==> r == (src, dst, 0)
    ensures n > 0 && dst.id != src.id && (dst.freezeEnd || src.freezeStart) ==> r == (src, dst, -1)
    ensures n >= src.list.totalLen && n > 0 && dst.id != src.id && !dst.freezeEnd && !src.freezeStart ==>
              var a := AddBuffer(dst, src);
              r == (a.1, a.0, src.list.totalLen)
    ensures 0 < n && dst.id != src.id && !dst.freezeEnd && !src.freezeStart ==>
              var m := Min(n, src.list.totalLen);
              r.2 == m && (m == 0 ==> r == (src, dst, 0))
              && (m > 0 ==> Valid(r.0) && Contents(r.0) == Contents(src)[m..] && Reports(src, r.0, 0, m)
                            && (Received(src, dst, r.1, m)
                                || (!allocOk && n < src.list.totalLen
                                    && Received(src, dst, r.1, PartialDst(dst.list, src.list, n).1))))
    ensures 0 < n <= src.list.totalLen && dst.id != src.id && !dst.freezeEnd && !src.freezeStart && allocOk ==>
              Received(src, dst, r.1, n)
  {
    if n == 0 || dst.id == src.id then (src, dst, 0)
    else if dst.freezeEnd || src.freezeStart then (src, dst, -1)
    else if n >= src.list.totalLen then
      var a := AddBuffer(dst, src);
      (a.1, a.0, src.list.totalLen as int)
    else
      (Commit(src, PartialSrc(src.list, n), 0, n), RemovePartialDst(src, dst, n, allocOk), n)
  }

  /**
   * evbuffer_remove_buffer can report a byte as moved that never arrives:
   * taking one byte of a two-byte chain into an empty buffer needs a new
   * chain there, and when that allocation fails the byte has left `src`,
   * is absent from `dst`, and the result is still 1.
   */
  lemma RemoveBufferLosesByte()
    ensures var src := EvBuffer.New(1).(list := ChainList.Chains([Chunk([1, 2], 0, 2, NoFlags)], 2, None));
            Valid(src) && Contents(src) == [1, 2]
            && var r := RemoveBuffer(src, EvBuffer.New(2), 1, false);
            r.2 == 1 && Contents(r.0) == [2] && Contents(r.1) == []
  {
    var src := EvBuffer.New(1).(list := ChainList.Chains([Chunk([1, 2], 0, 2, NoFlags)], 2, None));
    var dst := EvBuffer.New(2);
    assert Bytes(src.list.chunks) == [1, 2] + Bytes([]);
    var p := PartialDst(dst.list, src.list, 1);
    assert p.1 == 0 by {
      var w := ChainList.TransferWalk(src.list.chunks, 1);
      assert w.freed == 0;
      assert src.list.chunks[..0] == [];
    }
    assert Contents(src)[..0] == [];
    assert Contents(src)[1..] == [2];
  }
}
