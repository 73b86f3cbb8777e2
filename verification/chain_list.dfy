/**
 * The chain list of an evbuffer: `first`/`last` (the sequence itself),
 * `previous_to_last` (an index) and `total_len`, with the list surgery the
 * buffer operations share.  Each function keeps the layout invariant the
 * regression tests check and says how the bytes change.
 */
module ChainList {
  import opened Basics
  import opened Chain

  /** EVBUFFER_CHAIN_MAX_AUTO_SIZE: the growth limit for chains made by add. */
  const MAX_AUTO_SIZE: nat := 4096

  datatype Chains = Chains(chunks: seq<Chunk>, totalLen: nat, prevToLast: Option<nat>)

  /** The empty list (ZERO_CHAIN). */
  const Empty := Chains([], 0, None)

  function Last(cs: seq<Chunk>): Chunk
    requires |cs| > 0
  {
    cs[|cs| - 1]
  }

  /** Where previous_to_last must point in a list of `n` chains. */
  function PrevToLastFor(n: nat): Option<nat> {
    if n <= 1 then None else Some(n - 2)
  }

  /**
   * A chain that may sit in a buffer: laid out correctly, not dangling, and
   * if immutable then filled to the end of its memory.
   */
  predicate ChunkOk(c: Chunk) {
    c.WellFormed() && !c.flags.dangling
    && (c.flags.immutable ==> c.misalign + |c.data| == c.bufferLen)
  }

  predicate AllOk(cs: seq<Chunk>) {
    forall i :: 0 <= i < |cs| ==> ChunkOk(cs[i])
  }

  /**
   * The structural invariant the regression tests check after every
   * operation: total_len is the sum of the chains' `off`, every chain fits
   * its memory, and previous_to_last is the chain before the tail (NULL for
   * zero or one chain).
   */
  predicate Valid(l: Chains) {
    AllOk(l.chunks)
    && l.totalLen == |Bytes(l.chunks)|
    && l.prevToLast == PrevToLastFor(|l.chunks|)
  }

  /** Sum of `off` over the chains, as the test validator adds it up. */
  function SumOff(cs: seq<Chunk>): nat {
    if |cs| == 0 then 0 else |cs[0].data| + SumOff(cs[1..])
  }

  /** total_len equals the validator's sum exactly when it counts the bytes. */
  lemma {:induction false} SumOffIsLength(cs: seq<Chunk>)
    ensures SumOff(cs) == |Bytes(cs)|
    decreases |cs|
  {
    if |cs| > 0 {
      SumOffIsLength(cs[1..]);
    }
  }

  lemma NonEmpty(l: Chains)
    requires Valid(l) && l.totalLen > 0
    ensures |l.chunks| > 0
  {
  }

  lemma BytesOne(c: Chunk)
    ensures Bytes([c]) == c.data
  {
    assert Bytes([c]) == c.data + Bytes([c][1..]);
    assert [c][1..] == [];
  }

  /** Replacing the last chain keeps the other chains' bytes in front. */
  lemma BytesReplaceLast(cs: seq<Chunk>, c: Chunk)
    requires |cs| > 0
    ensures Bytes(cs[..|cs| - 1] + [c]) == Bytes(cs[..|cs| - 1]) + c.data
    ensures Bytes(cs) == Bytes(cs[..|cs| - 1]) + Last(cs).data
  {
    BytesSnoc(cs[..|cs| - 1], c);
    BytesDropLast(cs);
  }

  lemma BytesDropLast(cs: seq<Chunk>)
    requires |cs| > 0
    ensures Bytes(cs) == Bytes(cs[..|cs| - 1]) + Last(cs).data
  {
    var init := cs[..|cs| - 1];
    assert init + [Last(cs)] == cs;
    BytesSnoc(init, Last(cs));
  }

  /**
   * Swaps the last chain for `c`, whose bytes extend the old last chain's
   * by `extra`; the list shape and previous_to_last stay as they are.
   */
  function ReplaceLast(l: Chains, c: Chunk, extra: seq<Byte>): (r: Chains)
    requires Valid(l) && |l.chunks| > 0 && ChunkOk(c)
    requires c.data == Last(l.chunks).data + extra
    ensures Valid(r) && Bytes(r.chunks) == Bytes(l.chunks) + extra
    ensures |r.chunks| == |l.chunks| && Last(r.chunks) == c
    ensures r.chunks[..|r.chunks| - 1] == l.chunks[..|l.chunks| - 1]
  {
    var n := |l.chunks|;
    var cs := l.chunks[..n - 1] + [c];
    BytesReplaceLast(l.chunks, c);
    assert AllOk(cs) by {
      forall i | 0 <= i < n ensures ChunkOk(cs[i]) {
        if i < n - 1 { assert cs[i] == l.chunks[i]; }
      }
    }
    assert cs[..n - 1] == l.chunks[..n - 1];
    Chains(cs, l.totalLen + |extra|, l.prevToLast)
  }

  /**
   * evbuffer_chain_insert: appends a chain, first dropping an empty,
   * unpinned last chain.  When that empty chain is the only one, the source
   * writes through a NULL previous_to_last (see InsertAsWritten); here the
   * new chain simply becomes the only chain.
   */
  function Insert(l: Chains, c: Chunk): (r: Chains)
    requires Valid(l) && ChunkOk(c)
    ensures Valid(r) && Bytes(r.chunks) == Bytes(l.chunks) + c.data
    ensures |r.chunks| > 0 && Last(r.chunks) == c
    ensures |l.chunks| > 0 && (Last(l.chunks).data != [] || Last(l.chunks).Pinned())
            ==> r.chunks == l.chunks + [c]
    ensures |l.chunks| > 0 && Last(l.chunks).data == [] && !Last(l.chunks).Pinned()
            ==> r.chunks == l.chunks[..|l.chunks| - 1] + [c]
  {
    var n := |l.chunks|;
    var total := l.totalLen + |c.data|;
    BytesOne(c);
    if n == 0 then
      Chains([c], total, None)
    else if Last(l.chunks).data == [] && !Last(l.chunks).Pinned() then
      if l.prevToLast.None? then
        assert l.chunks[..n - 1] == [];
        BytesReplaceLast(l.chunks, c);
        Chains([c], total, None)
      else
        ReplaceLast(l, c, c.data).(totalLen := total)
    else
      BytesSnoc(l.chunks, c);
      Chains(l.chunks + [c], total, Some(n - 1))
  }

  /**
   * evbuffer_chain_insert exactly as written: `None` when it writes
   * through a NULL previous_to_last.
   */
  function InsertAsWritten(l: Chains, c: Chunk): (r: Option<Chains>)
    requires Valid(l) && ChunkOk(c)
    ensures r.None? <==> |l.chunks| == 1 && l.chunks[0].data == [] && !l.chunks[0].Pinned()
    ensures r.Some? ==> r.value == Insert(l, c)
  {
    var n := |l.chunks|;
    var total := l.totalLen + |c.data|;
    if n == 0 then Some(Chains([c], total, None))
    else if Last(l.chunks).data == [] && !Last(l.chunks).Pinned() then
      if l.prevToLast.None? then None
      else Some(Chains(l.chunks[..n - 1] + [c], total, l.prevToLast))
    else Some(Chains(l.chunks + [c], total, Some(n - 1)))
  }

  /** The last chain is a plain chain with room for `n` more bytes. */
  predicate LastWritable(l: Chains, n: nat)
    requires Valid(l)
  {
    |l.chunks| > 0 && !Last(l.chunks).flags.immutable && !Last(l.chunks).Pinned()
    && Last(l.chunks).SpaceLen() >= n
  }

  /**
   * evbuffer_expand: makes room for `n` bytes after the data: a new chain
   * when there is none or the last is immutable or pinned, otherwise the
   * last chain as is, realigned, or reallocated larger.
   */
  function Expand(l: Chains, n: nat): (r: Chains)
    requires Valid(l)
    ensures Valid(r) && Bytes(r.chunks) == Bytes(l.chunks)
    ensures LastWritable(r, n)
  {
    var k := |l.chunks|;
    if k == 0 || Last(l.chunks).flags.immutable || Last(l.chunks).Pinned() then
      Insert(l, Chain.New(n))
    else
      var last := Last(l.chunks);
      if last.bufferLen >= last.misalign + |last.data| + n then l
      else if last.bufferLen - |last.data| >= n then
        ReplaceLast(l, Align(last), [])
      else
        var tmp := Chain.New(last.bufferLen - last.misalign + n).(data := last.data);
        ReplaceLast(l, tmp, [])
  }

  /**
   * Whether evbuffer_expand calls evbuffer_chain_new for `n` bytes: there
   * is no last chain, it is immutable or pinned, or neither its room nor a
   * realignment makes space.
   */
  predicate ExpandAllocates(l: Chains, n: nat)
    requires Valid(l)
  {
    |l.chunks| == 0 || Last(l.chunks).flags.immutable || Last(l.chunks).Pinned()
    || (Last(l.chunks).bufferLen < Last(l.chunks).misalign + |Last(l.chunks).data| + n
        && Last(l.chunks).bufferLen - |Last(l.chunks).data| < n)
  }

  /** When evbuffer_expand needs no allocation it keeps every chain's memory: only a realignment may happen. */
  lemma ExpandWithoutAlloc(l: Chains, n: nat)
    requires Valid(l) && !ExpandAllocates(l, n)
    ensures |Expand(l, n).chunks| == |l.chunks|
    ensures Expand(l, n).chunks[..|l.chunks| - 1] == l.chunks[..|l.chunks| - 1]
    ensures Last(Expand(l, n).chunks).bufferLen == Last(l.chunks).bufferLen
    ensures Last(Expand(l, n).chunks).data == Last(l.chunks).data
  {
  }

  /**
   * Whether evbuffer_add has to allocate a chain for `n` bytes: there is no
   * chain yet (evbuffer_expand allocates one), or the last chain can take
   * them neither in its room nor after realigning.
   */
  predicate AddAllocates(l: Chains, n: nat)
    requires Valid(l)
  {
    |l.chunks| == 0
    || (var last := Last(l.chunks);
        last.flags.immutable
        || (last.SpaceLen() < n && (last.misalign < n || last.Pinned())))
  }

  /**
   * The chain work of evbuffer_add: the new list and how many of the bytes
   * the source counts for the callbacks (all of them when they fit in the
   * last chain, otherwise only those placed in the old last chain).
   */
  function AddPlace(l: Chains, d: seq<Byte>): (r: (Chains, nat))
    requires Valid(l)
    ensures Valid(r.0) && Bytes(r.0.chunks) == Bytes(l.chunks) + d
    ensures r.1 <= |d|
  {
    var l1 := if |l.chunks| == 0 then Expand(l, |d|) else l;
    (AddToLast(l1, d), Counted(Last(l1.chunks), d))
  }

  /** evbuffer_add once there is a last chain: fill it, realign it, or spill into a new one. */
  function AddToLast(l: Chains, d: seq<Byte>): (r: Chains)
    requires Valid(l) && |l.chunks| > 0
    ensures Valid(r) && Bytes(r.chunks) == Bytes(l.chunks) + d
  {
    var last := Last(l.chunks);
    if !last.flags.immutable && last.SpaceLen() >= |d| then FillLast(l, d)
    else if !last.flags.immutable && last.misalign >= |d| && !last.Pinned() then AlignFill(l, d)
    else AddSpill(l, d)
  }

  /**
   * How many bytes evbuffer_add counts: all of them when they fit into the
   * last chain, directly or after realigning it, otherwise only those that
   * fill the old last chain's room.
   */
  function Counted(last: Chunk, d: seq<Byte>): (n: nat)
    requires last.WellFormed()
    ensures n <= |d|
    ensures n < |d| ==> n == last.SpaceLen()
  {
    if !last.flags.immutable && last.SpaceLen() >= |d| then |d|
    else if !last.flags.immutable && last.misalign >= |d| && !last.Pinned() then |d|
    else last.SpaceLen()
  }

  /** Realigns a mutable, unpinned last chain and appends bytes into the room gained. */
  function AlignFill(l: Chains, d: seq<Byte>): (r: Chains)
    requires Valid(l) && |l.chunks| > 0
    requires !Last(l.chunks).flags.immutable && !Last(l.chunks).Pinned() && Last(l.chunks).misalign >= |d|
    ensures Valid(r) && Bytes(r.chunks) == Bytes(l.chunks) + d
  {
    var last := Last(l.chunks);
    ReplaceLast(l, Align(last).(data := last.data + d), d)
  }

  /**
   * The last branch of evbuffer_add: fill what room the last chain has
   * and put the rest into a new chain, twice the old one's size while that
   * stays within MAX_AUTO_SIZE.
   */
  function AddSpill(l: Chains, d: seq<Byte>): (r: Chains)
    requires Valid(l) && |l.chunks| > 0
    requires Last(l.chunks).flags.immutable || Last(l.chunks).SpaceLen() < |d|
    ensures Valid(r) && Bytes(r.chunks) == Bytes(l.chunks) + d
  {
    var last := Last(l.chunks);
    var remain := last.SpaceLen();
    var grown := if last.bufferLen <= MAX_AUTO_SIZE / 2 then 2 * last.bufferLen else last.bufferLen;
    var l2 := FillLast(l, d[..remain]);
    var r := Link(l2, NewHolding(Max(grown, |d|), d[remain..]));
    AppendSplit(Bytes(l.chunks), d, remain);
    r
  }

  /** Insert, seen only through the bytes it appends. */
  function Link(l: Chains, c: Chunk): (r: Chains)
    requires Valid(l) && ChunkOk(c)
    ensures Valid(r) && Bytes(r.chunks) == Bytes(l.chunks) + c.data
  {
    Insert(l, c)
  }

  /** Appends bytes into the room of a mutable last chain. */
  function FillLast(l: Chains, extra: seq<Byte>): (r: Chains)
    requires Valid(l) && |l.chunks| > 0
    requires extra == [] || (!Last(l.chunks).flags.immutable && |extra| <= Last(l.chunks).SpaceLen())
    ensures Valid(r) && Bytes(r.chunks) == Bytes(l.chunks) + extra
  {
    var last := Last(l.chunks);
    ReplaceLast(l, last.(data := last.data + extra), extra)
  }

  /** A new chain of at least `size` bytes holding `bytes`. */
  function NewHolding(size: nat, bytes: seq<Byte>): (c: Chunk)
    requires |bytes| <= size
    ensures ChunkOk(c) && c.data == bytes && !c.Pinned() && !c.flags.immutable
  {
    Chain.New(size).(data := bytes)
  }

  lemma AppendSplit(a: seq<Byte>, d: seq<Byte>, k: nat)
    requires k <= |d|
    ensures a + d[..k] + d[k..] == a + d
  {
    assert d[..k] + d[k..] == d;
  }

  /** Swaps the first chain for `h`, whose bytes are `extra` followed by the old first chain's. */
  function ReplaceFirst(l: Chains, h: Chunk, extra: seq<Byte>): (r: Chains)
    requires Valid(l) && |l.chunks| > 0 && ChunkOk(h)
    requires h.data == extra + l.chunks[0].data
    ensures Valid(r) && Bytes(r.chunks) == extra + Bytes(l.chunks)
    ensures |r.chunks| == |l.chunks| && r.chunks[0] == h && r.chunks[1..] == l.chunks[1..]
  {
    var cs := [h] + l.chunks[1..];
    assert cs[1..] == l.chunks[1..];
    assert AllOk(cs) by {
      forall i | 0 <= i < |cs| ensures ChunkOk(cs[i]) {
        if i > 0 { assert cs[i] == l.chunks[i]; }
      }
    }
    Chains(cs, l.totalLen + |extra|, l.prevToLast)
  }

  /**
   * Links `c` in front of the first chain; previous_to_last keeps pointing
   * at the same chain, or becomes `c` when there was a single chain.
   */
  function PushFront(l: Chains, c: Chunk): (r: Chains)
    requires Valid(l) && |l.chunks| > 0 && ChunkOk(c)
    ensures Valid(r) && Bytes(r.chunks) == c.data + Bytes(l.chunks)
    ensures r.chunks == [c] + l.chunks
  {
    var ptl := match l.prevToLast
               case None => Some(0)
               case Some(p) => Some(p + 1);
    var cs := [c] + l.chunks;
    assert cs[1..] == l.chunks;
    assert AllOk(cs) by {
      forall i | 0 <= i < |cs| ensures ChunkOk(cs[i]) {
        if i > 0 { assert cs[i] == l.chunks[i - 1]; }
      }
    }
    Chains(cs, l.totalLen + |c.data|, ptl)
  }

  /**
   * What an empty buffer looks like in evbuffer_prepend after expanding:
   * one empty chain whose whole memory is misalignment.
   */
  function PrependSeed(n: nat): (r: Chains)
    ensures Valid(r) && Bytes(r.chunks) == [] && |r.chunks| == 1
    ensures !r.chunks[0].flags.immutable && r.chunks[0].misalign >= n
  {
    var c := Chain.New(n);
    BytesOne(c.(misalign := c.bufferLen));
    Chains([c.(misalign := c.bufferLen)], 0, None)
  }

  /** The expansion evbuffer_prepend performs on an empty buffer is PrependSeed. */
  lemma PrependSeedIsExpand(n: nat)
    ensures Expand(Empty, n).chunks == [Chain.New(n)]
    ensures PrependSeed(n).chunks == [Chain.New(n).(misalign := Chain.New(n).bufferLen)]
  {
  }

  /**
   * The chain work of evbuffer_prepend and the amount the source adds to
   * n_add_for_cb: the bytes that fit in front of a mutable first chain,
   * plus, when a new chain is needed, the old first chain's misalignment at
   * that point instead of the bytes placed in the new chain.
   */
  function PrependPlace(l: Chains, d: seq<Byte>): (r: (Chains, nat))
    requires Valid(l)
    ensures Valid(r.0) && Bytes(r.0.chunks) == d + Bytes(l.chunks)
    ensures |l.chunks| > 0 && l.chunks[0].flags.immutable
            ==> |r.0.chunks| == |l.chunks| + 1 && r.0.chunks[1..] == l.chunks
  {
    var l1 := if |l.chunks| == 0 then PrependSeed(|d|) else l;
    var head := l1.chunks[0];
    if !head.flags.immutable && head.misalign >= |d| then
      var h := head.(data := d + head.data, misalign := head.misalign - |d|);
      (ReplaceFirst(l1, h, d), |d|)
    else
      var (l2, m) := PrependFill(l1, d);
      var h := l2.chunks[0];
      var rest := d[..|d| - m];
      var tmp0 := Chain.New(|rest|);
      var tmp := tmp0.(data := rest, misalign := tmp0.bufferLen - |rest|);
      assert d == rest + d[|d| - m..];
      (PushFront(l2, tmp), m + h.misalign)
  }

  /** Whether evbuffer_prepend has to allocate a chain for `n` bytes in front. */
  predicate PrependAllocates(l: Chains, n: nat) {
    |l.chunks| == 0 || l.chunks[0].flags.immutable || l.chunks[0].misalign < n
  }

  /**
   * The part of evbuffer_prepend's slow path that runs before the new chain
   * is allocated: the last `m` bytes of `d` fill a mutable first chain's
   * misalignment (none for an immutable one), and `m` is what n_add_for_cb
   * gains.  When the allocation then fails, this is what the buffer keeps.
   */
  function PrependFill(l: Chains, d: seq<Byte>): (r: (Chains, nat))
    requires Valid(l) && |l.chunks| > 0
    requires l.chunks[0].flags.immutable || l.chunks[0].misalign < |d|
    ensures Valid(r.0) && r.1 <= |d| && Bytes(r.0.chunks) == d[|d| - r.1..] + Bytes(l.chunks)
    ensures r.1 < |d| || |d| == 0
    ensures |r.0.chunks| == |l.chunks| && r.0.chunks[1..] == l.chunks[1..]
    ensures l.chunks[0].flags.immutable ==> r == (l, 0)
    ensures !l.chunks[0].flags.immutable ==> r.0.chunks[0].misalign == 0
  {
    var head := l.chunks[0];
    if head.flags.immutable then
      assert d[|d|..] == [];
      (l, 0)
    else
      var m := head.misalign;
      var h := head.(data := d[|d| - m..] + head.data, misalign := 0);
      (ReplaceFirst(l, h, d[|d| - m..]), m)
  }

  // ---------------------------------------------------------------------
  // Removing from the front

  /** Where a walk over the front chains stops. */
  datatype Stop = Stop(freed: nat, rest: nat, pinnedBreak: bool)

  /**
   * The loop of evbuffer_drain: frees every chain the remaining count
   * covers, but stops at a read-pinned chain on which the count reaches
   * exactly zero.  The source never runs off the list: the count is below
   * the total, or the last chain is read-pinned.
   */
  function DrainWalk(cs: seq<Chunk>, len: nat): (s: Stop)
    requires |cs| > 0 && len <= |Bytes(cs)|
    requires len < |Bytes(cs)| || Last(cs).flags.pinnedR
    ensures s.freed < |cs|
    ensures s.pinnedBreak ==> s.rest == 0 && cs[s.freed].flags.pinnedR
                              && |Bytes(cs[..s.freed])| + |cs[s.freed].data| == len
    ensures !s.pinnedBreak ==> s.rest < |cs[s.freed].data| && |Bytes(cs[..s.freed])| + s.rest == len
    decreases |cs|
  {
    if len >= |cs[0].data| then
      var r := len - |cs[0].data|;
      if r == 0 && cs[0].flags.pinnedR then
        assert cs[..0] == [];
        Stop(0, 0, true)
      else
        var s := DrainWalk(cs[1..], r);
        assert cs[..s.freed + 1] == [cs[0]] + cs[1..][..s.freed];
        assert Bytes(cs[..s.freed + 1]) == cs[0].data + Bytes(cs[1..][..s.freed]);
        Stop(s.freed + 1, s.rest, s.pinnedBreak)
    else
      assert cs[..0] == [];
      Stop(0, len, false)
  }

  /**
   * The loop of evbuffer_remove: copies and frees whole chains while some
   * count remains and it covers the next chain.
   */
  function RemoveWalk(cs: seq<Chunk>, len: nat): (s: Stop)
    requires len <= |Bytes(cs)|
    ensures !s.pinnedBreak
    ensures s.freed <= |cs| && |Bytes(cs[..s.freed])| + s.rest == len
    ensures s.rest > 0 ==> s.freed < |cs| && s.rest < |cs[s.freed].data|
    decreases |cs|
  {
    if len == 0 then
      assert cs[..0] == [];
      Stop(0, 0, false)
    else if len >= |cs[0].data| then
      var s := RemoveWalk(cs[1..], len - |cs[0].data|);
      assert cs[..s.freed + 1] == [cs[0]] + cs[1..][..s.freed];
      assert Bytes(cs[..s.freed + 1]) == cs[0].data + Bytes(cs[1..][..s.freed]);
      Stop(s.freed + 1, s.rest, false)
    else
      assert cs[..0] == [];
      Stop(0, len, false)
  }

  /** Bytes of a list cut at chain `k`. */
  lemma BytesAround(cs: seq<Chunk>, k: nat)
    requires k < |cs|
    ensures Bytes(cs) == Bytes(cs[..k]) + cs[k].data + Bytes(cs[k + 1..])
  {
    BytesSplit(cs, k);
    var tail := cs[k..];
    assert tail[0] == cs[k] && tail[1..] == cs[k + 1..];
    assert Bytes(tail) == tail[0].data + Bytes(tail[1..]);
  }

  /** A chain with its first `cut` bytes consumed: they become misalignment. */
  function TrimFront(c: Chunk, cut: nat): (r: Chunk)
    requires cut <= |c.data|
    ensures ChunkOk(c) ==> ChunkOk(r)
    ensures r.data == c.data[cut..] && r.flags == c.flags
    ensures r.data == c.data[|c.data| - |r.data|..]
  {
    c.(misalign := c.misalign + cut, data := c.data[cut..])
  }

  /**
   * Cuts the first `k` chains off and replaces chain `k` by `head`, which
   * keeps a suffix of its bytes; previous_to_last stays on the same chain
   * and is cleared when one chain is left.
   */
  function DropFront(l: Chains, k: nat, head: Chunk): (r: Chains)
    requires Valid(l) && k < |l.chunks| && ChunkOk(head)
    requires |head.data| <= |l.chunks[k].data|
    requires head.data == l.chunks[k].data[|l.chunks[k].data| - |head.data|..]
    ensures Valid(r)
    ensures r.chunks == [head] + l.chunks[k + 1..]
    ensures Bytes(l.chunks) == Bytes(l.chunks[..k]) + l.chunks[k].data + Bytes(l.chunks[k + 1..])
    ensures Bytes(r.chunks) == head.data + Bytes(l.chunks[k + 1..])
  {
    var cs := [head] + l.chunks[k + 1..];
    BytesAround(l.chunks, k);
    assert cs[1..] == l.chunks[k + 1..];
    assert Bytes(cs) == head.data + Bytes(l.chunks[k + 1..]);
    var ptl := if |cs| == 1 then None
               else match l.prevToLast
                    case None => None
                    case Some(p) => Some(p - k);
    assert AllOk(cs) by {
      forall i | 0 <= i < |cs| ensures ChunkOk(cs[i]) {
        if i > 0 { assert cs[i] == l.chunks[k + i]; }
      }
    }
    Chains(cs, |Bytes(cs)|, ptl)
  }

  /** Drops the first `k` chains whole; previous_to_last is cleared once one chain or none is left. */
  function DropWhole(l: Chains, k: nat): (r: Chains)
    requires Valid(l) && k <= |l.chunks|
    ensures Valid(r) && r.chunks == l.chunks[k..]
    ensures Bytes(l.chunks) == Bytes(l.chunks[..k]) + Bytes(r.chunks)
  {
    var cs := l.chunks[k..];
    BytesSplit(l.chunks, k);
    var ptl := if |cs| <= 1 then None
               else match l.prevToLast
                    case None => None
                    case Some(p) => Some(p - k);
    assert AllOk(cs) by {
      forall i | 0 <= i < |cs| ensures ChunkOk(cs[i]) {
        assert cs[i] == l.chunks[k + i];
      }
    }
    Chains(cs, |Bytes(cs)|, ptl)
  }

  /**
   * The list after evbuffer_drain removes `len` bytes from a non-empty
   * list (`len <= total_len`; a count of 0 still frees empty front chains): everything goes unless the last chain is
   * read-pinned; a read-pinned chain on which the count ends stays, emptied.
   */
  function DrainChains(l: Chains, len: nat): (r: Chains)
    requires Valid(l) && len <= l.totalLen && l.totalLen > 0
    ensures Valid(r) && Bytes(r.chunks) == Bytes(l.chunks)[len..]
    ensures Last(l.chunks).flags.pinnedR ==> |r.chunks| > 0 && Last(r.chunks).flags == Last(l.chunks).flags
  {
    NonEmpty(l);
    if len == l.totalLen && !Last(l.chunks).flags.pinnedR then Empty
    else
      var s := DrainWalk(l.chunks, len);
      var r := DrainAt(l, len, s);
      assert Last(r.chunks).flags == Last(l.chunks).flags by {
        if s.freed + 1 < |l.chunks| {
          assert Last(r.chunks) == r.chunks[1..][|l.chunks| - s.freed - 2];
        }
      }
      r
  }

  /**
   * The list evbuffer_drain leaves once its loop stopped at chain `s.freed`:
   * the chains before it are gone and that chain keeps what the count did
   * not reach, or is emptied in place when it is read-pinned.
   */
  function DrainAt(l: Chains, len: nat, s: Stop): (r: Chains)
    requires Valid(l) && s.freed < |l.chunks| && len <= l.totalLen
    requires s.pinnedBreak ==> s.rest == 0 && |Bytes(l.chunks[..s.freed])| + |l.chunks[s.freed].data| == len
    requires !s.pinnedBreak ==> s.rest < |l.chunks[s.freed].data| && |Bytes(l.chunks[..s.freed])| + s.rest == len
    ensures Valid(r) && Bytes(r.chunks) == Bytes(l.chunks)[len..]
    ensures |r.chunks| == |l.chunks| - s.freed && r.chunks[1..] == l.chunks[s.freed + 1..]
    ensures r.chunks[0].flags == l.chunks[s.freed].flags
  {
    var c := l.chunks[s.freed];
    var cut := if s.pinnedBreak then |c.data| else s.rest;
    var head := TrimFront(c, cut);
    var r := DropFront(l, s.freed, head);
    var before, after := Bytes(l.chunks[..s.freed]), Bytes(l.chunks[s.freed + 1..]);
    assert |before| + cut == len;
    assert Bytes(r.chunks) == Bytes(l.chunks)[len..] by {
      SuffixOfThree(before, c.data, after, cut);
    }
    assert r.chunks[1..] == l.chunks[s.freed + 1..];
    r
  }

  lemma PrefixOfThree(a: seq<Byte>, c: seq<Byte>, b: seq<Byte>, x: nat)
    requires x <= |c|
    ensures (a + c + b)[..|a| + x] == a + c[..x]
  {
    assert (a + c + b)[..|a| + x] == (a + c)[..|a| + x];
  }

  lemma SuffixOfThree(a: seq<Byte>, c: seq<Byte>, b: seq<Byte>, x: nat)
    requires x <= |c|
    ensures (a + c + b)[|a| + x..] == c[x..] + b
  {
    assert (a + c + b)[|a| + x..] == (a + c + b)[|a|..][x..];
    assert (a + c + b)[|a|..] == c + b;
  }

  /**
   * The list evbuffer_drain leaves as written: a read-pinned chain on which
   * the count ends keeps its bytes although total_len drops by `len`.  Also
   * returns the count the source adds to n_del_for_cb: `len` when it frees
   * everything, otherwise what is left of it for the last chain reached.
   */
  function DrainChainsAsWritten(l: Chains, len: nat): (r: (Chains, nat))
    requires Valid(l) && len <= l.totalLen && l.totalLen > 0
    ensures r.0.totalLen == l.totalLen - len
    ensures r.1 <= len
    ensures len == l.totalLen && !Last(l.chunks).flags.pinnedR ==> r.0.chunks == [] && r.1 == len
    ensures !(len == l.totalLen && !Last(l.chunks).flags.pinnedR) ==>
              DrainLeft(l, len, DrainWalk(l.chunks, len), r.0, r.1)
  {
    NonEmpty(l);
    if len == l.totalLen && !Last(l.chunks).flags.pinnedR then (Empty, len)
    else
      var s := DrainWalk(l.chunks, len);
      var c := l.chunks[s.freed];
      var head := TrimFront(c, s.rest);
      var cs := [head] + l.chunks[s.freed + 1..];
      var ptl := if |cs| == 1 then None
                 else match l.prevToLast
                      case None => None
                      case Some(p) => Some(p - s.freed);
      var left := Chains(cs, l.totalLen - len, ptl);
      StopLeaves(l, len, s, left);
      (left, s.rest)
  }

  /** The chains from where the drain loop stopped on, the stopping chain trimmed by what is left of the count. */
  lemma StopLeaves(l: Chains, len: nat, s: Stop, left: Chains)
    requires Valid(l) && s.freed < |l.chunks| && len <= |Bytes(l.chunks)|
    requires s.pinnedBreak ==> s.rest == 0 && l.chunks[s.freed].flags.pinnedR
                               && |Bytes(l.chunks[..s.freed])| + |l.chunks[s.freed].data| == len
    requires !s.pinnedBreak ==> s.rest < |l.chunks[s.freed].data| && |Bytes(l.chunks[..s.freed])| + s.rest == len
    requires left.chunks == [TrimFront(l.chunks[s.freed], s.rest)] + l.chunks[s.freed + 1..]
    ensures DrainLeft(l, len, s, left, s.rest)
  {
    var c := l.chunks[s.freed];
    var before, after := Bytes(l.chunks[..s.freed]), Bytes(l.chunks[s.freed + 1..]);
    BytesAround(l.chunks, s.freed);
    assert left.chunks[1..] == l.chunks[s.freed + 1..];
    assert Bytes(left.chunks) == c.data[s.rest..] + after;
    if s.pinnedBreak {
      SuffixOfThree(before, c.data, after, |c.data|);
      assert c.data[|c.data|..] == [];
      assert c.data[0..] == c.data;
    } else {
      SuffixOfThree(before, c.data, after, s.rest);
    }
  }

  /**
   * What the drain loop as written leaves once it stopped at chain
   * `s.freed`: when it broke on a read-pinned chain that chain is kept
   * whole, its bytes still in front of the rest, and nothing is counted;
   * otherwise exactly the bytes after the count remain and the count is
   * what was left of `len` after the whole chains it freed.
   */
  predicate DrainLeft(l: Chains, len: nat, s: Stop, left: Chains, counted: nat)
    requires Valid(l) && s.freed < |l.chunks| && len <= |Bytes(l.chunks)|
  {
    |left.chunks| == |l.chunks| - s.freed && left.chunks[1..] == l.chunks[s.freed + 1..]
    && (s.pinnedBreak ==>
          counted == 0 && left.chunks[0] == l.chunks[s.freed] && l.chunks[s.freed].flags.pinnedR
          && Bytes(left.chunks) == l.chunks[s.freed].data + Bytes(l.chunks)[len..])
    && (!s.pinnedBreak ==>
          counted == len - |Bytes(l.chunks[..s.freed])| && Bytes(left.chunks) == Bytes(l.chunks)[len..])
  }

  /**
   * The list after evbuffer_remove takes `len` bytes (`len <= total_len`)
   * and the bytes it copies out, front chains first.
   */
  function RemoveChains(l: Chains, len: nat): (r: (Chains, seq<Byte>))
    requires Valid(l) && len <= l.totalLen
    ensures Valid(r.0)
    ensures r.1 == Bytes(l.chunks)[..len] && Bytes(r.0.chunks) == Bytes(l.chunks)[len..]
  {
    var s := RemoveWalk(l.chunks, len);
    if s.rest == 0 then
      var r := DropWhole(l, s.freed);
      (r, Bytes(l.chunks[..s.freed]))
    else
      var c := l.chunks[s.freed];
      var head := TrimFront(c, s.rest);
      var r := DropFront(l, s.freed, head);
      var a, b := Bytes(l.chunks[..s.freed]), Bytes(l.chunks[s.freed + 1..]);
      PrefixOfThree(a, c.data, b, s.rest);
      SuffixOfThree(a, c.data, b, s.rest);
      (r, Bytes(l.chunks[..s.freed]) + c.data[..s.rest])
  }

  /**
   * The loop of evbuffer_remove_buffer: passes over every chain the count
   * left covers (`off <= datlen`, so empty chains too).  The count is below
   * the total, so the walk stops inside the list.
   */
  function TransferWalk(cs: seq<Chunk>, len: nat): (s: Stop)
    requires len < |Bytes(cs)|
    ensures !s.pinnedBreak && s.freed < |cs|
    ensures |Bytes(cs[..s.freed])| + s.rest == len && s.rest < |cs[s.freed].data|
    decreases |cs|
  {
    assert |cs| > 0;
    assert Bytes(cs) == cs[0].data + Bytes(cs[1..]);
    if |cs[0].data| <= len then
      var s := TransferWalk(cs[1..], len - |cs[0].data|);
      assert cs[..s.freed + 1] == [cs[0]] + cs[1..][..s.freed];
      assert Bytes(cs[..s.freed + 1]) == cs[0].data + Bytes(cs[1..][..s.freed]);
      Stop(s.freed + 1, s.rest, false)
    else
      assert cs[..0] == [];
      Stop(0, len, false)
  }

  /** Puts `c` in place of chain `k`; the list shape and previous_to_last stay. */
  function ReplaceAt(l: Chains, k: nat, c: Chunk): (r: Chains)
    requires Valid(l) && k < |l.chunks| && ChunkOk(c)
    ensures Valid(r) && r.chunks == l.chunks[k := c]
    ensures Bytes(l.chunks) == Bytes(l.chunks[..k]) + l.chunks[k].data + Bytes(l.chunks[k + 1..])
    ensures Bytes(r.chunks) == Bytes(l.chunks[..k]) + c.data + Bytes(l.chunks[k + 1..])
  {
    var cs := l.chunks[k := c];
    BytesAround(l.chunks, k);
    BytesAround(cs, k);
    assert cs[..k] == l.chunks[..k] && cs[k + 1..] == l.chunks[k + 1..];
    assert AllOk(cs) by {
      forall i | 0 <= i < |cs| ensures ChunkOk(cs[i]) {
        if i != k { assert cs[i] == l.chunks[i]; }
      }
    }
    Chains(cs, |Bytes(cs)|, l.prevToLast)
  }

  /** One more chain adds its bytes to a prefix. */
  lemma PrefixStep(cs: seq<Chunk>, k: nat)
    requires k < |cs|
    ensures Bytes(cs[..k + 1]) == Bytes(cs[..k]) + cs[k].data
  {
    assert cs[..k + 1] == cs[..k] + [cs[k]];
    BytesSnoc(cs[..k], cs[k]);
  }

  /** Longer prefixes hold at least as many bytes. */
  lemma PrefixGrows(cs: seq<Chunk>, i: nat, j: nat)
    requires i <= j <= |cs|
    ensures |Bytes(cs[..i])| <= |Bytes(cs[..j])|
  {
    BytesSplit(cs[..j], i);
    assert cs[..j][..i] == cs[..i];
  }

  // ------------------------------------------------------------ witnesses

  /** A single empty, unpinned chain: what reserving ten bytes leaves in an empty buffer. */
  const OneEmpty := Chains([Chain.New(10)], 0, None)

  /** evbuffer_chain_insert as written dereferences a NULL previous_to_last on that list. */
  lemma InsertNullDeref(c: Chunk)
    requires ChunkOk(c)
    ensures Valid(OneEmpty)
    ensures InsertAsWritten(OneEmpty, c).None?
    ensures Insert(OneEmpty, c).chunks == [c]
  {
    assert Bytes(OneEmpty.chunks) == [] + Bytes([]);
  }

  /**
   * Draining all of a buffer whose only chain is read-pinned: as written
   * the chain keeps its two bytes while total_len drops to zero.
   */
  lemma DrainPinnedKeepsBytes()
    ensures var l := Chains([Chunk([1, 2], 0, 2, NoFlags.(pinnedR := true))], 2, None);
      Valid(l)
      && DrainChainsAsWritten(l, 2).0.totalLen == 0
      && Bytes(DrainChainsAsWritten(l, 2).0.chunks) == [1, 2]
      && !Valid(DrainChainsAsWritten(l, 2).0)
      && Bytes(DrainChains(l, 2).chunks) == []
  {
    var c := Chunk([1, 2], 0, 2, NoFlags.(pinnedR := true));
    var l := Chains([c], 2, None);
    assert Bytes(l.chunks) == [1, 2] + Bytes([]);
    assert DrainWalk(l.chunks, 2) == Stop(0, 0, true);
    var r := DrainChainsAsWritten(l, 2).0;
    assert r.chunks == [c];
    assert Bytes(r.chunks) == [1, 2] + Bytes([]);
  }

  /**
   * Draining two bytes from chains of one and two bytes: as written only
   * the one byte taken from the second chain is added to n_del_for_cb.
   */
  lemma DrainCountsResidual()
    ensures var l := Chains([Chunk([1], 0, 1, NoFlags), Chunk([2, 3], 0, 2, NoFlags)], 3, Some(0));
      Valid(l) && DrainChainsAsWritten(l, 2).1 == 1
  {
    var l := Chains([Chunk([1], 0, 1, NoFlags), Chunk([2, 3], 0, 2, NoFlags)], 3, Some(0));
    assert Bytes(l.chunks[1..]) == [2, 3] + Bytes([]);
    assert Bytes(l.chunks) == [1] + Bytes(l.chunks[1..]);
    assert DrainWalk(l.chunks[1..], 1) == Stop(0, 1, false);
    assert DrainWalk(l.chunks, 2) == Stop(1, 1, false);
  }

  /**
   * Adding one byte to a buffer whose only chain is full: as written the
   * byte goes into a new chain but zero bytes are counted for the callbacks.
   */
  lemma AddCountsNothing()
    ensures var l := Chains([Chunk([1], 0, 1, NoFlags)], 1, None);
      Valid(l) && Bytes(AddPlace(l, [7]).0.chunks) == [1, 7] && AddPlace(l, [7]).1 == 0
  {
    var l := Chains([Chunk([1], 0, 1, NoFlags)], 1, None);
    assert Bytes(l.chunks) == [1] + Bytes([]);
  }
}
