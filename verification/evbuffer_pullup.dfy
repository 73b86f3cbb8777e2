/**
 * evbuffer_pullup: makes the first `size` bytes of a buffer contiguous in
 * its first chain, copying them out of the chains that follow.
 */
module EvBufferPullup {
  import opened Basics
  import opened Chain
  import ChainList
  import opened EvBuffer

  /**
   * The pin check of evbuffer_pullup, from chain `k` on: with `remaining`
   * bytes still needed before chain `k`, a pinned chain fails the check and
   * a chain holding the remaining bytes ends it.  It passes exactly when no
   * chain from `k` on that starts before byte `want` is pinned.
   */
  function PinCheck(cs: seq<Chunk>, k: nat, want: nat, remaining: int): (ok: bool)
    requires k <= |cs| && remaining == want - |Bytes(cs[..k])| && remaining > 0
    ensures ok <==> forall j :: k <= j < |cs| && |Bytes(cs[..j])| < want ==> !cs[j].Pinned()
    decreases |cs| - k
  {
    if k == |cs| then true
    else if cs[k].Pinned() then false
    else
      ChainList.PrefixStep(cs, k);
      if |cs[k].data| >= remaining then
        assert forall j :: k < j < |cs| ==> |Bytes(cs[..j])| >= want by {
          forall j | k < j < |cs| ensures |Bytes(cs[..j])| >= want {
            ChainList.PrefixGrows(cs, k + 1, j);
          }
        }
        true
      else PinCheck(cs, k + 1, want, remaining - |cs[k].data|)
  }

  /**
   * The copy loop of evbuffer_pullup: every chain the count left covers
   * (`size >= off`, so empty chains too) is copied whole; it stops at the
   * chain the count ends in, or at the end of the list.
   */
  function CopyWalk(cs: seq<Chunk>, len: nat): (s: ChainList.Stop)
    requires len <= |Bytes(cs)|
    ensures s.freed <= |cs| && |Bytes(cs[..s.freed])| + s.rest == len
    ensures s.freed < |cs| ==> s.rest < |cs[s.freed].data|
    ensures s.freed == |cs| ==> s.rest == 0
    decreases |cs|
  {
    if |cs| == 0 then
      assert cs[..0] == [];
      ChainList.Stop(0, 0, false)
    else if len >= |cs[0].data| then
      var s := CopyWalk(cs[1..], len - |cs[0].data|);
      assert cs[..s.freed + 1] == [cs[0]] + cs[1..][..s.freed];
      assert Bytes(cs[..s.freed + 1]) == cs[0].data + Bytes(cs[1..][..s.freed]);
      ChainList.Stop(s.freed + 1, s.rest, false)
    else
      assert cs[..0] == [];
      ChainList.Stop(0, len, false)
  }

  /** The size evbuffer_pullup works with: -1 stands for the whole buffer. */
  function Want(b: Buffer, size: int): int {
    if size == -1 then b.list.totalLen else size
  }

  /**
   * Why evbuffer_pullup returns NULL although the size is in range: a chain
   * after the first that must be copied from is pinned, or the first chain
   * is pinned and lacks room for the bytes to be appended to it.
   */
  predicate Blocked(cs: seq<Chunk>, want: nat)
    requires |cs| > 0 && ChainList.AllOk(cs)
  {
    (exists j :: 1 <= j < |cs| && |Bytes(cs[..j])| < want && cs[j].Pinned())
    || (cs[0].Pinned() && cs[0].SpaceLen() < want - |cs[0].data|)
  }

  /**
   * The chain that receives the pulled-up bytes: the first chain itself
   * when it is pinned (it then has room, or the pull-up is blocked) or its
   * memory after the misalignment can hold them, otherwise a new chain.
   */
  function Target(first: Chunk, want: nat): (h: Chunk)
    requires ChainList.ChunkOk(first) && |first.data| < want
    requires !(first.Pinned() && first.SpaceLen() < want - |first.data|)
    ensures h.misalign + want <= h.bufferLen && !h.flags.immutable && !h.flags.dangling
    ensures h == (if NeedsNewChain(first, want) then Chain.New(want) else first)
  {
    if !NeedsNewChain(first, want) then first
    else Chain.New(want)
  }

  /** Whether the pull-up must allocate its target chain: the first chain is not pinned and too small. */
  predicate NeedsNewChain(first: Chunk, want: nat) {
    !first.Pinned() && first.bufferLen - first.misalign < want
  }

  /** Gather when the count ends inside chain `g`, which keeps the bytes after it. */
  function GatherInto(l: ChainList.Chains, want: nat, g: nat, rest: nat, h: Chunk): (r: ChainList.Chains)
    requires ChainList.Valid(l) && 0 < g < |l.chunks| && rest < |l.chunks[g].data|
    requires |Bytes(l.chunks[..g])| + rest == want && want <= l.totalLen
    requires h.misalign + want <= h.bufferLen && !h.flags.immutable && !h.flags.dangling
    ensures ChainList.Valid(r) && Bytes(r.chunks) == Bytes(l.chunks)
    ensures |r.chunks| > 0 && r.chunks[0].data == Bytes(l.chunks)[..want]
  {
    var cs := l.chunks;
    var c := cs[g];
    var cut := c.(misalign := c.misalign + rest, data := c.data[rest..]);
    var pulled := Bytes(cs[..g]) + c.data[..rest];
    ChainList.BytesAround(cs, g);
    assert c.data == c.data[..rest] + cut.data;
    assert Bytes(cs) == pulled + (cut.data + Bytes(cs[g + 1..]));
    var d := ChainList.DropFront(l, g, cut);
    ChainList.PushFront(d, h.(data := pulled))
  }

  /**
   * The chains after a successful pull-up of `want` bytes that the first
   * chain does not already hold: the target chain holds all `want` bytes,
   * the chains wholly copied are gone, and the chain the count ends in
   * loses its front.
   */
  function Gather(l: ChainList.Chains, want: nat): (r: ChainList.Chains)
    requires ChainList.Valid(l) && 0 < want <= l.totalLen
    requires |l.chunks| > 0 && |l.chunks[0].data| < want
    requires !Blocked(l.chunks, want)
    ensures ChainList.Valid(r) && Bytes(r.chunks) == Bytes(l.chunks)
    ensures |r.chunks| > 0 && r.chunks[0].data == Bytes(l.chunks)[..want]
  {
    var cs := l.chunks;
    var first := cs[0];
    assert Bytes(cs) == first.data + Bytes(cs[1..]);
    var s := CopyWalk(cs[1..], want - |first.data|);
    var g := s.freed + 1;
    assert cs[..g] == [first] + cs[1..][..s.freed];
    assert Bytes(cs[..g]) == first.data + Bytes(cs[1..][..s.freed]);
    var h := Target(first, want);
    if g < |cs| then GatherInto(l, want, g, s.rest, h)
    else
      assert cs[..g] == cs;
      ChainList.BytesOne(h.(data := Bytes(cs)));
      ChainList.Chains([h.(data := Bytes(cs))], l.totalLen, None)
  }

  /**
   * evbuffer_pullup(buf, size): returns the first `size` bytes (-1: all of
   * them) as one contiguous run at the front of the first chain, or NULL
   * (`None`) with the buffer unchanged.  NULL comes for a size of 0, a
   * negative size other than -1, a size beyond the length, a pinned chain
   * in the way, or a failed allocation of the new first chain (`allocOk`
   * is false and one is needed).  The bytes of the buffer never change.
   */
  function Pullup(b: Buffer, size: int, allocOk: bool): (r: (Buffer, Option<seq<Byte>>))
    requires Valid(b)
    ensures r.1.None? ==> r.0 == b
    ensures Want(b, size) <= 0 || Want(b, size) > b.list.totalLen ==> r.1.None?
    ensures 0 < Want(b, size) <= b.list.totalLen ==>
              |b.list.chunks| > 0
              && (r.1.None? <==> |b.list.chunks[0].data| < Want(b, size)
                                 && (Blocked(b.list.chunks, Want(b, size))
                                     || (!allocOk && NeedsNewChain(b.list.chunks[0], Want(b, size)))))
    ensures r.1.Some? ==>
              0 < Want(b, size) <= b.list.totalLen
              && Valid(r.0) && r.0 == b.(list := r.0.list) && Contents(r.0) == Contents(b)
              && r.1.value == Contents(b)[..Want(b, size)]
              && |r.0.list.chunks| > 0 && |r.0.list.chunks[0].data| >= Want(b, size)
              && r.0.list.chunks[0].data[..Want(b, size)] == r.1.value
  {
    var want := Want(b, size);
    if want <= 0 || want > b.list.totalLen then (b, None)
    else
      ChainList.NonEmpty(b.list);
      var cs := b.list.chunks;
      assert Bytes(cs) == cs[0].data + Bytes(cs[1..]);
      if |cs[0].data| >= want then
        (b, Some(Contents(b)[..want]))
      else
        assert cs[..1] == [cs[0]];
        ChainList.BytesOne(cs[0]);
        var ok := PinCheck(cs, 1, want, want - |cs[0].data|);
        if !ok then (b, None)
        else if cs[0].Pinned() && cs[0].SpaceLen() < want - |cs[0].data| then (b, None)
        else if !allocOk && NeedsNewChain(cs[0], want) then (b, None)
        else
          var l := Gather(b.list, want);
          (b.(list := l), Some(Contents(b)[..want]))
  }

  /**
   * Pulling up leaves a buffer whose first chain already holds the bytes: a
   * second call changes nothing and allocates nothing, so it succeeds
   * whatever the allocator does.
   */
  lemma PullupTwice(b: Buffer, size: int, allocOk: bool, allocOk2: bool)
    requires Valid(b) && Pullup(b, size, allocOk).1.Some?
    ensures Pullup(Pullup(b, size, allocOk).0, size, allocOk2) == Pullup(b, size, allocOk)
  {
    var p := Pullup(b, size, allocOk).0;
    assert Want(p, size) == Want(b, size);
    assert p.list.chunks[0].data[..Want(b, size)] == Contents(b)[..Want(b, size)];
  }
}
