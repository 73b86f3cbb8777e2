/**
 * One link of an evbuffer: `struct evbuffer_chain` and the helpers that
 * allocate, pin, unpin, realign and free it.
 *
 * A chunk stores its bytes as `data`; the C field `off` is `|data|`, the
 * unused prefix is `misalign` and the allocation is `bufferLen`.
 */
module Chain {
  import opened Basics

  /** Chain flag bits. */
  const MMAP: bv32 := 0x0001
  const SENDFILE: bv32 := 0x0002
  const REFERENCE: bv32 := 0x0004
  const IMMUTABLE: bv32 := 0x0008
  const PINNED_R: bv32 := 0x0010
  const PINNED_W: bv32 := 0x0020
  const PINNED_ANY: bv32 := 0x0030
  const DANGLING: bv32 := 0x0040

  /** Smallest allocation for a chain, header included. */
  const MIN_BUFFER_SIZE: nat := 256
  /** sizeof(struct evbuffer_chain) on an LP64 target. */
  const CHAIN_HEADER: nat := 48

  /** What the memory of a chain belongs to. */
  datatype Backing = Owned | Reference | Mmap | Sendfile

  /** The flag word of a chain, one field per meaningful bit. */
  datatype Flags = Flags(backing: Backing, immutable: bool, pinnedR: bool,
                         pinnedW: bool, dangling: bool)

  /** Flags of a freshly allocated chain: every bit clear. */
  const NoFlags := Flags(Owned, false, false, false, false)

  function BackingBits(b: Backing): bv32 {
    match b
    case Owned => 0
    case Reference => REFERENCE
    case Mmap => MMAP
    case Sendfile => SENDFILE
  }

  /** The C flag word for a flag record. */
  function Bits(f: Flags): (x: bv32)
    ensures x & !0x7f == 0
    ensures (x & PINNED_ANY != 0) <==> (f.pinnedR || f.pinnedW)
  {
    BackingBits(f.backing)
    | (if f.immutable then IMMUTABLE else 0)
    | (if f.pinnedR then PINNED_R else 0)
    | (if f.pinnedW then PINNED_W else 0)
    | (if f.dangling then DANGLING else 0)
  }

  /** Reads a flag word back into a record. */
  function FromBits(x: bv32): Flags {
    Flags(if x & REFERENCE != 0 then Reference
          else if x & MMAP != 0 then Mmap
          else if x & SENDFILE != 0 then Sendfile
          else Owned,
          x & IMMUTABLE != 0, x & PINNED_R != 0, x & PINNED_W != 0,
          x & DANGLING != 0)
  }

  /** The record and the C word carry the same information. */
  lemma FromBitsBits(f: Flags)
    ensures FromBits(Bits(f)) == f
  {
    match f.backing
    case Owned =>
    case Reference =>
    case Mmap =>
    case Sendfile =>
  }

  datatype Chunk = Chunk(data: seq<Byte>, misalign: nat, bufferLen: nat, flags: Flags)
  {
    /** `chain->off`: the number of bytes stored. */
    function Off(): nat {
      |data|
    }

    /** The layout invariant `misalign + off <= buffer_len`. */
    predicate WellFormed() {
      misalign + |data| <= bufferLen
    }

    /** CHAIN_PINNED: pinned for reading or for writing. */
    predicate Pinned() {
      flags.pinnedR || flags.pinnedW
    }

    /** CHAIN_SPACE_LEN: room after the stored bytes; none in an immutable chain. */
    function SpaceLen(): (n: nat)
      requires WellFormed()
      ensures flags.immutable ==> n == 0
      ensures !flags.immutable ==> misalign + |data| + n == bufferLen
    {
      if flags.immutable then 0 else bufferLen - (misalign + |data|)
    }
  }

  /** Doubles `toAlloc` until it reaches `need` (the loop in evbuffer_chain_new). */
  function AllocSize(toAlloc: nat, need: nat): (r: nat)
    requires toAlloc > 0
    ensures r >= need && r >= toAlloc
    ensures r == toAlloc || r < 2 * need
    decreases need - toAlloc
  {
    if toAlloc >= need then toAlloc else AllocSize(2 * toAlloc, need)
  }

  /** evbuffer_chain_new: an empty chain with room for at least `size` bytes. */
  function New(size: nat): (c: Chunk)
    ensures c.data == [] && c.misalign == 0 && c.flags == NoFlags
    ensures c.WellFormed() && c.bufferLen >= size
    ensures c.bufferLen + CHAIN_HEADER >= MIN_BUFFER_SIZE
    ensures c.bufferLen + CHAIN_HEADER == MIN_BUFFER_SIZE || c.bufferLen < 2 * size + CHAIN_HEADER
  {
    Chunk([], 0, AllocSize(MIN_BUFFER_SIZE, size + CHAIN_HEADER) - CHAIN_HEADER, NoFlags)
  }

  /** What becomes of a chain handed to free or unpin. */
  datatype Fate = Live(chunk: Chunk) | Dangling(chunk: Chunk) | Released(backing: Backing)

  /**
   * evbuffer_chain_free: a pinned chain is only marked dangling; any other
   * chain is released through its backing (reference cleanup, munmap, close).
   */
  function Free(c: Chunk): (f: Fate)
    ensures f.Dangling? <==> c.Pinned()
    ensures f.Dangling? ==> f.chunk.data == c.data && f.chunk.flags.dangling
                            && f.chunk.Pinned() && f.chunk.misalign == c.misalign
    ensures f.Released? ==> f.backing == c.flags.backing
    ensures !f.Live?
  {
    if c.Pinned() then Dangling(c.(flags := c.flags.(dangling := true)))
    else Released(c.flags.backing)
  }

  datatype PinKind = PinRead | PinWrite

  predicate HasPin(c: Chunk, k: PinKind) {
    match k
    case PinRead => c.flags.pinnedR
    case PinWrite => c.flags.pinnedW
  }

  function SetPin(c: Chunk, k: PinKind, on: bool): Chunk {
    match k
    case PinRead => c.(flags := c.flags.(pinnedR := on))
    case PinWrite => c.(flags := c.flags.(pinnedW := on))
  }

  /** _evbuffer_chain_pin: the pin must not be held already. */
  function Pin(c: Chunk, k: PinKind): (p: Chunk)
    requires !HasPin(c, k)
    ensures HasPin(p, k) && p.Pinned()
    ensures p.data == c.data && p.misalign == c.misalign && p.bufferLen == c.bufferLen
    ensures p.flags.backing == c.flags.backing && p.flags.dangling == c.flags.dangling
    ensures p.flags.immutable == c.flags.immutable
  {
    SetPin(c, k, true)
  }

  /**
   * _evbuffer_chain_unpin: clears the pin; a dangling chain is then freed,
   * which releases it only when no other pin remains.
   */
  function Unpin(c: Chunk, k: PinKind): (f: Fate)
    requires HasPin(c, k)
    ensures !c.flags.dangling ==> f.Live? && !HasPin(f.chunk, k) && f.chunk.data == c.data
    ensures f.Released? <==> c.flags.dangling && !HasPin(SetPin(c, k, false), PinRead)
                                             && !HasPin(SetPin(c, k, false), PinWrite)
    ensures f.Released? ==> f.backing == c.flags.backing
  {
    var u := SetPin(c, k, false);
    if u.flags.dangling then Free(u) else Live(u)
  }

  /** Pinning and unpinning a live chain leaves it as it was. */
  lemma PinUnpin(c: Chunk, k: PinKind)
    requires !HasPin(c, k) && !c.flags.dangling
    ensures Unpin(Pin(c, k), k) == Live(c)
  {
    match k
    case PinRead =>
    case PinWrite =>
  }

  /**
   * A chain freed while pinned for both reading and writing is released by
   * the second unpin and not the first.
   */
  lemma DanglingReleasedByLastUnpin(c: Chunk, first: PinKind, second: PinKind)
    requires c.flags.pinnedR && c.flags.pinnedW && first != second
    ensures Free(c).Dangling?
    ensures Unpin(Free(c).chunk, first).Dangling?
    ensures Unpin(Unpin(Free(c).chunk, first).chunk, second) == Released(c.flags.backing)
  {
    match first
    case PinRead =>
    case PinWrite =>
  }

  /** evbuffer_chain_align: moves the bytes to the start of the allocation. */
  function Align(c: Chunk): (a: Chunk)
    requires !c.flags.immutable && !c.Pinned() && c.WellFormed()
    ensures a.misalign == 0 && a.data == c.data && a.flags == c.flags
    ensures a.WellFormed() && a.SpaceLen() == c.SpaceLen() + c.misalign
  {
    c.(misalign := 0)
  }

  /** The bytes stored in a sequence of chains, front to back. */
  function Bytes(cs: seq<Chunk>): seq<Byte>
  {
    if |cs| == 0 then [] else cs[0].data + Bytes(cs[1..])
  }

  /** Concatenating chain lists concatenates their bytes. */
  lemma {:induction false} BytesAppend(a: seq<Chunk>, b: seq<Chunk>)
    ensures Bytes(a + b) == Bytes(a) + Bytes(b)
    decreases |a|
  {
    if |a| == 0 {
      assert a + b == b;
    } else {
      assert (a + b)[1..] == a[1..] + b;
      BytesAppend(a[1..], b);
    }
  }

  /** Bytes of a list ending in `c`. */
  lemma BytesSnoc(a: seq<Chunk>, c: Chunk)
    ensures Bytes(a + [c]) == Bytes(a) + c.data
  {
    BytesAppend(a, [c]);
    assert [c][1..] == [];
  }

  /** Splitting a chain list splits its bytes. */
  lemma BytesSplit(cs: seq<Chunk>, k: nat)
    requires k <= |cs|
    ensures Bytes(cs) == Bytes(cs[..k]) + Bytes(cs[k..])
  {
    assert cs == cs[..k] + cs[k..];
    BytesAppend(cs[..k], cs[k..]);
  }
}
