/**
 * The jingxian data buffer: a chain element header (free callback, element
 * type) and a fixed memory block with a read cursor `start` and a write
 * cursor `end`.  Cursors are offsets from the block's first byte.  The
 * cursor functions do no bounds checking, so the lengths are computed as
 * `size_t` differences and wrap once a cursor is pushed past its limit.
 */
module DataBuffer {
  import opened Basics

  /** Element types of a buffer chain entry. */
  const ElementMemory: int := 1
  const ElementFile: int := 2
  const ElementPacket: int := 3

  /** The chain header; the callback's context pointer is opaque and left out. */
  datatype Chain = Chain(hasFreeCallback: bool, kind: int)

  /** What freeing a chain element does. */
  datatype Release = NoAction | MyFree | RunCallback

  /** A memory block of `capacity` bytes holding the readable bytes data[start..end]. */
  datatype DataBuf = DataBuf(chain: Chain, capacity: nat, start: nat, end: nat, data: seq<Byte>)

  /** The layout every well-formed data buffer keeps; a block is addressable, so smaller than 2^64. */
  predicate Valid(b: DataBuf) {
    b.start <= b.end <= b.capacity < SizeMod && |b.data| == b.capacity
  }

  /** isMemory: the element holds memory exactly when its type is the memory type. */
  function IsMemory(c: Chain): (r: bool)
    ensures r <==> c.kind == ElementMemory
    ensures r ==> c.kind != ElementFile && c.kind != ElementPacket
  {
    c.kind == ElementMemory
  }

  /** freebuffer: null does nothing; otherwise the callback when set, else my_free. */
  function FreeBuffer(buf: Option<Chain>): (r: Release)
    ensures r == NoAction <==> buf.None?
    ensures r == RunCallback <==> buf.Some? && buf.value.hasFreeCallback
    ensures r == MyFree <==> buf.Some? && !buf.value.hasFreeCallback
  {
    match buf
    case None => NoAction
    case Some(c) => if c.hasFreeCallback then RunCallback else MyFree
  }

  /** wd_ptr(chain): where the next byte is written. */
  function WritePos(b: DataBuf): (p: nat)
    ensures Valid(b) ==> p + WdLength(b) == b.capacity
  {
    b.end
  }

  /** rd_ptr(chain): where the next byte is read. */
  function ReadPos(b: DataBuf): (p: nat)
    ensures Valid(b) ==> p + RdLength(b) == WritePos(b)
  {
    b.start
  }

  /** rd_length: the bytes between the cursors, as a `size_t` difference. */
  function RdLength(b: DataBuf): (n: nat)
    ensures Valid(b) ==> n == |Readable(b)|
    ensures b.end < b.start ==> n == SizeMod - (b.start - b.end) || b.start - b.end > SizeMod
  {
    SizeT(b.end - b.start)
  }

  /** wd_length: the free room after the write cursor, as a `size_t` difference. */
  function WdLength(b: DataBuf): (n: nat)
    ensures Valid(b) ==> b.end + n == b.capacity
    ensures b.capacity < b.end ==> n == SizeMod - (b.end - b.capacity) || b.end - b.capacity > SizeMod
  {
    SizeT(b.capacity - b.end)
  }

  /** The bytes a reader would get, in order. */
  function Readable(b: DataBuf): (r: seq<Byte>)
    requires Valid(b)
    ensures |r| == b.end - b.start
  {
    b.data[b.start..b.end]
  }

  /** wd_ptr(chain, len): move the write cursor, unchecked. */
  function WdAdvance(b: DataBuf, len: nat): (r: DataBuf)
    ensures r.start == b.start && r.capacity == b.capacity && r.data == b.data && r.chain == b.chain
    ensures Valid(b) && len <= WdLength(b) ==>
      (Valid(r) && RdLength(r) == RdLength(b) + len && WdLength(r) == WdLength(b) - len
       && Readable(r) == Readable(b) + b.data[b.end..b.end + len])
    ensures Valid(b) && WdLength(b) < len <= WdLength(b) + SizeMod ==>
      (!Valid(r) && WdLength(r) == SizeMod - (len - WdLength(b)))
  {
    var r := b.(end := b.end + len);
    assert Valid(b) && len <= WdLength(b) ==>
      b.data[b.start..b.end + len] == b.data[b.start..b.end] + b.data[b.end..b.end + len];
    r
  }

  /** rd_ptr(chain, len): move the read cursor, unchecked. */
  function RdAdvance(b: DataBuf, len: nat): (r: DataBuf)
    ensures r.end == b.end && r.capacity == b.capacity && r.data == b.data && r.chain == b.chain
    ensures Valid(b) && len <= RdLength(b) ==>
      (Valid(r) && RdLength(r) == RdLength(b) - len && WdLength(r) == WdLength(b)
       && Readable(b) == Readable(b)[..len] + Readable(r))
    ensures Valid(b) && RdLength(b) < len <= RdLength(b) + SizeMod ==>
      (!Valid(r) && RdLength(r) == SizeMod - (len - RdLength(b)))
  {
    var r := b.(start := b.start + len);
    assert Valid(b) && len <= RdLength(b) ==> Readable(b)[len..] == Readable(r);
    r
  }

  /** A writer copies bytes to wd_ptr(chain) and then advances it by their count. */
  function Write(b: DataBuf, bytes: seq<Byte>): (r: DataBuf)
    requires Valid(b) && |bytes| <= WdLength(b)
    ensures Valid(r) && Readable(r) == Readable(b) + bytes
    ensures WdLength(r) == WdLength(b) - |bytes| && ReadPos(r) == ReadPos(b)
  {
    var filled := b.(data := b.data[..b.end] + bytes + b.data[b.end + |bytes|..]);
    assert Readable(filled) == Readable(b);
    assert filled.data[b.end..b.end + |bytes|] == bytes;
    WdAdvance(filled, |bytes|)
  }

  /** A reader copies n bytes from rd_ptr(chain) and then advances it by n. */
  function Read(b: DataBuf, n: nat): (r: (seq<Byte>, DataBuf))
    requires Valid(b) && n <= RdLength(b)
    ensures Valid(r.1) && |r.0| == n && r.0 + Readable(r.1) == Readable(b)
    ensures WdLength(r.1) == WdLength(b)
  {
    (Readable(b)[..n], RdAdvance(b, n))
  }

  /** Bytes come out in the order they went in: a write followed by reading everything. */
  lemma WriteThenRead(b: DataBuf, bytes: seq<Byte>)
    requires Valid(b) && |bytes| <= WdLength(b)
    ensures var w := Write(b, bytes);
      RdLength(w) == RdLength(b) + |bytes|
      && Read(w, RdLength(w)).0 == Readable(b) + bytes
      && RdLength(Read(w, RdLength(w)).1) == 0
  {
    var w := Write(b, bytes);
    var (out, after) := Read(w, RdLength(w));
    assert |Readable(after)| == 0;
  }
}
