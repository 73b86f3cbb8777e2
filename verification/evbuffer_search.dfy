/**
 * Positions inside a buffer and substring search: `struct evbuffer_ptr`,
 * evbuffer_ptr_set, evbuffer_ptr_memcmp, evbuffer_search and
 * evbuffer_find.
 */
module EvBufferSearch {
  import opened Basics
  import opened Chain
  import ChainList
  import opened EvBuffer
  import opened EvBufferScan
  import EvBufferPullup

  /** enum evbuffer_ptr_how. */
  const PTR_SET: int := 0
  const PTR_ADD: int := 1

  /**
   * struct evbuffer_ptr: the position `pos` (-1 for none) and the chain
   * (an index, None for NULL) and offset inside it that the position
   * stands for.
   */
  datatype Ptr = Ptr(pos: int, chain: Option<nat>, posInChain: nat)

  /** `p` names a stored byte, and its two halves agree. */
  predicate PointsAt(cs: seq<Chunk>, p: Ptr) {
    p.chain.Some? && p.chain.value < |cs| && p.posInChain < |cs[p.chain.value].data|
    && p.pos == Pos(cs, p.chain.value, p.posInChain)
  }

  /** The pointer a failed evbuffer_ptr_set or evbuffer_search leaves. */
  predicate Unset(p: Ptr) {
    p.pos == -1 && p.chain.None?
  }

  /** `w` occurs in `s` at `q`. */
  predicate MatchAt(s: seq<Byte>, w: seq<Byte>, q: int) {
    0 <= q && q + |w| <= |s| && s[q..q + |w|] == w
  }

  /** Byte `off` of chain `chain`. */
  datatype Place = Place(chain: nat, off: nat)

  /**
   * The loop of evbuffer_ptr_set: from offset `position` of chain `k`,
   * skip whole chains while `left` reaches past them.  Found exactly when
   * the target byte exists.
   */
  function Walk(cs: seq<Chunk>, k: nat, position: nat, left: nat): (r: Option<Place>)
    requires At(cs, k, position)
    ensures r.Some? <==> Pos(cs, k, position) + left < |Bytes(cs)|
    ensures r.Some? ==> r.value.chain < |cs| && r.value.off < |cs[r.value.chain].data|
                        && Pos(cs, r.value.chain, r.value.off) == Pos(cs, k, position) + left
    decreases |cs| - k
  {
    AtInside(cs, k, position);
    if k == |cs| then None
    else if position + left >= |cs[k].data| then
      NextChain(cs, k, 0);
      Walk(cs, k + 1, 0, left - (|cs[k].data| - position))
    else
      ByteAt(cs, k, position + left);
      Some(Place(k, position + left))
  }

  /**
   * evbuffer_ptr_set.  PTR_SET starts from the first chain with
   * pos = position; PTR_ADD starts from the chain the position names and adds
   * to pos.  On failure the pointer becomes unset (no chain, position -1)
   * and the result is -1; its offset in the chain is left as it was.
   */
  function PtrSet(b: Buffer, p: Ptr, position: nat, how: int): (r: (Ptr, int))
    requires Valid(b) && (how == PTR_SET || how == PTR_ADD)
    requires how == PTR_ADD ==> PointsAt(b.list.chunks, p) || Unset(p)
    ensures r.1 == 0 || r.1 == -1
    ensures r.1 == -1 <==> Unset(r.0)
    ensures r.1 == -1 ==> r.0 == Ptr(-1, None, p.posInChain)
    ensures r.1 == 0 ==> PointsAt(b.list.chunks, r.0)
    ensures how == PTR_SET ==> (r.1 == 0 <==> position < |Contents(b)|)
                               && (r.1 == 0 ==> r.0.pos == position)
    ensures how == PTR_ADD && Unset(p) ==> r.1 == -1
    ensures how == PTR_ADD && PointsAt(b.list.chunks, p) ==>
              (r.1 == 0 <==> p.pos + position < |Contents(b)|)
              && (r.1 == 0 ==> r.0.pos == p.pos + position)
  {
    var cs := b.list.chunks;
    var (k, pos, start) :=
      if how == PTR_SET then (if |cs| == 0 then None else Some(0), position as int, 0)
      else (p.chain, p.pos + position, p.posInChain);
    match k
    case None => (Ptr(-1, None, p.posInChain), -1)
    case Some(k) =>
      assert Pos(cs, 0, 0) == 0;
      match Walk(cs, k, start, position)
      case None => (Ptr(-1, None, p.posInChain), -1)
      case Some(w) => (Ptr(pos, Some(w.chain), w.off), 0)
  }

  /** memcmp's verdict on two equally long byte strings: the sign of the first difference. */
  function MemCmp(a: seq<Byte>, b: seq<Byte>): (r: int)
    requires |a| == |b|
    ensures r == 0 <==> a == b
    ensures -1 <= r <= 1
  {
    if |a| == 0 then 0
    else if a[0] < b[0] then -1
    else if a[0] > b[0] then 1
    else
      var r := MemCmp(a[1..], b[1..]);
      assert a == [a[0]] + a[1..] && b == [b[0]] + b[1..];
      r
  }

  /** A slice inside one chain is a slice of the contents. */
  lemma SliceInChain(cs: seq<Chunk>, k: nat, lo: nat, hi: nat)
    requires k < |cs| && lo <= hi <= |cs[k].data|
    ensures Pos(cs, k, hi) <= |Bytes(cs)|
    ensures Bytes(cs)[Pos(cs, k, lo)..Pos(cs, k, hi)] == cs[k].data[lo..hi]
  {
    ChainList.BytesAround(cs, k);
    var pre := Bytes(cs[..k]);
    assert Bytes(cs)[|pre|..|pre| + |cs[k].data|] == cs[k].data;
  }

  /**
   * The comparison loop of evbuffer_ptr_memcmp: compare chain by chain,
   * returning the first nonzero memcmp.
   */
  function CompareWalk(cs: seq<Chunk>, k: nat, position: nat, w: seq<Byte>): (r: int)
    requires At(cs, k, position) && Pos(cs, k, position) + |w| <= |Bytes(cs)|
    ensures r == 0 <==> Bytes(cs)[Pos(cs, k, position)..Pos(cs, k, position) + |w|] == w
    decreases |cs| - k
  {
    AtInside(cs, k, position);
    if |w| == 0 || k == |cs| then 0
    else
      var n := if |w| + position > |cs[k].data| then |cs[k].data| - position else |w|;
      var c := MemCmp(cs[k].data[position..position + n], w[..n]);
      CompareSplit(cs, k, position, n, w);
      if c != 0 then c
      else if n == |w| then 0
      else CompareWalk(cs, k + 1, 0, w[n..])
  }

  /** Comparing `w` at a position splits into the part in chain `k` and the rest. */
  lemma CompareSplit(cs: seq<Chunk>, k: nat, position: nat, n: nat, w: seq<Byte>)
    requires k < |cs| && position + n <= |cs[k].data| && n <= |w|
    requires n == |w| || position + n == |cs[k].data|
    requires Pos(cs, k, position) + |w| <= |Bytes(cs)|
    ensures Pos(cs, k + 1, 0) + |w| - n <= |Bytes(cs)|
    ensures n < |w| ==> Pos(cs, k + 1, 0) == Pos(cs, k, position) + n
    ensures Bytes(cs)[Pos(cs, k, position)..Pos(cs, k, position) + |w|] == w
            <==> cs[k].data[position..position + n] == w[..n]
                 && Bytes(cs)[Pos(cs, k, position) + n..Pos(cs, k, position) + |w|] == w[n..]
  {
    NextChain(cs, k, 0);
    AtInside(cs, k + 1, 0);
    SliceInChain(cs, k, position, position + n);
    SplitAt(Bytes(cs), Pos(cs, k, position), n, w);
  }

  /** Comparing at `p` splits at `n`. */
  lemma SplitAt(s: seq<Byte>, p: nat, n: nat, w: seq<Byte>)
    requires p + |w| <= |s| && n <= |w|
    ensures s[p..p + |w|] == w <==> s[p..p + n] == w[..n] && s[p + n..p + |w|] == w[n..]
  {
    var x := s[p..p + |w|];
    assert x[..n] == s[p..p + n];
    assert x[n..] == s[p + n..p + |w|];
    ConcatEq(x, n, w);
  }

  /** Two equally long strings are equal iff their first `n` and their remaining bytes are. */
  lemma ConcatEq(x: seq<Byte>, n: nat, w: seq<Byte>)
    requires |x| == |w| && n <= |w|
    ensures x == w <==> x[..n] == w[..n] && x[n..] == w[n..]
  {
    if x[..n] == w[..n] && x[n..] == w[n..] {
      assert x == x[..n] + x[n..] && w == w[..n] + w[n..];
    }
  }

  /**
   * evbuffer_ptr_memcmp: -1 when fewer than |w| bytes follow the pointer,
   * otherwise memcmp of those bytes against `w`.
   */
  function PtrMemcmp(b: Buffer, p: Ptr, w: seq<Byte>): (r: int)
    requires Valid(b) && PointsAt(b.list.chunks, p)
    ensures r == 0 <==> MatchAt(Contents(b), w, p.pos)
    ensures p.pos + |w| > |Contents(b)| ==> r == -1
  {
    if p.pos + |w| > b.list.totalLen then -1
    else CompareWalk(b.list.chunks, p.chain.value, p.posInChain, w)
  }

  /** memchr: the first index from `i` on whose byte is `c`. */
  function MemChr(d: seq<Byte>, i: nat, c: Byte): (r: Option<nat>)
    requires i <= |d|
    ensures r.None? ==> forall x :: i <= x < |d| ==> d[x] != c
    ensures r.Some? ==> i <= r.value < |d| && d[r.value] == c
                        && forall x :: i <= x < r.value ==> d[x] != c
    decreases |d| - i
  {
    if i == |d| then None
    else if d[i] == c then Some(i)
    else MemChr(d, i + 1, c)
  }

  /** No match starts at a byte that differs from the pattern's first byte. */
  lemma NoStartIn(cs: seq<Chunk>, k: nat, i: nat, j: nat, w: seq<Byte>)
    requires k < |cs| && i <= j <= |cs[k].data| && |w| > 0
    requires forall x :: i <= x < j ==> cs[k].data[x] != w[0]
    ensures forall q :: Pos(cs, k, i) <= q < Pos(cs, k, j) ==> !MatchAt(Bytes(cs), w, q)
  {
    forall q | Pos(cs, k, i) <= q < Pos(cs, k, j)
      ensures !MatchAt(Bytes(cs), w, q)
    {
      var x := i + (q - Pos(cs, k, i));
      ByteAt(cs, k, x);
      assert Bytes(cs)[q] != w[0];
    }
  }

  /**
   * The loop of evbuffer_search from offset `i` of chain `k` (contents
   * index `pos`): memchr for the first pattern byte in the rest of the
   * chain; without one, go on with the next chain.
   */
  function SearchWalk(b: Buffer, w: seq<Byte>, k: nat, i: nat, pos: int): (r: Ptr)
    requires Valid(b) && |w| > 0 && At(b.list.chunks, k, i) && pos == Pos(b.list.chunks, k, i)
    ensures Unset(r) ==> forall q :: pos <= q ==> !MatchAt(Contents(b), w, q)
    ensures !Unset(r) ==> PointsAt(b.list.chunks, r) && pos <= r.pos
                          && MatchAt(Contents(b), w, r.pos)
                          && forall q :: pos <= q < r.pos ==> !MatchAt(Contents(b), w, q)
    decreases |b.list.chunks| - k, if k < |b.list.chunks| then |b.list.chunks[k].data| - i else 0, 1
  {
    var cs := b.list.chunks;
    AtInside(cs, k, i);
    if k == |cs| then Ptr(-1, None, 0)
    else
      match MemChr(cs[k].data, i, w[0])
      case None =>
        NoStartIn(cs, k, i, |cs[k].data|, w);
        NextChain(cs, k, 0);
        SearchWalk(b, w, k + 1, 0, pos + (|cs[k].data| - i))
      case Some(j) =>
        NoStartIn(cs, k, i, j, w);
        SearchAt(b, w, k, j, pos + (j - i))
  }

  /**
   * The body of the search loop once memchr found the first pattern byte
   * at offset `j` of chain `k`: compare there, else step one byte on.
   */
  function SearchAt(b: Buffer, w: seq<Byte>, k: nat, j: nat, pos: int): (r: Ptr)
    requires Valid(b) && |w| > 0 && k < |b.list.chunks| && j < |b.list.chunks[k].data|
    requires pos == Pos(b.list.chunks, k, j)
    ensures Unset(r) ==> forall q :: pos <= q ==> !MatchAt(Contents(b), w, q)
    ensures !Unset(r) ==> PointsAt(b.list.chunks, r) && pos <= r.pos
                          && MatchAt(Contents(b), w, r.pos)
                          && forall q :: pos <= q < r.pos ==> !MatchAt(Contents(b), w, q)
    decreases |b.list.chunks| - k, |b.list.chunks[k].data| - j, 0
  {
    var cs := b.list.chunks;
    var at := Ptr(pos, Some(k), j);
    if PtrMemcmp(b, at, w) == 0 then at
    else
      var r := if j + 1 == |cs[k].data| then NextChain(cs, k, 0); SearchWalk(b, w, k + 1, 0, pos + 1)
               else SearchWalk(b, w, k, j + 1, pos + 1);
      NotHereThenLater(Contents(b), w, pos, r.pos);
      r
  }

  /** No occurrence at `pos` and none from `pos + 1` up to `to` means none from `pos` up to `to`. */
  lemma NotHereThenLater(s: seq<Byte>, w: seq<Byte>, pos: int, to: int)
    requires !MatchAt(s, w, pos) && forall q :: pos + 1 <= q < to ==> !MatchAt(s, w, q)
    ensures forall q :: pos <= q < to ==> !MatchAt(s, w, q)
  {
  }

  /**
   * evbuffer_search.  Without `start` the search begins at byte 0 of the
   * first chain.  An empty pattern returns the start as it is; otherwise
   * the result points at the first occurrence of `w` at or after the start,
   * across chain boundaries, or is unset.
   */
  function Search(b: Buffer, w: seq<Byte>, start: Option<Ptr>): (r: Ptr)
    requires Valid(b)
    requires start.Some? ==> PointsAt(b.list.chunks, start.value) || Unset(start.value)
    ensures |w| == 0 && start.Some? ==> r == start.value
    ensures |w| == 0 && start.None? ==> r.pos == 0
    ensures |w| > 0 ==> Unset(r) || PointsAt(b.list.chunks, r)
    ensures |w| > 0 && start.Some? && Unset(start.value) ==> Unset(r)
    ensures |w| > 0 && (start.None? || PointsAt(b.list.chunks, start.value)) ==>
              var from := if start.None? then 0 else start.value.pos;
              (Unset(r) <==> forall q :: from <= q ==> !MatchAt(Contents(b), w, q))
              && (!Unset(r) ==> from <= r.pos && MatchAt(Contents(b), w, r.pos)
                                && forall q :: from <= q < r.pos ==> !MatchAt(Contents(b), w, q))
  {
    var cs := b.list.chunks;
    var p := if start.Some? then start.value
             else Ptr(0, if |cs| == 0 then None else Some(0), 0);
    if |w| == 0 then p
    else if p.chain.None? then
      assert start.None? ==> Bytes(cs) == [];
      Ptr(-1, None, p.posInChain)
    else
      assert Pos(cs, 0, 0) == 0;
      var r := SearchWalk(b, w, p.chain.value, p.posInChain, p.pos);
      assert !Unset(r) ==> MatchAt(Contents(b), w, r.pos);
      r
  }

  /**
   * evbuffer_find: search from the front, then pull the bytes up to the
   * end of the match into the first chain.  The result is the match's
   * offset in that chain; None when there is no match or the pullup is
   * refused (a pinned chain in the way, or the allocation of the new
   * first chain fails when `allocOk` is false).
   */
  function Find(b: Buffer, w: seq<Byte>, allocOk: bool): (r: (Buffer, Option<nat>))
    requires Valid(b)
    ensures r.1.None? ==> r.0 == b
    ensures r.1.Some? ==>
              |w| > 0 && Valid(r.0) && Contents(r.0) == Contents(b)
              && MatchAt(Contents(b), w, r.1.value)
              && (forall q :: 0 <= q < r.1.value ==> !MatchAt(Contents(b), w, q))
              && InFirstChain(r.0, w, r.1.value)
    ensures |w| > 0 && (forall q :: 0 <= q ==> !MatchAt(Contents(b), w, q)) ==> r.1.None?
  {
    var p := Search(b, w, None);
    if p.pos < 0 then (b, None)
    else PullupMatch(b, w, p.pos, allocOk)
  }

  /** `w` lies in the first chain of `b`, starting at its byte `p`. */
  predicate InFirstChain(b: Buffer, w: seq<Byte>, p: nat) {
    |b.list.chunks| > 0 && p + |w| <= |b.list.chunks[0].data|
    && b.list.chunks[0].data[p..p + |w|] == w
  }

  /** The second half of evbuffer_find: evbuffer_pullup up to the end of the match at `pos`. */
  function PullupMatch(b: Buffer, w: seq<Byte>, pos: nat, allocOk: bool): (r: (Buffer, Option<nat>))
    requires Valid(b) && MatchAt(Contents(b), w, pos)
    ensures r.1.None? ==> r.0 == b
    ensures r.1.Some? ==>
              r.1.value == pos && pos + |w| > 0 && Valid(r.0) && Contents(r.0) == Contents(b)
              && InFirstChain(r.0, w, pos)
  {
    match EvBufferPullup.Pullup(b, pos + |w|, allocOk)
    case (b2, None) => (b, None)
    case (b2, Some(bytes)) =>
      MatchInPrefix(b2.list.chunks[0].data, Contents(b), pos, w);
      (b2, Some(pos))
  }

  /** A match survives into a string that shares the prefix up to its end. */
  lemma MatchInPrefix(d: seq<Byte>, c: seq<Byte>, p: nat, w: seq<Byte>)
    requires MatchAt(c, w, p) && p + |w| <= |d| && d[..p + |w|] == c[..p + |w|]
    ensures d[p..p + |w|] == w
  {
    assert d[p..p + |w|] == d[..p + |w|][p..];
    assert c[p..p + |w|] == c[..p + |w|][p..];
  }

  /** Two pointers at the same byte are the same pointer: a byte lives in one chain. */
  lemma PointsAtUnique(cs: seq<Chunk>, p1: Ptr, p2: Ptr)
    requires PointsAt(cs, p1) && PointsAt(cs, p2) && p1.pos == p2.pos
    ensures p1 == p2
  {
    var k1, k2 := p1.chain.value, p2.chain.value;
    if k1 < k2 {
      NextChain(cs, k1, 0);
      ChainList.PrefixGrows(cs, k1 + 1, k2);
    } else if k2 < k1 {
      NextChain(cs, k2, 0);
      ChainList.PrefixGrows(cs, k2 + 1, k1);
    }
  }

  /** Searching again from a match finds that same match. */
  lemma SearchFromMatch(b: Buffer, w: seq<Byte>, start: Option<Ptr>)
    requires Valid(b) && |w| > 0
    requires start.Some? ==> PointsAt(b.list.chunks, start.value) || Unset(start.value)
    requires !Unset(Search(b, w, start))
    ensures Search(b, w, Some(Search(b, w, start))) == Search(b, w, start)
  {
    var r := Search(b, w, start);
    var r2 := Search(b, w, Some(r));
    PointsAtUnique(b.list.chunks, r, r2);
  }
}
