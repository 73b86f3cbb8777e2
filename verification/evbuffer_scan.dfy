/**
 * Line reading: the chain iterators evbuffer_strchr, evbuffer_strpbrk,
 * evbuffer_strspn and evbuffer_getchr, and evbuffer_readln built on them.
 *
 * An iterator position is a chain index `k` and an offset `i` inside that
 * chain's bytes; `Pos` turns it into an index into the buffer's contents.
 */
module EvBufferScan {
  import opened Basics
  import opened Chain
  import ChainList
  import opened EvBuffer

  /** enum evbuffer_eol_style. */
  const EOL_ANY: int := 0
  const EOL_CRLF: int := 1
  const EOL_CRLF_STRICT: int := 2
  const EOL_LF: int := 3

  /** The terminator set of EVBUFFER_EOL_ANY. */
  const EolBytes: seq<Byte> := [CR, LF]

  /** The index into the contents of byte `i` of chain `k`. */
  function Pos(cs: seq<Chunk>, k: nat, i: nat): nat
    requires k <= |cs|
  {
    |Bytes(cs[..k])| + i
  }

  /** A position an iterator may hold: inside a chain or at its end, or past the last chain. */
  predicate At(cs: seq<Chunk>, k: nat, i: nat) {
    (k < |cs| && i <= |cs[k].data|) || (k == |cs| && i == 0)
  }

  lemma AtInside(cs: seq<Chunk>, k: nat, i: nat)
    requires At(cs, k, i)
    ensures Pos(cs, k, i) <= |Bytes(cs)|
    ensures k == |cs| ==> Pos(cs, k, i) == |Bytes(cs)|
  {
    if k == |cs| {
      assert cs[..k] == cs;
    } else {
      ChainList.BytesAround(cs, k);
    }
  }

  /** Byte `x` of chain `k` is the contents' byte at `Pos(cs, k, x)`. */
  lemma ByteAt(cs: seq<Chunk>, k: nat, x: nat)
    requires k < |cs| && x < |cs[k].data|
    ensures Pos(cs, k, x) < |Bytes(cs)| && Bytes(cs)[Pos(cs, k, x)] == cs[k].data[x]
  {
    ChainList.BytesAround(cs, k);
  }

  /** The start of chain `k + 1` is the end of chain `k`. */
  lemma NextChain(cs: seq<Chunk>, k: nat, off: nat)
    requires k < |cs|
    ensures Pos(cs, k + 1, off) == Pos(cs, k, |cs[k].data| + off)
  {
    ChainList.PrefixStep(cs, k);
  }

  /** No byte of `s` in `[lo, hi)` belongs to `chrset`. */
  predicate NoneIn(s: seq<Byte>, lo: nat, hi: nat, chrset: seq<Byte>) {
    forall q :: lo <= q < hi && q < |s| ==> s[q] !in chrset
  }

  /** Where a scan stopped: the iterator and the number of bytes it passed. */
  datatype Hit = Hit(chain: nat, off: nat, count: nat)

  /**
   * evbuffer_strpbrk: from the iterator, the first byte that belongs to
   * `chrset`; the iterator moves onto it and `count` bytes were passed.
   */
  function StrPbrk(cs: seq<Chunk>, k: nat, i: nat, chrset: seq<Byte>): (r: Option<Hit>)
    requires At(cs, k, i)
    ensures r.None? ==> NoneIn(Bytes(cs), Pos(cs, k, i), |Bytes(cs)|, chrset)
    ensures r.Some? ==> FirstIn(cs, Pos(cs, k, i), chrset, r.value)
    decreases |cs| - k, if k < |cs| then |cs[k].data| - i else 0
  {
    if k == |cs| then
      AtInside(cs, k, i);
      None
    else if i == |cs[k].data| then
      NextChain(cs, k, 0);
      StrPbrk(cs, k + 1, 0, chrset)
    else if cs[k].data[i] in chrset then
      ByteAt(cs, k, i);
      Some(Hit(k, i, 0))
    else
      ByteAt(cs, k, i);
      match StrPbrk(cs, k, i + 1, chrset)
      case None =>
        NoneInExtend(Bytes(cs), Pos(cs, k, i), |Bytes(cs)|, chrset);
        None
      case Some(h) =>
        FirstInStep(cs, Pos(cs, k, i), chrset, h);
        Some(h.(count := h.count + 1))
  }

  /**
   * The hit `h` of a scan from contents index `from`: it names a byte
   * inside a chain, `count` bytes on, that is in `chrset`, and no byte
   * before it from `from` on is.
   */
  predicate FirstIn(cs: seq<Chunk>, from: nat, chrset: seq<Byte>, h: Hit) {
    h.chain < |cs| && h.off < |cs[h.chain].data|
    && Pos(cs, h.chain, h.off) == from + h.count
    && from + h.count < |Bytes(cs)|
    && Bytes(cs)[from + h.count] in chrset
    && NoneIn(Bytes(cs), from, from + h.count, chrset)
  }

  /** A byte outside the set in front of a hit makes the same hit one byte further away. */
  lemma FirstInStep(cs: seq<Chunk>, from: nat, chrset: seq<Byte>, h: Hit)
    requires from < |Bytes(cs)| && Bytes(cs)[from] !in chrset && FirstIn(cs, from + 1, chrset, h)
    ensures FirstIn(cs, from, chrset, h.(count := h.count + 1))
  {
    NoneInExtend(Bytes(cs), from, from + 1 + h.count, chrset);
  }

  lemma NoneInExtend(s: seq<Byte>, p: nat, hi: nat, chrset: seq<Byte>)
    requires p < |s| && s[p] !in chrset && NoneIn(s, p + 1, hi, chrset)
    ensures NoneIn(s, p, hi, chrset)
  {
  }

  /** evbuffer_strchr: the same scan for a single byte. */
  function StrChr(cs: seq<Chunk>, k: nat, i: nat, c: Byte): (r: Option<Hit>)
    requires At(cs, k, i)
    ensures r.None? ==> forall q :: Pos(cs, k, i) <= q < |Bytes(cs)| ==> Bytes(cs)[q] != c
    ensures r.Some? ==>
              r.value.chain < |cs| && r.value.off < |cs[r.value.chain].data|
              && Pos(cs, r.value.chain, r.value.off) == Pos(cs, k, i) + r.value.count
              && Pos(cs, k, i) + r.value.count < |Bytes(cs)|
              && Bytes(cs)[Pos(cs, k, i) + r.value.count] == c
              && forall q :: Pos(cs, k, i) <= q < Pos(cs, k, i) + r.value.count ==> Bytes(cs)[q] != c
  {
    var r := StrPbrk(cs, k, i, [c]);
    assert forall x: Byte :: x in [c] <==> x == c;
    r
  }

  /**
   * evbuffer_strspn: the length of the run of bytes in `chrset` that starts
   * at the iterator.
   */
  function StrSpn(cs: seq<Chunk>, k: nat, i: nat, chrset: seq<Byte>): (n: nat)
    requires At(cs, k, i)
    ensures Pos(cs, k, i) + n <= |Bytes(cs)|
    ensures forall q :: Pos(cs, k, i) <= q < Pos(cs, k, i) + n ==> Bytes(cs)[q] in chrset
    ensures Pos(cs, k, i) + n == |Bytes(cs)| || Bytes(cs)[Pos(cs, k, i) + n] !in chrset
    decreases |cs| - k, if k < |cs| then |cs[k].data| - i else 0
  {
    if k == |cs| then
      AtInside(cs, k, i);
      0
    else if i == |cs[k].data| then
      NextChain(cs, k, 0);
      StrSpn(cs, k + 1, 0, chrset)
    else
      ByteAt(cs, k, i);
      if cs[k].data[i] in chrset then 1 + StrSpn(cs, k, i + 1, chrset) else 0
  }

  /**
   * evbuffer_getchr: normalises an offset that may run past its chain into
   * the chain that holds it and reads the byte there; None when the list
   * ends first.
   */
  function GetChr(cs: seq<Chunk>, k: nat, off: nat): (r: Option<(Hit, Byte)>)
    requires k < |cs|
    ensures r.Some? <==> Pos(cs, k, off) < |Bytes(cs)|
    ensures r.Some? ==>
              r.value.0.chain < |cs| && r.value.0.off < |cs[r.value.0.chain].data|
              && Pos(cs, r.value.0.chain, r.value.0.off) == Pos(cs, k, off)
              && Pos(cs, k, off) < |Bytes(cs)| && Bytes(cs)[Pos(cs, k, off)] == r.value.1
    decreases |cs| - k
  {
    if off < |cs[k].data| then
      ByteAt(cs, k, off);
      Some((Hit(k, off, 0), cs[k].data[off]))
    else
      NextChain(cs, k, off - |cs[k].data|);
      if k + 1 == |cs| then
        AtInside(cs, k + 1, 0);
        None
      else GetChr(cs, k + 1, off - |cs[k].data|)
  }

  /** A CR LF pair starts at `p`. */
  predicate CrLfAt(s: seq<Byte>, p: nat) {
    p + 1 < |s| && s[p] == CR && s[p + 1] == LF
  }

  /**
   * The EVBUFFER_EOL_CRLF_STRICT loop: find a CR, look at the byte after
   * it, stop on LF and otherwise carry on after the CR.  `count` is the
   * iterator's index into the contents.
   */
  function StrictScan(cs: seq<Chunk>, k: nat, i: nat, count: nat): (r: Option<nat>)
    requires At(cs, k, i) && count == Pos(cs, k, i)
    ensures r.None? ==> forall p :: count <= p ==> !CrLfAt(Bytes(cs), p)
    ensures r.Some? ==> count <= r.value && CrLfAt(Bytes(cs), r.value)
                        && forall p :: count <= p < r.value ==> !CrLfAt(Bytes(cs), p)
    decreases |Bytes(cs)| - count, 1
  {
    AtInside(cs, k, i);
    match StrChr(cs, k, i, CR)
    case None =>
      NoCrNoPair(Bytes(cs), count, |Bytes(cs)|);
      None
    case Some(h) =>
      NoCrNoPair(Bytes(cs), count, count + h.count);
      AfterCr(cs, h.chain, h.off, count + h.count)
  }

  /** The second half of the loop: the CR at `c` has been found. */
  function AfterCr(cs: seq<Chunk>, k: nat, i: nat, c: nat): (r: Option<nat>)
    requires k < |cs| && i < |cs[k].data| && c == Pos(cs, k, i)
    requires c < |Bytes(cs)| && Bytes(cs)[c] == CR
    ensures r.None? ==> forall p :: c <= p ==> !CrLfAt(Bytes(cs), p)
    ensures r.Some? ==> c <= r.value && CrLfAt(Bytes(cs), r.value)
                        && forall p :: c <= p < r.value ==> !CrLfAt(Bytes(cs), p)
    decreases |Bytes(cs)| - c, 0
  {
    match GetChr(cs, k, i + 1)
    case None => None
    case Some(g) =>
      if g.1 == LF then Some(c)
      else StrictScan(cs, g.0.chain, g.0.off, c + 1)
  }

  /** Without a CR in `[lo, hi)` no CR LF pair starts there. */
  lemma NoCrNoPair(s: seq<Byte>, lo: nat, hi: nat)
    requires forall q :: lo <= q < hi && q < |s| ==> s[q] != CR
    ensures forall p :: lo <= p < hi ==> !CrLfAt(s, p)
  {
  }

  /**
   * EVBUFFER_EOL_ANY ends the line at `n`, the first CR or LF, and drains
   * the whole run of CR and LF bytes, `extra` long, that starts there.
   */
  predicate AnyEnd(s: seq<Byte>, n: nat, extra: nat) {
    0 < extra && n + extra <= |s|
    && NoneIn(s, 0, n, EolBytes)
    && (forall q :: n <= q < n + extra ==> s[q] in EolBytes)
    && (n + extra == |s| || s[n + extra] !in EolBytes)
  }

  /** EVBUFFER_EOL_LF and EVBUFFER_EOL_CRLF end the line at `n`, the first LF. */
  predicate LfEnd(s: seq<Byte>, n: nat) {
    n < |s| && s[n] == LF && LF !in s[..n]
  }

  /** EVBUFFER_EOL_CRLF_STRICT ends the line at `n`, the first CR LF pair. */
  predicate StrictEnd(s: seq<Byte>, n: nat) {
    CrLfAt(s, n) && forall p: nat :: p < n ==> !CrLfAt(s, p)
  }

  function FindAny(cs: seq<Chunk>): (r: Option<(nat, nat)>)
    ensures r.None? <==> NoneIn(Bytes(cs), 0, |Bytes(cs)|, EolBytes)
    ensures r.Some? ==> AnyEnd(Bytes(cs), r.value.0, r.value.1)
  {
    assert At(cs, 0, 0) && Pos(cs, 0, 0) == 0;
    match StrPbrk(cs, 0, 0, EolBytes)
    case None => None
    case Some(h) =>
      var extra := StrSpn(cs, h.chain, h.off, EolBytes);
      Some((h.count, extra))
  }

  function FindLf(cs: seq<Chunk>): (r: Option<nat>)
    ensures r.None? <==> LF !in Bytes(cs)
    ensures r.Some? ==> LfEnd(Bytes(cs), r.value)
  {
    assert At(cs, 0, 0) && Pos(cs, 0, 0) == 0;
    match StrChr(cs, 0, 0, LF)
    case None => None
    case Some(h) => Some(h.count)
  }

  function FindCrLf(cs: seq<Chunk>): (r: Option<nat>)
    ensures r.None? <==> forall p: nat :: !CrLfAt(Bytes(cs), p)
    ensures r.Some? ==> StrictEnd(Bytes(cs), r.value)
  {
    assert At(cs, 0, 0) && Pos(cs, 0, 0) == 0;
    var r := StrictScan(cs, 0, 0, 0);
    assert r.None? ==> forall p: nat :: 0 <= p ==> !CrLfAt(Bytes(cs), p);
    assert r.Some? ==> forall p: nat :: 0 <= p < r.value ==> !CrLfAt(Bytes(cs), p);
    assert r.Some? ==> !(forall p: nat :: !CrLfAt(Bytes(cs), p)) by {
      if r.Some? { assert CrLfAt(Bytes(cs), r.value); }
    }
    r
  }

  /**
   * The tail of evbuffer_readln: evbuffer_remove of the line, then
   * evbuffer_drain of the terminator.
   */
  function Consume(b: Buffer, n: nat, extra: nat): (r: (Buffer, seq<Byte>))
    requires Valid(b) && !b.freezeStart && 0 < extra && n + extra <= |Contents(b)|
    ensures Valid(r.0) && |r.1| == n
    ensures r.1 == Contents(b)[..n] && Contents(r.0) == Contents(b)[n + extra..]
  {
    var (b1, line, _) := Remove(b, n);
    RemoveLine(b, n);
    var b2 := Drain(b1, extra).0;
    DrainTerminator(b1, extra);
    DropTwice(Contents(b), n, extra);
    (b2, line)
  }

  lemma DropTwice(s: seq<Byte>, n: nat, extra: nat)
    requires n + extra <= |s|
    ensures s[n..][extra..] == s[n + extra..]
  {
  }

  /** evbuffer_remove of a line that lies inside the buffer takes exactly its bytes. */
  lemma RemoveLine(b: Buffer, n: nat)
    requires Valid(b) && !b.freezeStart && n <= |Contents(b)|
    ensures var r := Remove(b, n);
      Valid(r.0) && !r.0.freezeStart && r.1 == Contents(b)[..n] && Contents(r.0) == Contents(b)[n..]
  {
    assert Min(n, b.list.totalLen) == n;
    if n == 0 {
      assert Contents(b)[..0] == [] && Contents(b)[0..] == Contents(b);
    }
  }

  /** evbuffer_drain of a terminator that lies inside the buffer drops exactly its bytes. */
  lemma DrainTerminator(b: Buffer, n: nat)
    requires Valid(b) && !b.freezeStart && 0 < n <= |Contents(b)|
    ensures Valid(Drain(b, n).0) && Contents(Drain(b, n).0) == Contents(b)[n..]
  {
    assert Min(n, b.list.totalLen) == n;
  }

  /** The line ANY reads: everything before the first CR or LF; the whole CR/LF run goes. */
  predicate AnyLine(s: seq<Byte>, line: seq<Byte>, rest: seq<Byte>) {
    |line| + |rest| < |s| && s[..|line|] == line && s[|s| - |rest|..] == rest
    && AnyEnd(s, |line|, |s| - |rest| - |line|)
  }

  /** The line LF reads: everything before the first LF, which goes. */
  predicate LfLine(s: seq<Byte>, line: seq<Byte>, rest: seq<Byte>) {
    s == line + [LF] + rest && LfEnd(s, |line|)
  }

  /** The line CRLF reads: as LF, less one CR right before the LF. */
  predicate CrLfLine(s: seq<Byte>, line: seq<Byte>, rest: seq<Byte>) {
    (s == line + [LF] + rest && LfEnd(s, |line|) && (line == [] || line[|line| - 1] != CR))
    || (s == line + [CR, LF] + rest && LfEnd(s, |line| + 1))
  }

  /** The line CRLF_STRICT reads: everything before the first CR LF pair, which goes. */
  predicate StrictLine(s: seq<Byte>, line: seq<Byte>, rest: seq<Byte>) {
    s == line + [CR, LF] + rest && StrictEnd(s, |line|)
  }

  lemma LfLineAt(s: seq<Byte>, n: nat)
    requires LfEnd(s, n)
    ensures LfLine(s, s[..n], s[n + 1..])
  {
    assert s == s[..n] + [s[n]] + s[n + 1..];
  }

  lemma AnyLineAt(s: seq<Byte>, n: nat, extra: nat)
    requires AnyEnd(s, n, extra)
    ensures AnyLine(s, s[..n], s[n + extra..])
  {
    assert |s| - |s[n + extra..]| - n == extra;
  }

  lemma StrictLineAt(s: seq<Byte>, n: nat)
    requires StrictEnd(s, n)
    ensures StrictLine(s, s[..n], s[n + 2..])
  {
    assert s == s[..n] + [s[n], s[n + 1]] + s[n + 2..];
  }

  lemma CutCr(line: seq<Byte>, rest: seq<Byte>)
    requires |line| > 0 && line[|line| - 1] == CR
    ensures line + [LF] + rest == line[..|line| - 1] + [CR, LF] + rest
  {
    assert line == line[..|line| - 1] + [CR];
  }

  /** The EVBUFFER_EOL_ANY case of evbuffer_readln on a buffer whose front is not frozen. */
  function ReadAny(b: Buffer): (r: (Buffer, Option<seq<Byte>>))
    requires Valid(b) && !b.freezeStart
    ensures r.1.None? ==> r.0 == b
    ensures r.1.None? <==> NoneIn(Contents(b), 0, |Contents(b)|, EolBytes)
    ensures r.1.Some? ==> Valid(r.0) && AnyLine(Contents(b), r.1.value, Contents(r.0))
  {
    match FindAny(b.list.chunks)
    case None => (b, None)
    case Some(t) =>
      var (b2, line) := Consume(b, t.0, t.1);
      AnyLineAt(Contents(b), t.0, t.1);
      (b2, Some(line))
  }

  /** The EVBUFFER_EOL_LF case. */
  function ReadLf(b: Buffer): (r: (Buffer, Option<seq<Byte>>))
    requires Valid(b) && !b.freezeStart
    ensures r.1.None? ==> r.0 == b
    ensures r.1.None? <==> LF !in Contents(b)
    ensures r.1.Some? ==> Valid(r.0) && LfLine(Contents(b), r.1.value, Contents(r.0))
  {
    match FindLf(b.list.chunks)
    case None => (b, None)
    case Some(n) =>
      var (b2, line) := Consume(b, n, 1);
      LfLineAt(Contents(b), n);
      (b2, Some(line))
  }

  /** The EVBUFFER_EOL_CRLF case: the LF case, then one CR before the LF is cut from the line. */
  function ReadCrLf(b: Buffer): (r: (Buffer, Option<seq<Byte>>))
    requires Valid(b) && !b.freezeStart
    ensures r.1.None? ==> r.0 == b
    ensures r.1.None? <==> LF !in Contents(b)
    ensures r.1.Some? ==> Valid(r.0) && CrLfLine(Contents(b), r.1.value, Contents(r.0))
  {
    match ReadLf(b)
    case (b2, None) => (b2, None)
    case (b2, Some(line)) =>
      var out := if |line| > 0 && line[|line| - 1] == CR then line[..|line| - 1] else line;
      LfToCrLf(Contents(b), line, Contents(b2));
      (b2, Some(out))
  }

  /** Cutting one CR before the LF from an LF line gives the CRLF line. */
  lemma LfToCrLf(s: seq<Byte>, line: seq<Byte>, rest: seq<Byte>)
    requires LfLine(s, line, rest)
    ensures |line| > 0 && line[|line| - 1] == CR ==> CrLfLine(s, line[..|line| - 1], rest)
    ensures !(|line| > 0 && line[|line| - 1] == CR) ==> CrLfLine(s, line, rest)
  {
    if |line| > 0 && line[|line| - 1] == CR {
      CutCr(line, rest);
      assert |line[..|line| - 1]| + 1 == |line|;
    }
  }

  /** The EVBUFFER_EOL_CRLF_STRICT case. */
  function ReadStrict(b: Buffer): (r: (Buffer, Option<seq<Byte>>))
    requires Valid(b) && !b.freezeStart
    ensures r.1.None? ==> r.0 == b
    ensures r.1.None? <==> forall p: nat :: !CrLfAt(Contents(b), p)
    ensures r.1.Some? ==> Valid(r.0) && StrictLine(Contents(b), r.1.value, Contents(r.0))
  {
    match FindCrLf(b.list.chunks)
    case None => (b, None)
    case Some(n) =>
      var (b2, line) := Consume(b, n, 2);
      StrictLineAt(Contents(b), n);
      (b2, Some(line))
  }

  /** The ANY reading of a byte string is unique: the line stops at the first terminator byte and the whole run goes. */
  lemma AnyLineUnique(s: seq<Byte>, l1: seq<Byte>, r1: seq<Byte>, l2: seq<Byte>, r2: seq<Byte>)
    requires AnyLine(s, l1, r1) && AnyLine(s, l2, r2)
    ensures l1 == l2 && r1 == r2
  {
    var e1 := |s| - |r1|;
    var e2 := |s| - |r2|;
    assert s[|l1|] in EolBytes && s[|l2|] in EolBytes;
    assert (e1 < |s| ==> s[e1] !in EolBytes) && (e2 < |s| ==> s[e2] !in EolBytes);
  }

  /** No LF comes before the one LfEnd names. */
  lemma LfFirst(s: seq<Byte>, n: nat)
    requires LfEnd(s, n)
    ensures forall j :: 0 <= j < n ==> s[j] != LF
  {
    forall j | 0 <= j < n ensures s[j] != LF {
      assert s[..n][j] == s[j];
    }
  }

  /** The LF reading of a byte string is unique. */
  lemma LfLineUnique(s: seq<Byte>, l1: seq<Byte>, r1: seq<Byte>, l2: seq<Byte>, r2: seq<Byte>)
    requires LfLine(s, l1, r1) && LfLine(s, l2, r2)
    ensures l1 == l2 && r1 == r2
  {
    LfFirst(s, |l1|);
    LfFirst(s, |l2|);
    assert l1 == s[..|l1|] && l2 == s[..|l2|];
    assert r1 == s[|l1| + 1..] && r2 == s[|l2| + 1..];
  }

  /** The CRLF_STRICT reading of a byte string is unique. */
  lemma StrictLineUnique(s: seq<Byte>, l1: seq<Byte>, r1: seq<Byte>, l2: seq<Byte>, r2: seq<Byte>)
    requires StrictLine(s, l1, r1) && StrictLine(s, l2, r2)
    ensures l1 == l2 && r1 == r2
  {
    assert CrLfAt(s, |l1|) && CrLfAt(s, |l2|);
    assert l1 == s[..|l1|] && l2 == s[..|l2|];
    assert r1 == s[|l1| + 2..] && r2 == s[|l2| + 2..];
  }

  /**
   * evbuffer_readln when the copy of the line is allocated.  None, with the
   * buffer untouched, when the front is frozen, the style is unknown or no
   * terminator is stored yet; otherwise the line is taken out, its
   * terminator drained, and the line returned (its length is what
   * *n_read_out receives).
   */
  function ReadLine(b: Buffer, style: int): (r: (Buffer, Option<seq<Byte>>))
    requires Valid(b)
    ensures r.1.None? ==> r.0 == b
    ensures r.1.Some? ==> Valid(r.0) && !b.freezeStart && Shortened(Contents(b), Contents(r.0))
    ensures b.freezeStart || !(EOL_ANY <= style <= EOL_LF) ==> r.1.None?
    ensures !b.freezeStart && style == EOL_ANY ==>
              (r.1.None? <==> NoneIn(Contents(b), 0, |Contents(b)|, EolBytes))
              && (r.1.Some? ==> AnyLine(Contents(b), r.1.value, Contents(r.0)))
    ensures !b.freezeStart && style == EOL_LF ==>
              (r.1.None? <==> LF !in Contents(b))
              && (r.1.Some? ==> LfLine(Contents(b), r.1.value, Contents(r.0)))
    ensures !b.freezeStart && style == EOL_CRLF ==>
              (r.1.None? <==> LF !in Contents(b))
              && (r.1.Some? ==> CrLfLine(Contents(b), r.1.value, Contents(r.0)))
    ensures !b.freezeStart && style == EOL_CRLF_STRICT ==>
              (r.1.None? <==> forall p: nat :: !CrLfAt(Contents(b), p))
              && (r.1.Some? ==> StrictLine(Contents(b), r.1.value, Contents(r.0)))
  {
    if b.freezeStart then (b, None)
    else if style == EOL_ANY then
      var r := ReadAny(b);
      assert r.1.Some? ==> Shortened(Contents(b), Contents(r.0));
      r
    else if style == EOL_CRLF_STRICT then
      var r := ReadStrict(b);
      assert r.1.Some? ==> Shortened(Contents(b), Contents(r.0)) by {
        if r.1.Some? { TailOf(Contents(b), r.1.value + [CR, LF], Contents(r.0)); }
      }
      r
    else if style == EOL_CRLF then
      var r := ReadCrLf(b);
      assert r.1.Some? ==> Shortened(Contents(b), Contents(r.0)) by {
        if r.1.Some? {
          var s, line, rest := Contents(b), r.1.value, Contents(r.0);
          if s == line + [LF] + rest { TailOf(s, line + [LF], rest); }
          else { TailOf(s, line + [CR, LF], rest); }
        }
      }
      r
    else if style == EOL_LF then
      var r := ReadLf(b);
      assert r.1.Some? ==> Shortened(Contents(b), Contents(r.0)) by {
        if r.1.Some? { TailOf(Contents(b), r.1.value + [LF], Contents(r.0)); }
      }
      r
    else (b, None)
  }

  /** What is left after a read: a strictly shorter tail of the bytes before it. */
  predicate Shortened(s: seq<Byte>, rest: seq<Byte>) {
    |rest| < |s| && s[|s| - |rest|..] == rest
  }

  lemma TailOf(s: seq<Byte>, front: seq<Byte>, rest: seq<Byte>)
    requires s == front + rest && |front| > 0
    ensures Shortened(s, rest)
  {
  }

  /**
   * evbuffer_readln.  When the copy of the line cannot be allocated
   * (`allocOk` false) the line and its terminator are still drained and
   * None comes back; otherwise it is ReadLine.
   */
  function ReadLn(b: Buffer, style: int, allocOk: bool): (r: (Buffer, Option<seq<Byte>>))
    requires Valid(b)
    ensures Valid(r.0)
    ensures allocOk ==> r == ReadLine(b, style)
    ensures !allocOk ==> r.1.None? && Contents(r.0) == Contents(ReadLine(b, style).0)
    ensures !allocOk && ReadLine(b, style).1.None? ==> r.0 == b
  {
    var found := ReadLine(b, style);
    if allocOk || found.1.None? then found
    else
      var k := |Contents(b)| - |Contents(found.0)|;
      var d := Drain(b, k).0;
      assert Contents(d) == Contents(b)[k..];
      (d, None)
  }

  /**
   * A read whose line copy fails loses the line: the buffer ends as a
   * successful read leaves it, the line is not returned, and a line was
   * there to lose exactly when the successful read returns one.
   */
  lemma ReadLnLosesLine(b: Buffer, style: int)
    requires Valid(b)
    ensures ReadLn(b, style, false).1.None?
    ensures Contents(ReadLn(b, style, false).0) == Contents(ReadLn(b, style, true).0)
    ensures ReadLn(b, style, true).1.Some? <==> |Contents(ReadLn(b, style, false).0)| < |Contents(b)|
  {
  }
}
