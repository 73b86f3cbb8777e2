/**
 * The select(2) backend's bookkeeping: the two input fd_sets it keeps as
 * growable bit arrays, the highest descriptor registered, the doubling rule
 * by which the arrays grow, and the scan that turns the sets select
 * reported ready into activations.  The system call itself is a parameter:
 * its result code, whether it was interrupted, and the two output sets.
 */
module SelectBackend {
  import opened Basics
  import opened EventBase

  /** sizeof(fd_mask) and NFDBITS on LP64 glibc. */
  const FdMaskSize: nat := 8
  const NfdBits: nat := 64

  /** howmany(x, y): x / y rounded up. */
  function Howmany(x: nat, y: nat): (r: nat)
    requires y > 0
    ensures r * y >= x && (r == 0 || (r - 1) * y < x)
  {
    (x + y - 1) / y
  }

  /**
   * struct selectop with the two input sets as bit arrays (bit i is
   * descriptor i); `fdsz` is event_fdsz, the size of each set in bytes.
   */
  datatype SelectOp = SelectOp(fds: int, fdsz: nat, readIn: seq<bool>, writeIn: seq<bool>)

  /** The descriptors whose bit is set. */
  function Members(bits: seq<bool>): set<nat> {
    set i: nat | i < |bits| && bits[i]
  }

  /**
   * Each set covers fdsz bytes, event_fds lies inside them, and no bit above
   * event_fds is set: select_add raises event_fds before setting a bit.
   */
  predicate Valid(s: SelectOp) {
    |s.readIn| == s.fdsz * 8 && |s.writeIn| == s.fdsz * 8
    && 0 <= s.fds < s.fdsz * 8
    && (forall i :: s.fds < i < |s.readIn| ==> !s.readIn[i])
    && (forall i :: s.fds < i < |s.writeIn| ==> !s.writeIn[i])
  }

  function Zeros(n: nat): (z: seq<bool>)
    ensures |z| == n && forall i :: 0 <= i < n ==> !z[i]
  {
    seq(n, _ => false)
  }

  lemma ZerosEmpty(n: nat)
    ensures Members(Zeros(n)) == {}
  {
  }

  /**
   * select_init: the zeroed selectop is resized to hold NFDBITS descriptors.
   * None when the structure itself cannot be allocated.
   */
  function Init(memOk: bool): (r: Option<SelectOp>)
    ensures r.Some? <==> memOk
    ensures r.Some? ==> Valid(r.value) && r.value.fdsz == Howmany(32 + 1, NfdBits) * FdMaskSize
    ensures r.Some? ==> Members(r.value.readIn) == {} && Members(r.value.writeIn) == {} && r.value.fds == 0
  {
    if !memOk then None
    else
      var n := Howmany(32 + 1, NfdBits) * FdMaskSize;
      var s := SelectOp(0, n, Zeros(n * 8), Zeros(n * 8));
      ZerosEmpty(n * 8);
      Some(s)
  }

  /**
   * select_resize to `fdsz` bytes: the input sets keep their bits and the
   * new region is zeroed.  A failed reallocation returns -1 and leaves the
   * sets' contents and event_fdsz as they were.
   */
  function Resize(s: SelectOp, fdsz: nat, ok: bool): (r: (SelectOp, int))
    requires Valid(s) && fdsz >= s.fdsz
    ensures Valid(r.0)
    ensures ok ==> r.1 == 0 && r.0.fdsz == fdsz && r.0.fds == s.fds
    ensures ok ==> r.0.readIn[..|s.readIn|] == s.readIn && r.0.writeIn[..|s.writeIn|] == s.writeIn
    ensures ok ==> forall i :: |s.readIn| <= i < fdsz * 8 ==> !r.0.readIn[i] && !r.0.writeIn[i]
    ensures !ok ==> r == (s, -1)
    ensures Members(r.0.readIn) == Members(s.readIn) && Members(r.0.writeIn) == Members(s.writeIn)
  {
    if !ok then (s, -1)
    else
      var extra := Zeros((fdsz - s.fdsz) * 8);
      var r := s.(fdsz := fdsz, readIn := s.readIn + extra, writeIn := s.writeIn + extra);
      assert r.readIn[..|s.readIn|] == s.readIn && r.writeIn[..|s.writeIn|] == s.writeIn;
      GrownMembers(s.readIn, extra);
      GrownMembers(s.writeIn, extra);
      (r, 0)
  }

  lemma GrownMembers(bits: seq<bool>, extra: seq<bool>)
    requires forall i :: 0 <= i < |extra| ==> !extra[i]
    ensures Members(bits + extra) == Members(bits)
  {
    forall i: nat | i in Members(bits + extra) ensures i in Members(bits) {
      assert (bits + extra)[i];
    }
  }

  /** The size select_add grows to: start at max(fdsz, sizeof(fd_mask)), doubling until `need` bytes fit. */
  function Grow(fdsz: nat, need: nat): (r: nat)
    requires fdsz > 0
    ensures r >= need && r >= fdsz
    ensures r == fdsz || r < 2 * need
    decreases need - fdsz
  {
    if fdsz < need then
      Grow(2 * fdsz, need)
    else fdsz
  }

  /** Bytes needed for descriptors 0..fd. */
  function Need(fd: nat): nat {
    Howmany(fd + 1, NfdBits) * FdMaskSize
  }

  /** The bits with `fd` set or cleared according to `on`. */
  function SetBit(bits: seq<bool>, fd: nat, on: bool): (r: seq<bool>)
    requires fd < |bits|
    ensures |r| == |bits| && r[fd] == on
    ensures forall i :: 0 <= i < |bits| && i != fd ==> r[i] == bits[i]
    ensures on ==> Members(r) == Members(bits) + {fd}
    ensures !on ==> Members(r) == Members(bits) - {fd}
  {
    bits[fd := on]
  }

  /**
   * select_add.  EV_SIGNAL trips an assertion (None).  A descriptor above
   * event_fds first grows the sets when they do not cover it, failing with
   * -1 if the resize fails, and becomes the new event_fds; then the read
   * and write bits are set as the events ask.
   */
  function Add(s: SelectOp, fd: nat, events: set<Kind>, ok: bool): (r: Option<(SelectOp, int)>)
    requires Valid(s)
    ensures r.None? <==> Signal in events
    ensures r.Some? ==> Valid(r.value.0) && (r.value.1 == 0 || r.value.1 == -1)
    ensures r.Some? && r.value.1 == -1 ==> r.value.0 == s && s.fds < fd && !ok
    ensures r.Some? && r.value.1 == 0 ==> r.value.0.fds == Max(s.fds, fd)
    ensures r.Some? && r.value.1 == 0 ==>
      Members(r.value.0.readIn) == Members(s.readIn) + (if Read in events then {fd} else {})
      && Members(r.value.0.writeIn) == Members(s.writeIn) + (if Write in events then {fd} else {})
    ensures ok && Signal !in events ==> r.Some? && r.value.1 == 0
  {
    if Signal in events then None
    else
      var grown: (SelectOp, int) :=
        if s.fds < fd then
          var sz := Grow(Max(s.fdsz, FdMaskSize), Need(fd));
          var g := if sz != s.fdsz then Resize(s, sz, ok) else (s, 0);
          if g.1 != 0 then g else (g.0.(fds := fd), 0)
        else (s, 0);
      if grown.1 != 0 then Some(grown)
      else
        var t := grown.0;
        assert fd < |t.readIn| by { CoversFd(s, fd); }
        var rd := if Read in events then SetBit(t.readIn, fd, true) else t.readIn;
        var wr := if Write in events then SetBit(t.writeIn, fd, true) else t.writeIn;
        Some((t.(readIn := rd, writeIn := wr), 0))
  }

  /** After the growth step the sets cover `fd`. */
  lemma CoversFd(s: SelectOp, fd: nat)
    requires Valid(s)
    ensures fd <= s.fds || fd < Grow(Max(s.fdsz, FdMaskSize), Need(fd)) * 8
  {
    if s.fds < fd {
      var h := Howmany(fd + 1, NfdBits);
      assert h * 64 >= fd + 1;
      assert Need(fd) * 8 == h * 64;
    }
  }

  /**
   * select_del.  EV_SIGNAL trips an assertion; a descriptor above
   * event_fds is not in either set and is ignored; otherwise the requested
   * bits are cleared.  Always 0.
   */
  function Del(s: SelectOp, fd: nat, events: set<Kind>): (r: Option<(SelectOp, int)>)
    requires Valid(s)
    ensures r.None? <==> Signal in events
    ensures r.Some? ==> Valid(r.value.0) && r.value.1 == 0 && r.value.0.fds == s.fds && r.value.0.fdsz == s.fdsz
    ensures r.Some? && s.fds < fd ==> r.value.0 == s
    ensures r.Some? ==>
      Members(r.value.0.readIn) == Members(s.readIn) - (if Read in events then {fd} else {})
      && Members(r.value.0.writeIn) == Members(s.writeIn) - (if Write in events then {fd} else {})
  {
    if Signal in events then None
    else if s.fds < fd then
      assert fd !in Members(s.readIn) && fd !in Members(s.writeIn);
      Some((s, 0))
    else
      var rd := if Read in events then SetBit(s.readIn, fd, false) else s.readIn;
      var wr := if Write in events then SetBit(s.writeIn, fd, false) else s.writeIn;
      Some((s.(readIn := rd, writeIn := wr), 0))
  }

  /** Deleting what was just added restores the sets, when the descriptor was in neither. */
  lemma AddThenDel(s: SelectOp, fd: nat, events: set<Kind>, ok: bool)
    requires Valid(s) && Signal !in events && fd !in Members(s.readIn) && fd !in Members(s.writeIn)
    requires Add(s, fd, events, ok).value.1 == 0
    ensures var a := Add(s, fd, events, ok).value.0;
      Members(Del(a, fd, events).value.0.readIn) == Members(s.readIn)
      && Members(Del(a, fd, events).value.0.writeIn) == Members(s.writeIn)
  {
  }

  /** One activation evmap_io_active receives: a descriptor and EV_READ/EV_WRITE. */
  datatype Activation = Activation(fd: nat, mask: set<Kind>)

  /** The mask select_dispatch builds for descriptor i from the output sets. */
  function MaskAt(rd: seq<bool>, wr: seq<bool>, i: nat): (m: set<Kind>)
    requires i < |rd| && i < |wr|
    ensures Read in m <==> rd[i]
    ensures Write in m <==> wr[i]
    ensures m <= {Read, Write}
  {
    (if rd[i] then {Read} else {}) + (if wr[i] then {Write} else {})
  }

  /**
   * select_dispatch after select(2) returned `res` with the output sets
   * `rd` and `wr`.  An error other than EINTR returns -1, an interrupted
   * call returns 0, in both cases without activations; otherwise every
   * descriptor 0..event_fds with a nonempty mask is activated once, in
   * increasing order.
   */
  method Dispatch(s: SelectOp, res: int, eintr: bool, rd: seq<bool>, wr: seq<bool>) returns (code: int, acts: seq<Activation>)
    requires Valid(s) && |rd| == |s.readIn| && |wr| == |s.writeIn|
    ensures res == -1 ==> acts == [] && code == (if eintr then 0 else -1)
    ensures res != -1 ==> code == 0
    ensures forall k :: 0 <= k < |acts| ==>
      (acts[k].fd <= s.fds && acts[k].mask != {} && acts[k].mask == MaskAt(rd, wr, acts[k].fd))
    ensures forall k, l :: 0 <= k < l < |acts| ==> acts[k].fd < acts[l].fd
    ensures res != -1 ==> forall i: nat :: i <= s.fds && (rd[i] || wr[i]) ==> exists k :: 0 <= k < |acts| && acts[k].fd == i
  {
    if res == -1 {
      return if eintr then 0 else -1, [];
    }
    acts := [];
    var i := 0;
    while i <= s.fds
      invariant 0 <= i <= s.fds + 1
      invariant forall k :: 0 <= k < |acts| ==>
        (acts[k].fd < i && acts[k].mask != {} && acts[k].mask == MaskAt(rd, wr, acts[k].fd))
      invariant forall k, l :: 0 <= k < l < |acts| ==> acts[k].fd < acts[l].fd
      invariant forall j: nat :: j < i && (rd[j] || wr[j]) ==> exists k :: 0 <= k < |acts| && acts[k].fd == j
    {
      var m := MaskAt(rd, wr, i);
      var before := acts;
      if m != {} {
        acts := acts + [Activation(i, m)];
        assert acts[|acts| - 1].fd == i;
      }
      assert forall k :: 0 <= k < |before| ==> acts[k] == before[k];
      i := i + 1;
    }
    code := 0;
  }

  /** With select reporting only what was asked for, every activation names a registered interest. */
  lemma ActivationsRegistered(s: SelectOp, rd: seq<bool>, wr: seq<bool>, a: Activation)
    requires Valid(s) && |rd| == |s.readIn| && |wr| == |s.writeIn|
    requires forall i :: 0 <= i < |rd| && rd[i] ==> s.readIn[i]
    requires forall i :: 0 <= i < |wr| && wr[i] ==> s.writeIn[i]
    requires a.fd < |rd| && a.mask == MaskAt(rd, wr, a.fd)
    ensures Read in a.mask ==> a.fd in Members(s.readIn)
    ensures Write in a.mask ==> a.fd in Members(s.writeIn)
  {
  }
}
