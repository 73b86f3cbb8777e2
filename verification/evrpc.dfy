/**
 * The RPC layer's list bookkeeping: the input and output hook chains, the
 * registry of RPC names, the client pool that matches queued requests with
 * idle connections, the list of requests paused by a hook, the status a
 * finished request reports, and the per-request meta data a hook can attach.
 * HTTP itself, marshalling and memory are outside the model: a hook's answer,
 * an allocation's success, whether the HTTP layer accepted a request and
 * whether a reply parsed are all given as parameters.
 */
module Evrpc {
  import opened Basics
  import opened EventBase

  /** enum EVRPC_HOOK_RESULT. */
  datatype HookResult = Terminate | Continue | Pause

  function HookCode(h: HookResult): int {
    match h
    case Terminate => -1
    case Continue => 0
    case Pause => 1
  }

  /** The hook result a return value stands for, if any. */
  function HookOf(code: int): (r: Option<HookResult>)
    ensures r.Some? <==> -1 <= code <= 1
  {
    if code == -1 then Some(Terminate)
    else if code == 0 then Some(Continue)
    else if code == 1 then Some(Pause)
    else None
  }

  /** The three results have the distinct codes -1, 0, 1 and decode back. */
  lemma HookCodes(h: HookResult)
    ensures HookOf(HookCode(h)) == Some(h)
    ensures -1 <= HookCode(h) <= 1
  {
  }

  /** The error field of struct evrpc_status. */
  datatype Status = ErrNone | ErrTimeout | ErrBadPayload | ErrUnstarted | ErrHookAborted

  function StatusCode(s: Status): int {
    match s
    case ErrNone => 0
    case ErrTimeout => 1
    case ErrBadPayload => 2
    case ErrUnstarted => 3
    case ErrHookAborted => 4
  }

  /** The status an error number stands for, if any. */
  function StatusOf(code: int): (r: Option<Status>)
    ensures r.Some? <==> 0 <= code <= 4
  {
    if code == 0 then Some(ErrNone)
    else if code == 1 then Some(ErrTimeout)
    else if code == 2 then Some(ErrBadPayload)
    else if code == 3 then Some(ErrUnstarted)
    else if code == 4 then Some(ErrHookAborted)
    else None
  }

  /** The error numbers are 0 through 4, one per status, NONE being 0. */
  lemma StatusCodes(s: Status)
    ensures StatusOf(StatusCode(s)) == Some(s)
    ensures 0 <= StatusCode(s) <= 4 && (StatusCode(s) == 0 <==> s == ErrNone)
  {
  }

  /** enum EVRPC_HOOK_TYPE. */
  datatype HookType = Input | Output

  /** A hook is named by the handle evrpc_add_hook returns. */
  type Handle = nat

  /** struct _evrpc_hooks: the two hook chains; `next` is the next fresh handle. */
  datatype Hooks = Hooks(input: seq<Handle>, output: seq<Handle>, next: Handle)

  function Chain(h: Hooks, t: HookType): seq<Handle> {
    match t
    case Input => h.input
    case Output => h.output
  }

  /** Handles are distinct, within and across the chains, and below `next`. */
  predicate HooksOk(h: Hooks) {
    Distinct(h.input) && Distinct(h.output)
    && (forall x :: x in h.input ==> x < h.next && x !in h.output)
    && (forall x :: x in h.output ==> x < h.next)
  }

  /** evrpc_add_hook: a fresh hook goes to the tail of its chain; the other chain is untouched. */
  function AddHook(h: Hooks, t: HookType): (r: (Hooks, Handle))
    requires HooksOk(h)
    ensures HooksOk(r.0)
    ensures Chain(r.0, t) == Chain(h, t) + [r.1]
    ensures r.1 !in h.input && r.1 !in h.output
    ensures t == Input ==> r.0.output == h.output
    ensures t == Output ==> r.0.input == h.input
  {
    var x := h.next;
    match t
    case Input =>
      AppendDistinct(h.input, x);
      (h.(input := h.input + [x], next := x + 1), x)
    case Output =>
      AppendDistinct(h.output, x);
      (h.(output := h.output + [x], next := x + 1), x)
  }

  /**
   * evrpc_remove_hook: 1 and the hook gone from its chain when it is there,
   * else 0 and nothing changed.
   */
  function RemoveHook(h: Hooks, t: HookType, handle: Handle): (r: (Hooks, int))
    requires HooksOk(h)
    ensures HooksOk(r.0)
    ensures r.1 == (if handle in Chain(h, t) then 1 else 0)
    ensures r.1 == 1 ==> handle !in Chain(r.0, t) && |Chain(r.0, t)| == |Chain(h, t)| - 1
    ensures forall x :: x in Chain(r.0, t) <==> x in Chain(h, t) && x != handle
    ensures r.1 == 0 ==> r.0 == h
    ensures t == Input ==> r.0.output == h.output
    ensures t == Output ==> r.0.input == h.input
    ensures r.0.next == h.next
  {
    var c := Chain(h, t);
    if handle !in c then (h, 0)
    else
      var r := match t
        case Input => h.(input := Without(h.input, handle))
        case Output => h.(output := Without(h.output, handle));
      WithoutDistinct(h.input, handle);
      WithoutDistinct(h.output, handle);
      (r, 1)
  }

  /** Removing a hook just added gives back the chains as they were. */
  lemma AddThenRemove(h: Hooks, t: HookType)
    requires HooksOk(h)
    ensures var (a, x) := AddHook(h, t);
      RemoveHook(a, t, x).1 == 1
      && Chain(RemoveHook(a, t, x).0, t) == Chain(h, t)
      && RemoveHook(a, t, x).0.(next := h.next) == h
  {
    var (a, x) := AddHook(h, t);
    WithoutLast(Chain(h, t), x);
  }

  lemma {:induction false} WithoutLast(s: seq<Handle>, x: Handle)
    requires x !in s
    ensures Without(s + [x], x) == s
  {
    if s != [] {
      assert (s + [x])[1..] == s[1..] + [x];
      WithoutLast(s[1..], x);
    }
  }

  /**
   * evrpc_process_hooks: the hooks run in chain order until one answers
   * other than CONTINUE; that answer is the result, and CONTINUE when every
   * hook continued.  The second component is how many hooks ran.
   */
  function ProcessHooks(chain: seq<Handle>, answer: Handle -> HookResult): (r: (HookResult, nat))
    ensures r.1 <= |chain|
    ensures forall i :: 0 <= i < r.1 && (r.0 == Continue || i < r.1 - 1) ==> answer(chain[i]) == Continue
    ensures r.0 == Continue ==> r.1 == |chain|
    ensures r.0 != Continue ==> r.1 >= 1 && answer(chain[r.1 - 1]) == r.0
    ensures r.0 == Continue <==> forall i :: 0 <= i < |chain| ==> answer(chain[i]) == Continue
  {
    if chain == [] then (Continue, 0)
    else
      var a := answer(chain[0]);
      if a != Continue then (a, 1)
      else
        var t := ProcessHooks(chain[1..], answer);
        assert forall i :: 1 <= i < |chain| ==> chain[i] == chain[1..][i - 1];
        (t.0, t.1 + 1)
  }

  /** EVRPC_URI_PREFIX. */
  const UriPrefix: string := "/.rpc."

  /** evrpc_construct_uri: the prefix followed by the name. */
  function ConstructUri(uri: string): (r: string)
    ensures |r| == |UriPrefix| + |uri|
    ensures r[..|UriPrefix|] == UriPrefix && r[|UriPrefix|..] == uri
  {
    UriPrefix + uri
  }

  /** Different names give different URIs, so unregistering removes only its own callback. */
  lemma UriInjective(a: string, b: string)
    requires ConstructUri(a) == ConstructUri(b)
    ensures a == b
  {
    assert a == ConstructUri(a)[|UriPrefix|..];
  }

  /**
   * struct evrpc_base, less the HTTP server, whose callback table is kept
   * as the set of URIs it serves.
   */
  datatype RpcBase = RpcBase(rpcs: seq<string>, served: set<string>, hooks: Hooks)

  /** evrpc_init. */
  function RpcInit(memOk: bool): (r: Option<RpcBase>)
    ensures r.Some? <==> memOk
    ensures r.Some? ==> r.value.rpcs == [] && r.value.served == {} && HooksOk(r.value.hooks)
  {
    if memOk then Some(RpcBase([], {}, Hooks([], [], 0))) else None
  }

  /** evrpc_register_rpc: append to the registry and serve the prefixed URI. */
  function RegisterRpc(b: RpcBase, uri: string): (r: (RpcBase, int))
    ensures r.0.rpcs == b.rpcs + [uri] && ConstructUri(uri) in r.0.served
    ensures r.0.served == b.served + {ConstructUri(uri)} && r.0.hooks == b.hooks && r.1 == 0
  {
    (b.(rpcs := b.rpcs + [uri], served := b.served + {ConstructUri(uri)}), 0)
  }

  /** The index of the first entry equal to `x`. */
  function IndexOf<T(==)>(s: seq<T>, x: T): (i: nat)
    requires x in s
    ensures i < |s| && s[i] == x && forall j :: 0 <= j < i ==> s[j] != x
  {
    if s[0] == x then 0 else 1 + IndexOf(s[1..], x)
  }

  /**
   * evrpc_unregister_rpc: -1 when no RPC has the name; otherwise the first
   * such entry leaves the registry and its URI stops being served.  None is
   * the assertion that the HTTP server still served that URI failing,
   * which happens when the same name was registered twice.
   */
  function UnregisterRpc(b: RpcBase, name: string): (r: Option<(RpcBase, int)>)
    ensures name !in b.rpcs ==> r == Some((b, -1))
    ensures name in b.rpcs ==> (r.None? <==> ConstructUri(name) !in b.served)
    ensures r.Some? && name in b.rpcs ==> (r.value.1 == 0
      && r.value.0.rpcs == b.rpcs[..IndexOf(b.rpcs, name)] + b.rpcs[IndexOf(b.rpcs, name) + 1..]
      && r.value.0.served == b.served - {ConstructUri(name)}
      && |r.value.0.rpcs| == |b.rpcs| - 1)
  {
    if name !in b.rpcs then Some((b, -1))
    else
      var i := IndexOf(b.rpcs, name);
      if ConstructUri(name) !in b.served then None
      else Some((b.(rpcs := b.rpcs[..i] + b.rpcs[i + 1..], served := b.served - {ConstructUri(name)}), 0))
  }

  /** Registering a new name and unregistering it restores the base. */
  lemma RegisterThenUnregister(b: RpcBase, uri: string)
    requires uri !in b.rpcs && ConstructUri(uri) !in b.served
    ensures UnregisterRpc(RegisterRpc(b, uri).0, uri) == Some((b, 0))
  {
    var r := RegisterRpc(b, uri).0;
    assert forall j :: 0 <= j < |b.rpcs| ==> r.rpcs[j] == b.rpcs[j];
    var i := IndexOf(r.rpcs, uri);
    assert i == |b.rpcs|;
    assert r.rpcs[..i] + r.rpcs[i + 1..] == b.rpcs;
  }

  // ---------------------------------------------------------------- client pool

  /** An RPC request wrapper is named by an id. */
  type ReqId = nat

  /** An evhttp_connection of a pool: its timeout and the requests it is carrying. */
  datatype Conn = Conn(timeout: int, requests: seq<ReqId>)

  /** The continuation a paused request is resumed with. */
  datatype Cont =
    | ScheduleCont(conn: nat)                      // evrpc_schedule_request_closure
    | ReplyCont(hasReq: bool, parsed: bool)        // evrpc_reply_done_closure

  /** struct evrpc_hook_ctx. */
  datatype Paused = Paused(ctx: ReqId, cont: Cont)

  /** One call of a request's user callback, with the status it was given. */
  datatype Done = Done(req: ReqId, status: Status)

  /**
   * struct evrpc_pool: connections, the FIFO of requests waiting for an idle
   * connection, the pool timeout (-1 when unset), the paused requests and
   * the hook chains; `done` is the trace of user callbacks invoked, the
   * request wrapper being freed right after each.
   */
  datatype Pool = Pool(conns: seq<Conn>, requests: seq<ReqId>, timeout: int, paused: seq<Paused>, hooks: Hooks, done: seq<Done>)

  /** The outcome of the calls into HTTP and the allocator during one scheduling step. */
  datatype Env = Env(answer: Handle -> HookResult, reqOk: bool, pauseOk: bool, sendOk: bool)

  /** evrpc_pool_new. */
  function PoolNew(memOk: bool): (r: Option<Pool>)
    ensures r.Some? <==> memOk
    ensures r.Some? ==> r.value.timeout == -1 && r.value.conns == [] && r.value.requests == [] && r.value.paused == []
  {
    if memOk then Some(Pool([], [], -1, [], Hooks([], [], 0), [])) else None
  }

  /** evrpc_pool_find_connection: the first connection carrying no request. */
  function FindConnection(conns: seq<Conn>): (r: Option<nat>)
    ensures r.Some? ==> r.value < |conns| && conns[r.value].requests == []
    ensures r.Some? ==> forall j :: 0 <= j < r.value ==> conns[j].requests != []
    ensures r.None? <==> forall j :: 0 <= j < |conns| ==> conns[j].requests != []
  {
    if conns == [] then None
    else if conns[0].requests == [] then Some(0)
    else
      match FindConnection(conns[1..])
      case None =>
        assert forall j :: 1 <= j < |conns| ==> conns[j] == conns[1..][j - 1];
        None
      case Some(i) =>
        assert forall j :: 1 <= j < i + 1 ==> conns[j] == conns[1..][j - 1];
        Some(i + 1)
  }

  /** The user callback runs with `status` and the wrapper is freed. */
  function Finish(p: Pool, ctx: ReqId, status: Status): (r: Pool)
    ensures r.done == p.done + [Done(ctx, status)]
    ensures r.(done := p.done) == p
  {
    p.(done := p.done + [Done(ctx, status)])
  }

  /** A request handled on connection `ci` was sent on it, reported UNSTARTED, or parked; nothing else changed. */
  predicate Handled(p: Pool, r: Pool, ci: nat, ctx: ReqId)
    requires ci < |p.conns|
  {
    |r.conns| == |p.conns| && r.requests == p.requests && r.timeout == p.timeout && r.hooks == p.hooks
    && ((r.conns == p.conns[ci := p.conns[ci].(requests := p.conns[ci].requests + [ctx])]
         && r.done == p.done && r.paused == p.paused)
     || (r.conns == p.conns && r.done == p.done + [Done(ctx, ErrUnstarted)] && r.paused == p.paused)
     || (r.conns == p.conns && r.done == p.done && r.paused == p.paused + [Paused(ctx, ScheduleCont(ci))]))
  }

  /**
   * evrpc_schedule_request_closure: a TERMINATE from a resumed hook, or the
   * HTTP layer refusing the request, reports UNSTARTED; otherwise the
   * request goes out on the connection.
   */
  function ScheduleClosure(p: Pool, ci: nat, ctx: ReqId, res: HookResult, sendOk: bool): (r: Pool)
    requires ci < |p.conns|
    ensures Handled(p, r, ci, ctx) && r.paused == p.paused
    ensures res != Terminate && sendOk ==> r.conns[ci].requests == p.conns[ci].requests + [ctx] && r.done == p.done
    ensures res == Terminate || !sendOk ==> r.done == p.done + [Done(ctx, ErrUnstarted)] && r.conns == p.conns
  {
    if res == Terminate || !sendOk then Finish(p, ctx, ErrUnstarted)
    else p.(conns := p.conns[ci := p.conns[ci].(requests := p.conns[ci].requests + [ctx])])
  }

  /**
   * evrpc_schedule_request on connection `ci`: no HTTP request object, a
   * TERMINATE from the output hooks, or a failed pause reports UNSTARTED; a
   * PAUSE parks the request; otherwise the closure sends it.
   */
  function ScheduleRequest(p: Pool, ci: nat, ctx: ReqId, env: Env): (r: Pool)
    requires ci < |p.conns|
    ensures Handled(p, r, ci, ctx)
    ensures !env.reqOk ==> r.done == p.done + [Done(ctx, ErrUnstarted)]
    ensures var hr := if p.hooks.output == [] then Continue else ProcessHooks(p.hooks.output, env.answer).0;
      env.reqOk ==>
        (r.paused != p.paused <==> hr == Pause && env.pauseOk)
        && (r.conns != p.conns <==> hr == Continue && env.sendOk)
  {
    if !env.reqOk then Finish(p, ctx, ErrUnstarted)
    else if p.hooks.output != [] then
      match ProcessHooks(p.hooks.output, env.answer).0
      case Terminate => Finish(p, ctx, ErrUnstarted)
      case Pause =>
        if env.pauseOk then p.(paused := p.paused + [Paused(ctx, ScheduleCont(ci))])
        else Finish(p, ctx, ErrUnstarted)
      case Continue => ScheduleClosure(p, ci, ctx, Continue, env.sendOk)
    else ScheduleClosure(p, ci, ctx, Continue, env.sendOk)
  }

  /**
   * evrpc_pool_schedule: the head of the queue is taken off and scheduled
   * on the first idle connection, and only when there is one.
   */
  function PoolSchedule(p: Pool, env: Env): (r: Pool)
    ensures p.requests == [] || FindConnection(p.conns).None? ==> r == p
    ensures p.requests != [] && FindConnection(p.conns).Some? ==>
      Handled(p.(requests := p.requests[1..]), r, FindConnection(p.conns).value, p.requests[0])
    ensures |r.conns| == |p.conns| && r.timeout == p.timeout && r.hooks == p.hooks
    ensures |r.done| <= |p.done| + 1 && r.done[..|p.done|] == p.done
  {
    if p.requests == [] then p
    else match FindConnection(p.conns)
      case None => p
      case Some(ci) => ScheduleRequest(p.(requests := p.requests[1..]), ci, p.requests[0], env)
  }

  /** A scheduling step takes exactly the head off the queue, and does so iff some connection is idle. */
  lemma ScheduleTakesHead(p: Pool, env: Env)
    ensures var r := PoolSchedule(p, env);
      r.requests == p.requests || (p.requests != [] && r.requests == p.requests[1..])
    ensures var r := PoolSchedule(p, env);
      r.requests != p.requests <==> p.requests != [] && exists j :: 0 <= j < |p.conns| && p.conns[j].requests == []
  {
  }

  /**
   * evrpc_pool_add_connection: the connection joins the tail, takes the
   * pool timeout unless it has its own, and is handed the head of the
   * queue when requests are pending, whether or not it is idle.
   */
  function AddConnection(p: Pool, c: Conn, env: Env): (r: Pool)
    ensures |r.conns| == |p.conns| + 1 && r.timeout == p.timeout && r.hooks == p.hooks
    ensures r.conns[..|p.conns|] == p.conns
    ensures r.conns[|p.conns|].timeout == (if c.timeout == -1 then p.timeout else c.timeout)
    ensures p.requests == [] ==> r.requests == [] && r.conns[|p.conns|].requests == c.requests && r.done == p.done && r.paused == p.paused
    ensures p.requests != [] ==> Handled(p.(conns := r.conns[..|p.conns|] + [r.conns[|p.conns|].(requests := c.requests)], requests := p.requests[1..]),
      r, |p.conns|, p.requests[0])
  {
    var c1 := if c.timeout == -1 then c.(timeout := p.timeout) else c;
    var p1 := p.(conns := p.conns + [c1]);
    if p.requests == [] then p1
    else
      var q := p1.(requests := p.requests[1..]);
      var r := ScheduleRequest(q, |p.conns|, p.requests[0], env);
      assert r.conns[..|p.conns|] == p.conns;
      assert r.conns[|p.conns|].timeout == c1.timeout;
      assert q.conns == r.conns[..|p.conns|] + [r.conns[|p.conns|].(requests := c.requests)];
      r
  }

  /** evrpc_pool_set_timeout: every pooled connection and the pool take the new timeout. */
  function SetTimeout(p: Pool, t: int): (r: Pool)
    ensures |r.conns| == |p.conns| && r.timeout == t
    ensures forall j :: 0 <= j < |r.conns| ==> r.conns[j] == p.conns[j].(timeout := t)
    ensures r.(conns := p.conns, timeout := p.timeout) == p
  {
    p.(conns := seq(|p.conns|, j requires 0 <= j < |p.conns| => p.conns[j].(timeout := t)), timeout := t)
  }

  /** A pool timeout reaches connections added later only when they have none of their own. */
  lemma TimeoutInherited(p: Pool, t: int, c: Conn, env: Env)
    ensures var r := AddConnection(SetTimeout(p, t), c, env);
      r.conns[|p.conns|].timeout == (if c.timeout == -1 then t else c.timeout)
      && forall j :: 0 <= j < |p.conns| ==> r.conns[j].timeout == t
  {
    var q := SetTimeout(p, t);
    var r := AddConnection(q, c, env);
    assert forall j :: 0 <= j < |p.conns| ==> r.conns[j] == r.conns[..|p.conns|][j];
  }

  /**
   * evrpc_make_request: append to the queue and try to schedule; the pool
   * must have a connection.  With every connection busy the request waits
   * at the tail; otherwise the queue's head goes out first.
   */
  function MakeRequest(p: Pool, ctx: ReqId, env: Env): (r: Pool)
    requires p.conns != []
    ensures FindConnection(p.conns).None? ==> r == p.(requests := p.requests + [ctx])
    ensures FindConnection(p.conns).Some? ==> r.requests == (p.requests + [ctx])[1..]
    ensures FindConnection(p.conns).Some? ==>
      Handled(p.(requests := (p.requests + [ctx])[1..]), r, FindConnection(p.conns).value, (p.requests + [ctx])[0])
  {
    PoolSchedule(p.(requests := p.requests + [ctx]), env)
  }

  /**
   * The sender EVRPC_GENERATE defines: when the request context cannot be
   * made, the callback gets UNSTARTED and the sender returns -1; otherwise
   * the request is made and the sender returns 0.
   */
  function SendRequest(p: Pool, ctx: ReqId, ctxOk: bool, env: Env): (r: (Pool, int))
    requires ctxOk ==> p.conns != []
    ensures r.1 == 0 || r.1 == -1
    ensures r.1 == -1 <==> !ctxOk
    ensures !ctxOk ==> r.0.done == p.done + [Done(ctx, ErrUnstarted)] && r.0.requests == p.requests && r.0.conns == p.conns
    ensures ctxOk ==> r.0 == MakeRequest(p, ctx, env)
  {
    if !ctxOk then (Finish(p, ctx, ErrUnstarted), -1) else (MakeRequest(p, ctx, env), 0)
  }

  /**
   * The status evrpc_reply_done_closure reports and whether it clears the
   * reply: no HTTP request means the timeout fired, TERMINATE means a hook
   * aborted, a reply that does not parse is a bad payload.
   */
  function ReplyStatus(hasReq: bool, res: HookResult, parsed: bool): (r: (Status, bool))
    ensures !hasReq ==> r.0 == ErrTimeout
    ensures hasReq && res == Terminate ==> r.0 == ErrHookAborted
    ensures hasReq && res != Terminate ==> r.0 == (if parsed then ErrNone else ErrBadPayload)
  {
    var unmarshal := if !hasReq || res == Terminate then -1 else if parsed then 0 else -1;
    var st := if !hasReq then ErrTimeout else if res == Terminate then ErrHookAborted
      else if unmarshal == -1 then ErrBadPayload else ErrNone;
    (st, unmarshal == -1)
  }

  /** The reply is cleared exactly when the request failed. */
  lemma ClearedIffFailed(hasReq: bool, res: HookResult, parsed: bool)
    ensures ReplyStatus(hasReq, res, parsed).1 <==> ReplyStatus(hasReq, res, parsed).0 != ErrNone
    ensures ReplyStatus(hasReq, res, parsed).0 == ErrNone <==> hasReq && res != Terminate && parsed
  {
  }

  /**
   * evrpc_reply_done_closure: the callback gets the status first, then the
   * next queued request may be scheduled.
   */
  function ReplyClosure(p: Pool, ctx: ReqId, hasReq: bool, res: HookResult, parsed: bool, env: Env): (r: Pool)
    ensures |r.done| > |p.done| && r.done[..|p.done|] == p.done
    ensures r.done[|p.done|] == Done(ctx, ReplyStatus(hasReq, res, parsed).0)
    ensures |r.conns| == |p.conns|
    ensures |r.paused| >= |p.paused| && r.paused[..|p.paused|] == p.paused
  {
    var q := Finish(p, ctx, ReplyStatus(hasReq, res, parsed).0);
    var r := PoolSchedule(q, env);
    assert r.done[..|q.done|][..|p.done|] == r.done[..|p.done|];
    r
  }

  /** `rs` without the request `ctx`, the others in order. */
  function WithoutReq(rs: seq<ReqId>, ctx: ReqId): (r: seq<ReqId>)
    ensures forall x :: x in r <==> x in rs && x != ctx
    ensures ctx !in rs ==> r == rs
    ensures rs == [ctx] ==> r == []
  {
    if rs == [] then []
    else (if rs[0] == ctx then [] else [rs[0]]) + WithoutReq(rs[1..], ctx)
  }

  /**
   * What the HTTP layer does before it calls evrpc_reply_done, whether the
   * reply arrived or the connection failed on a timeout: the finished
   * request leaves the connection that carried it, which may leave that
   * connection idle.
   */
  function Release(p: Pool, ctx: ReqId): (r: Pool)
    ensures |r.conns| == |p.conns| && r.(conns := p.conns) == p
    ensures forall j :: 0 <= j < |p.conns| ==>
              r.conns[j].timeout == p.conns[j].timeout
              && (forall x :: x in r.conns[j].requests <==> x in p.conns[j].requests && x != ctx)
    ensures forall j :: 0 <= j < |p.conns| && ctx !in p.conns[j].requests ==> r.conns[j] == p.conns[j]
  {
    p.(conns := seq(|p.conns|, j requires 0 <= j < |p.conns| => p.conns[j].(requests := WithoutReq(p.conns[j].requests, ctx))))
  }

  /**
   * evrpc_reply_done, entered once the HTTP layer has released the request
   * from its connection.  A PAUSE from the input hooks parks the request;
   * the result of parking is not checked, so a failed pause drops the
   * request without calling its callback.
   */
  function ReplyDone(p: Pool, ctx: ReqId, hasReq: bool, parsed: bool, env: Env): (r: Pool)
    ensures |r.conns| == |p.conns|
    ensures var hr := if !hasReq || p.hooks.input == [] then Continue else ProcessHooks(p.hooks.input, env.answer).0;
      hr != Pause ==> |r.done| > |p.done| && r.done[..|p.done|] == p.done && r.done[|p.done|] == Done(ctx, ReplyStatus(hasReq, hr, parsed).0)
    ensures var hr := if !hasReq || p.hooks.input == [] then Continue else ProcessHooks(p.hooks.input, env.answer).0;
      hr == Pause && env.pauseOk ==> r == Release(p, ctx).(paused := p.paused + [Paused(ctx, ReplyCont(hasReq, parsed))])
    ensures var hr := if !hasReq || p.hooks.input == [] then Continue else ProcessHooks(p.hooks.input, env.answer).0;
      hr == Pause ==> forall j :: 0 <= j < |r.conns| ==> ctx !in r.conns[j].requests
    ensures var hr := if !hasReq || p.hooks.input == [] then Continue else ProcessHooks(p.hooks.input, env.answer).0;
      hr == Pause && !env.pauseOk ==> r == Release(p, ctx)
  {
    var p0 := Release(p, ctx);
    if !hasReq then ReplyClosure(p0, ctx, hasReq, Continue, parsed, env)
    else if p.hooks.input != [] then
      var hr := ProcessHooks(p.hooks.input, env.answer).0;
      if hr == Pause then
        if env.pauseOk then p0.(paused := p.paused + [Paused(ctx, ReplyCont(hasReq, parsed))]) else p0
      else ReplyClosure(p0, ctx, hasReq, hr, parsed, env)
    else ReplyClosure(p0, ctx, hasReq, Continue, parsed, env)
  }

  /**
   * A reply frees its connection for the queue: when `ctx` was the only
   * request on connection `ci` and every connection before it is busy with
   * other requests, the callback runs and then the head of the queue goes
   * out on `ci`.
   */
  lemma ReplyFreesConnection(p: Pool, ctx: ReqId, ci: nat, parsed: bool, env: Env)
    requires ci < |p.conns| && p.conns[ci].requests == [ctx]
    requires forall j :: 0 <= j < ci ==> p.conns[j].requests != [] && ctx !in p.conns[j].requests
    requires p.requests != [] && p.hooks.input == []
    ensures var q := Finish(Release(p, ctx), ctx, ReplyStatus(true, Continue, parsed).0);
      q.conns[ci].requests == []
      && Handled(q.(requests := p.requests[1..]), ReplyDone(p, ctx, true, parsed, env), ci, p.requests[0])
  {
    var p0 := Release(p, ctx);
    var q := Finish(p0, ctx, ReplyStatus(true, Continue, parsed).0);
    assert q.conns == p0.conns && q.requests == p.requests;
    assert q.conns[ci].requests == WithoutReq([ctx], ctx) == [];
    assert forall j :: 0 <= j < ci ==> q.conns[j] == p.conns[j];
    assert FindConnection(q.conns) == Some(ci);
    assert ReplyDone(p, ctx, true, parsed, env) == PoolSchedule(q, env);
  }

  /** The position of the first paused entry for `ctx`, if any. */
  function FindPaused(ps: seq<Paused>, ctx: ReqId): (r: Option<nat>)
    ensures r.Some? ==> r.value < |ps| && ps[r.value].ctx == ctx && forall j :: 0 <= j < r.value ==> ps[j].ctx != ctx
    ensures r.None? <==> forall j :: 0 <= j < |ps| ==> ps[j].ctx != ctx
  {
    if ps == [] then None
    else if ps[0].ctx == ctx then Some(0)
    else
      match FindPaused(ps[1..], ctx)
      case None =>
        assert forall j :: 1 <= j < |ps| ==> ps[j] == ps[1..][j - 1];
        None
      case Some(i) =>
        assert forall j :: 1 <= j < i + 1 ==> ps[j] == ps[1..][j - 1];
        Some(i + 1)
  }

  /** Every parked scheduling step names a connection of the pool. */
  predicate PausedOk(p: Pool) {
    forall j :: 0 <= j < |p.paused| && p.paused[j].cont.ScheduleCont? ==> p.paused[j].cont.conn < |p.conns|
  }

  /**
   * evrpc_resume_request on a pool: -1 when `ctx` is not paused; otherwise
   * its first entry leaves the list and its continuation runs with `res`.
   * The source runs the continuation before unlinking the entry; anything
   * the continuation parks is appended, so the order of the two steps does
   * not change the resulting list.
   */
  function ResumeRequest(p: Pool, ctx: ReqId, res: HookResult, env: Env): (r: (Pool, int))
    requires PausedOk(p)
    ensures FindPaused(p.paused, ctx).None? <==> r.1 == -1
    ensures r.1 == -1 ==> r.0 == p
    ensures r.1 != -1 ==> r.1 == 0
    ensures r.1 == 0 && p.paused[FindPaused(p.paused, ctx).value].cont.ReplyCont? ==>
      |r.0.done| > |p.done| && r.0.done[|p.done|].req == ctx
    ensures r.1 == 0 ==>
      var k := FindPaused(p.paused, ctx).value;
      var rest := p.paused[..k] + p.paused[k + 1..];
      var cont := p.paused[k].cont;
      |r.0.paused| >= |rest| && r.0.paused[..|rest|] == rest
      && (cont.ScheduleCont? ==>
            r.0.paused == rest && r.0 == ScheduleClosure(p.(paused := rest), cont.conn, ctx, res, env.sendOk))
      && (cont.ReplyCont? ==>
            r.0 == ReplyClosure(p.(paused := rest), ctx, cont.hasReq, res, cont.parsed, env))
  {
    match FindPaused(p.paused, ctx)
    case None => (p, -1)
    case Some(k) =>
      var entry := p.paused[k];
      var p1 := p.(paused := p.paused[..k] + p.paused[k + 1..]);
      match entry.cont
      case ScheduleCont(ci) => (ScheduleClosure(p1, ci, ctx, res, env.sendOk), 0)
      case ReplyCont(hasReq, parsed) => (ReplyClosure(p1, ctx, hasReq, res, parsed, env), 0)
  }

  /** A request parked by a PAUSE hook can be resumed, and resuming it removes its entry. */
  lemma PauseThenResume(p: Pool, ci: nat, ctx: ReqId, env: Env)
    requires ci < |p.conns| && env.reqOk && env.pauseOk && p.hooks.output != [] && PausedOk(p)
    requires ProcessHooks(p.hooks.output, env.answer).0 == Pause
    requires forall j :: 0 <= j < |p.paused| ==> p.paused[j].ctx != ctx
    ensures var q := ScheduleRequest(p, ci, ctx, env);
      q.paused == p.paused + [Paused(ctx, ScheduleCont(ci))]
      && PausedOk(q)
      && ResumeRequest(q, ctx, Continue, env) == (ScheduleClosure(p, ci, ctx, Continue, env.sendOk), 0)
  {
    var q := ScheduleRequest(p, ci, ctx, env);
    var k := |p.paused|;
    assert q.paused[k].ctx == ctx;
    assert forall j :: 0 <= j < k ==> q.paused[j] == p.paused[j];
    var f := FindPaused(q.paused, ctx);
    assert f.Some?;
    assert f.value == k;
    assert q.paused[..k] + q.paused[k + 1..] == p.paused;
  }

  // ---------------------------------------------------------------- meta data

  /** A request's hook_meta: absent, or the list of key/data pairs in insertion order. */
  type Meta = Option<seq<(string, seq<Byte>)>>

  /** evrpc_hook_add_meta: create the store when missing and append the pair. */
  function AddMeta(m: Meta, key: string, data: seq<Byte>): (r: Meta)
    ensures r.Some? && |r.value| >= 1 && r.value[|r.value| - 1] == (key, data)
    ensures m.Some? ==> r.value[..|r.value| - 1] == m.value
    ensures m.None? ==> r.value == [(key, data)]
  {
    match m
    case None => Some([(key, data)])
    case Some(l) => Some(l + [(key, data)])
  }

  /**
   * evrpc_hook_find_meta: -1 without a store or without the key; otherwise
   * 0 with the data of the first pair carrying the key.
   */
  function FindMeta(m: Meta, key: string): (r: (int, Option<seq<Byte>>))
    ensures r.0 == 0 || r.0 == -1
    ensures r.0 == 0 <==> r.1.Some?
    ensures r.0 == 0 <==> m.Some? && exists i :: 0 <= i < |m.value| && m.value[i].0 == key
    ensures r.0 == 0 ==> exists i :: (0 <= i < |m.value| && m.value[i] == (key, r.1.value)
      && (forall j :: 0 <= j < i ==> m.value[j].0 != key))
  {
    match m
    case None => (-1, None)
    case Some(l) => FindIn(l, key)
  }

  function FindIn(l: seq<(string, seq<Byte>)>, key: string): (r: (int, Option<seq<Byte>>))
    ensures r.0 == 0 || r.0 == -1
    ensures r.0 == 0 <==> r.1.Some?
    ensures r.0 == 0 <==> exists i :: 0 <= i < |l| && l[i].0 == key
    ensures r.0 == 0 ==> exists i :: (0 <= i < |l| && l[i] == (key, r.1.value)
      && (forall j :: 0 <= j < i ==> l[j].0 != key))
  {
    if l == [] then (-1, None)
    else if l[0].0 == key then
      assert l[0] == (key, l[0].1);
      (0, Some(l[0].1))
    else
      var t := FindIn(l[1..], key);
      assert forall i :: 1 <= i < |l| ==> l[i] == l[1..][i - 1];
      if t.0 == 0 then
        var i :| 0 <= i < |l[1..]| && l[1..][i] == (key, t.1.value) && forall j :: 0 <= j < i ==> l[1..][j].0 != key;
        assert l[i + 1] == (key, t.1.value);
        t
      else
        t
  }

  /** A key added once is found with its data; adding it again does not shadow the first value. */
  lemma AddThenFind(m: Meta, key: string, data: seq<Byte>)
    ensures FindMeta(AddMeta(m, key, data), key).0 == 0
    ensures (m.None? || forall j :: 0 <= j < |m.value| ==> m.value[j].0 != key) ==>
      FindMeta(AddMeta(m, key, data), key).1 == Some(data)
    ensures m.Some? && FindMeta(m, key).0 == 0 ==> FindMeta(AddMeta(m, key, data), key) == FindMeta(m, key)
  {
    var r := AddMeta(m, key, data).value;
    assert r[|r| - 1].0 == key;
    if m.Some? {
      FindPrefix(m.value, key, data);
    }
  }

  lemma {:induction false} FindPrefix(l: seq<(string, seq<Byte>)>, key: string, data: seq<Byte>)
    ensures FindIn(l, key).0 == 0 ==> FindIn(l + [(key, data)], key) == FindIn(l, key)
    ensures FindIn(l, key).0 == -1 ==> FindIn(l + [(key, data)], key) == (0, Some(data))
  {
    if l != [] {
      assert (l + [(key, data)])[1..] == l[1..] + [(key, data)];
      FindPrefix(l[1..], key, data);
    }
  }
}
