/**
 The body side-channel: bodies travel next to the JSON metadata, through the plugin instance's
 buffers, and only to middlewares with body access. This module has the controller that holds the
 body, the gateway's request and response passes that use it, and the SDK glue that reads and
 returns bodies on the plugin's side.
 */
module BodyChannel {
  import opened Text
  import opened PluginHost
  import opened Chain

  // ---------- The controller ----------

  datatype Held = Held(metadata: Bytes, body: Option<Bytes>)

  function Prepared(st: HostState, held: Held, access: bool): HostState {
    st.(requestBody := if access then held.body else None)
  }

  function Collected(held: Held, st: HostState, output: Bytes, access: bool): Held {
    Held(if output != [] then output else held.metadata,
         if access && st.outputBody.Some? then st.outputBody.value else held.body)
  }

  function AfterCollect(st: HostState, access: bool): HostState {
    if access then st.(outputBody := None) else st
  }

  class BodyAccessControl {
    var metadataJson: Bytes
    var heldBody: Option<Bytes>

    ghost function View(): Held
      reads this
    { Held(metadataJson, heldBody) }

    constructor (metadata: Bytes, body: Option<Bytes>)
      ensures View() == Held(metadata, body)
    {
      metadataJson, heldBody := metadata, body;
    }

    method PrepareInstance(instance: PluginState, bodyAccess: bool) returns (metadata: Bytes)
      modifies instance
      ensures metadata == View().metadata
      ensures instance.View() == Prepared(old(instance.View()), View(), bodyAccess)
    {
      if bodyAccess {
        instance.SetRequestBody(heldBody);
      } else {
        instance.SetRequestBody(None);
      }
      metadata := metadataJson;
    }

    method CollectAfter(instance: PluginState, output: Bytes, bodyAccess: bool)
      modifies this, instance
      ensures View() == Collected(old(View()), old(instance.View()), output, bodyAccess)
      ensures instance.View() == AfterCollect(old(instance.View()), bodyAccess)
    {
      if output != [] {
        metadataJson := output;
      }
      if bodyAccess {
        var newBody := instance.TakeOutputBody();
        if newBody.Some? {
          heldBody := newBody.value;
        }
      }
    }
  }

  // ---------- The gateway's passes ----------

  datatype Guarded = Guarded(middleware: Middleware, bodyAccess: bool)

  datatype Passed =
    | Through(held: Held, context: Context, instances: seq<HostState>)
    | Answered(response: Bytes, body: Option<Bytes>, index: nat, context: Context, instances: seq<HostState>)
    | Aborted

  datatype Turn = Turn(instance: HostState, verdict: OnRequestResult)

  /** One middleware's turn on the request: prepare, call, parse. */
  function RequestTurn(m: Guarded, parse: Parser, fuel: nat, st: HostState, held: Held, context: Context): Turn {
    var (st', code) := CallHandler(Prepared(st, held, m.bodyAccess).(context := context), m.middleware.onRequest, held.metadata, fuel);
    if code.None? then Turn(st', Failed)
    else Turn(st'.(outputBuffer := []), ParseMiddlewareOutput(parse, st'.outputBuffer, code.value))
  }

  function GatewayRequest(ms: seq<Guarded>, parse: Parser, fuel: nat, sts: seq<HostState>, i: nat,
                          held: Held, context: Context): (p: Passed)
    requires |sts| == |ms| && i <= |ms|
    ensures p.Through? ==> |p.instances| == |ms|
    ensures p.Answered? ==> |p.instances| == |ms| && i <= p.index < |ms|
    decreases |ms| - i
  {
    if i == |ms| then Through(held, context, sts)
    else
      var t := RequestTurn(ms[i], parse, fuel, sts[i], held, context);
      match t.verdict
      case Failed => Aborted
      case ShortCircuit(response) =>
        // Any middleware may answer with a body of its own.
        Answered(response, if t.instance.outputBody.Some? then t.instance.outputBody.value else None, i,
          t.instance.context, sts[i := t.instance.(outputBody := None)])
      case Continue(output) =>
        GatewayRequest(ms, parse, fuel, sts[i := AfterCollect(t.instance, ms[i].bodyAccess)], i + 1,
          Collected(held, t.instance, output, ms[i].bodyAccess), t.instance.context)
  }

  function Middlewares(ms: seq<Guarded>): seq<Middleware> { Map((m: Guarded) => m.middleware, ms) }

  /** What the gateway makes of a request: forwarded to the dispatcher, answered, or failed. */
  datatype Outcome =
    | Forwarded(held: Held, context: Context, instances: seq<HostState>)
    | Delivered(response: Bytes, body: Option<Bytes>, instances: seq<HostState>)
    | Rejected

  /** A middleware's answer goes back through the ones before it, on the instances as they were left.
      The answer's body is put aside and attached at the end. */
  function RequestOutcome(ms: seq<Guarded>, parse: Parser, fuel: nat, sts: seq<HostState>, held: Held, context: Context): Outcome
    requires |sts| == |ms|
  {
    match GatewayRequest(ms, parse, fuel, sts, 0, held, context)
    case Through(held', context', instances) => Forwarded(held', context', instances)
    case Answered(response, body, index, context', instances) =>
      var back := ResponseFrom(Middlewares(ms), fuel, instances, index, response, context');
      Delivered(back.response, body, back.instances)
    case Aborted => Rejected
  }

  /** One middleware's turn on the response; a failure leaves what is held alone. */
  function ResponseTurn(m: Guarded, fuel: nat, st: HostState, held: Held, context: Context): (HostState, Held) {
    var (st', code) := CallHandler(Prepared(st, held, m.bodyAccess).(context := context), m.middleware.onResponse, held.metadata, fuel);
    if code.None? then (st', held)
    else
      (AfterCollect(st'.(outputBuffer := []), m.bodyAccess), Collected(held, st', st'.outputBuffer, m.bodyAccess))
  }

  function GatewayResponse(ms: seq<Guarded>, fuel: nat, sts: seq<HostState>, n: nat, held: Held, context: Context): Held
    requires |sts| == |ms| && n <= |ms|
    decreases n
  {
    if n == 0 then held
    else
      var (st, held') := ResponseTurn(ms[n - 1], fuel, sts[n - 1], held, context);
      GatewayResponse(ms, fuel, sts[n - 1 := st], n - 1, held', context)
  }

  ghost function Views(instances: seq<PluginState>): (vs: seq<HostState>)
    reads instances
    ensures |vs| == |instances| && forall i | 0 <= i < |instances| :: vs[i] == instances[i].View()
  {
    seq(|instances|, i requires 0 <= i < |instances| reads instances => instances[i].View())
  }

  ghost predicate Distinct(instances: seq<PluginState>) {
    forall i, j | 0 <= i < j < |instances| :: instances[i] != instances[j]
  }

  /** One middleware's turn on the request path, up to its verdict. */
  method TakeRequestTurn(m: Guarded, parse: Parser, fuel: nat, instance: PluginState, ctrl: BodyAccessControl, context: Context)
    returns (verdict: OnRequestResult)
    modifies instance
    ensures Turn(instance.View(), verdict) == RequestTurn(m, parse, fuel, old(instance.View()), ctrl.View(), context)
  {
    var request := ctrl.PrepareInstance(instance, m.bodyAccess);
    instance.SetContext(context);
    var code := instance.Call(m.middleware.onRequest, request, fuel);
    if code.None? {
      return Failed;
    }
    var output := instance.TakeOutput();
    return ParseMiddlewareOutput(parse, output, code.value);
  }

  lemma OthersKept(instances: seq<PluginState>, i: nat, before: seq<HostState>)
    requires i < |instances| == |before|
    requires forall j | 0 <= j < |instances| && j != i :: instances[j].View() == before[j]
    ensures Views(instances) == before[i := instances[i].View()]
  {
  }

  /** One turn on the way back from a short circuit. */
  method TakePartialTurn(m: Middleware, fuel: nat, instances: seq<PluginState>, i: nat, response: Bytes, context: Context)
    returns (response': Bytes)
    requires i < |instances| && Distinct(instances)
    modifies instances[i]
    ensures var (st, code) := CallHandler(old(instances[i].View()).(context := context), m.onResponse, response, fuel);
            && Views(instances) == old(Views(instances))[i := AfterResponse(st, code, response).0]
            && response' == AfterResponse(st, code, response).1
  {
    ghost var before := Views(instances);
    response' := response;
    instances[i].SetContext(context);
    var code := instances[i].Call(m.onResponse, response, fuel);
    if code.Some? {
      var output := instances[i].TakeOutput();
      if output != [] {
        response' := output;
      }
    }
    OthersKept(instances, i, before);
  }

  /** The way back from a short circuit, through the middlewares before it. */
  method ExecuteOnResponsePartial(ms: seq<Guarded>, fuel: nat, instances: seq<PluginState>, response: Bytes, index: nat, context: Context)
    returns (final: Bytes)
    requires |instances| == |ms| && Distinct(instances) && index <= |ms|
    modifies instances
    ensures var back := ResponseFrom(Middlewares(ms), fuel, old(Views(instances)), index, response, context);
            final == back.response && Views(instances) == back.instances
  {
    final := response;
    ghost var whole := ResponseFrom(Middlewares(ms), fuel, Views(instances), index, response, context);
    for i := index downto 0
      invariant var rest := ResponseFrom(Middlewares(ms), fuel, Views(instances), i, final, context);
                whole.response == rest.response && whole.instances == rest.instances
    {
      final := TakePartialTurn(ms[i].middleware, fuel, instances, i, final, context);
    }
  }

  /** The gateway's request path. */
  method ExecuteMiddlewareOnRequest(ms: seq<Guarded>, parse: Parser, fuel: nat, instances: seq<PluginState>,
                                    ctrl: BodyAccessControl, context: Context)
    returns (stopped: Option<OnRequestResult>, body: Option<Bytes>, finalContext: Context)
    requires |instances| == |ms| && Distinct(instances)
    modifies ctrl, instances
    ensures match RequestOutcome(ms, parse, fuel, old(Views(instances)), old(ctrl.View()), context) {
      case Forwarded(held, context', views) =>
        stopped == None && ctrl.View() == held && finalContext == context' && Views(instances) == views
      case Delivered(response, body', views) =>
        stopped == Some(ShortCircuit(response)) && body == body' && Views(instances) == views
      case Rejected => stopped == Some(Failed)
    }
  {
    var current := context;
    ghost var whole := GatewayRequest(ms, parse, fuel, Views(instances), 0, ctrl.View(), context);
    for i := 0 to |instances|
      invariant whole == GatewayRequest(ms, parse, fuel, Views(instances), i, ctrl.View(), current)
    {
      ghost var before := Views(instances);
      var instance := instances[i];
      var verdict := TakeRequestTurn(ms[i], parse, fuel, instance, ctrl, current);
      match verdict {
        case Continue(request) =>
          current := instance.context;
          ctrl.CollectAfter(instance, request, ms[i].bodyAccess);
          OthersKept(instances, i, before);
        case ShortCircuit(response) =>
          var scBody := instance.TakeOutputBody();
          OthersKept(instances, i, before);
          var final := ExecuteOnResponsePartial(ms, fuel, instances, response, i, instance.context);
          return Some(ShortCircuit(final)), if scBody.Some? then scBody.value else None, current;
        case Failed =>
          return Some(Failed), None, current;
      }
    }
    return None, None, current;
  }

  /** One iteration of the response path. */
  method TakeResponseTurn(m: Guarded, fuel: nat, instance: PluginState, ctrl: BodyAccessControl, context: Context)
    modifies ctrl, instance
    ensures (instance.View(), ctrl.View()) == ResponseTurn(m, fuel, old(instance.View()), old(ctrl.View()), context)
  {
    var response := ctrl.PrepareInstance(instance, m.bodyAccess);
    instance.SetContext(context);
    var code := instance.Call(m.middleware.onResponse, response, fuel);
    if code.Some? {
      var output := instance.TakeOutput();
      ctrl.CollectAfter(instance, output, m.bodyAccess);
    }
  }

  method TakeTurnAt(m: Guarded, fuel: nat, instances: seq<PluginState>, i: nat, ctrl: BodyAccessControl, context: Context)
    requires i < |instances| && Distinct(instances)
    modifies ctrl, instances[i]
    ensures var (st, held) := ResponseTurn(m, fuel, old(instances[i].View()), old(ctrl.View()), context);
            Views(instances) == old(Views(instances))[i := st] && ctrl.View() == held
  {
    ghost var before := Views(instances);
    TakeResponseTurn(m, fuel, instances[i], ctrl, context);
    OthersKept(instances, i, before);
  }

  lemma ResponseStep(ms: seq<Guarded>, fuel: nat, sts: seq<HostState>, i: nat, held: Held, context: Context,
                     sts': seq<HostState>, held': Held)
    requires |sts| == |sts'| == |ms| && i < |ms| && sts' == sts[i := sts'[i]]
    requires ResponseTurn(ms[i], fuel, sts[i], held, context) == (sts'[i], held')
    ensures GatewayResponse(ms, fuel, sts, i + 1, held, context) == GatewayResponse(ms, fuel, sts', i, held', context)
  {
  }

  /** The loop of the gateway's response path. */
  method ExecuteMiddlewareOnResponse(ms: seq<Guarded>, fuel: nat, instances: seq<PluginState>,
                                     ctrl: BodyAccessControl, context: Context)
    requires |instances| == |ms| && Distinct(instances)
    modifies ctrl, instances
    ensures ctrl.View() == GatewayResponse(ms, fuel, old(Views(instances)), |ms|, old(ctrl.View()), context)
  {
    ghost var whole := GatewayResponse(ms, fuel, Views(instances), |ms|, ctrl.View(), context);
    for i := |instances| downto 0
      invariant whole == GatewayResponse(ms, fuel, Views(instances), i, ctrl.View(), context)
    {
      ghost var before, held := Views(instances), ctrl.View();
      TakeTurnAt(ms[i], fuel, instances, i, ctrl, context);
      ResponseStep(ms, fuel, before, i, held, context, Views(instances), ctrl.View());
    }
  }

  // ---------- What the plugins asked and were told during a pass ----------

  /** One turn: what the plugin is given, what was left in the output body before it, everything said
      in it, and whether the pass takes up its output. */
  datatype TurnLog = TurnLog(
    index: nat, access: bool, collected: bool, metadata: Bytes, context: Context, given: Option<Bytes>,
    before: Option<Option<Bytes>>, said: seq<Exchange>)

  /** The instance as a handler finds it. */
  function Ready(m: Guarded, st: HostState, held: Held, context: Context): HostState {
    Prepared(st, held, m.bodyAccess).(context := context, outputBuffer := [])
  }

  function Said(m: Guarded, h: Handler, fuel: nat, st: HostState, held: Held, context: Context): seq<Exchange> {
    Transcript(Ready(m, st, held, context), h(st.memory, held.metadata), [], fuel)
  }

  function Logged(m: Guarded, h: Handler, i: nat, collected: bool, fuel: nat, st: HostState, held: Held, context: Context): TurnLog {
    TurnLog(i, m.bodyAccess, collected, held.metadata, context, Ready(m, st, held, context).requestBody, st.outputBody,
      Said(m, h, fuel, st, held, context))
  }

  /** The turns of a request pass, in order. */
  function RequestLog(ms: seq<Guarded>, parse: Parser, fuel: nat, sts: seq<HostState>, i: nat,
                      held: Held, context: Context): seq<TurnLog>
    requires |sts| == |ms| && i <= |ms|
    decreases |ms| - i
  {
    if i == |ms| then []
    else
      var m := ms[i];
      var t := RequestTurn(m, parse, fuel, sts[i], held, context);
      var entry := Logged(m, m.middleware.onRequest, i, t.verdict.Continue?, fuel, sts[i], held, context);
      match t.verdict
      case Continue(output) =>
        [entry] + RequestLog(ms, parse, fuel, sts[i := AfterCollect(t.instance, m.bodyAccess)], i + 1,
                    Collected(held, t.instance, output, m.bodyAccess), t.instance.context)
      case _ => [entry]
  }

  /** The turns of a response pass, in order; nothing is collected from a turn that traps. */
  function ResponseLog(ms: seq<Guarded>, fuel: nat, sts: seq<HostState>, n: nat, held: Held, context: Context): seq<TurnLog>
    requires |sts| == |ms| && n <= |ms|
    decreases n
  {
    if n == 0 then []
    else
      var m, st := ms[n - 1], sts[n - 1];
      var (after, held') := ResponseTurn(m, fuel, st, held, context);
      [Logged(m, m.middleware.onResponse, n - 1, ResponseReturns(m, fuel, st, held, context), fuel, st, held, context)]
      + ResponseLog(ms, fuel, sts[n - 1 := after], n - 1, held', context)
  }

  predicate ResponseReturns(m: Guarded, fuel: nat, st: HostState, held: Held, context: Context) {
    CallHandler(Prepared(st, held, m.bodyAccess).(context := context), m.middleware.onResponse, held.metadata, fuel).1.Some?
  }

  // ---------- The held body follows the calls of the body-access middlewares ----------

  function Apply(body: Option<Bytes>, effect: Option<Option<Bytes>>): Option<Bytes> {
    if effect.Some? then effect.value else body
  }

  /** Turn by turn: the last `host_body_set` or `host_body_clear` of a collected turn with body access
      decides, and no other call does. */
  function BodyAfterTurns(body: Option<Bytes>, log: seq<TurnLog>): Option<Bytes>
    decreases |log|
  {
    if log == [] then body
    else
      var t := log[0];
      BodyAfterTurns(
        if t.access && t.collected then Apply(body, LastBodyCall(t.before, t.said)) else body, log[1..])
  }

  /** What a turn leaves for collection is what the plugin last said about the body in it. */
  lemma TurnLeavesLastCall(m: Guarded, h: Handler, fuel: nat, st: HostState, held: Held, context: Context)
    ensures CallHandler(Prepared(st, held, m.bodyAccess).(context := context), h, held.metadata, fuel).0.outputBody
         == LastBodyCall(st.outputBody, Said(m, h, fuel, st, held, context))
  {
    OutputBodyIsLastCall(Ready(m, st, held, context), h(st.memory, held.metadata), [], fuel);
  }

  // ---------- Fresh instances: one last call decides ----------

  /** All body calls that count, over the whole pass. */
  function CallsThatCount(log: seq<TurnLog>): seq<Exchange> {
    if log == [] then []
    else (if log[0].access && log[0].collected then log[0].said else []) + CallsThatCount(log[1..])
  }

  ghost predicate StartsClean(log: seq<TurnLog>) {
    forall i | 0 <= i < |log| && log[i].access :: log[i].before == None
  }

  /** When no turn starts with a left-over body, the last body call of the whole pass decides. */
  lemma {:induction false} LastCallDecides(body: Option<Bytes>, log: seq<TurnLog>)
    requires StartsClean(log)
    ensures BodyAfterTurns(body, log) == Apply(body, LastBodyCall(None, CallsThatCount(log)))
    decreases |log|
  {
    if log != [] {
      var t, rest := log[0], log[1..];
      assert StartsClean(rest);
      var said := if t.access && t.collected then t.said else [];
      var body' := Apply(body, LastBodyCall(None, said));
      LastCallDecides(body', rest);
      LastBodyCallConcat(None, said, CallsThatCount(rest));
      ApplyLastCall(body, LastBodyCall(None, said), CallsThatCount(rest));
    }
  }

  lemma {:induction false} ApplyLastCall(body: Option<Bytes>, effect: Option<Option<Bytes>>, xs: seq<Exchange>)
    ensures Apply(Apply(body, effect), LastBodyCall(None, xs)) == Apply(body, LastBodyCall(effect, xs))
  {
    if xs != [] { ApplyLastCall(body, effect, xs[..|xs| - 1]); }
  }

  /** No middleware with body access in the range has a body waiting for collection. */
  ghost predicate NothingWaiting(ms: seq<Guarded>, sts: seq<HostState>, lo: nat, hi: nat) {
    |sts| == |ms| && forall j | lo <= j < hi && j < |ms| :: ms[j].bodyAccess ==> sts[j].outputBody == None
  }

  /** Instances that come fresh into a request pass stay so for their turn, and leave it with nothing
      waiting, ready for the response pass. */
  lemma {:induction false} RequestStartsClean(ms: seq<Guarded>, parse: Parser, fuel: nat, sts: seq<HostState>, i: nat,
                                              held: Held, context: Context)
    requires i <= |ms| && NothingWaiting(ms, sts, 0, |ms|)
    ensures StartsClean(RequestLog(ms, parse, fuel, sts, i, held, context))
    ensures var p := GatewayRequest(ms, parse, fuel, sts, i, held, context);
            p.Through? ==> NothingWaiting(ms, p.instances, 0, |ms|)
    decreases |ms| - i
  {
    if i < |ms| {
      var m := ms[i];
      var t := RequestTurn(m, parse, fuel, sts[i], held, context);
      if t.verdict.Continue? {
        var sts' := sts[i := AfterCollect(t.instance, m.bodyAccess)];
        assert NothingWaiting(ms, sts', 0, |ms|);
        var held' := Collected(held, t.instance, t.verdict.request, m.bodyAccess);
        RequestStartsClean(ms, parse, fuel, sts', i + 1, held', t.instance.context);
      }
    }
  }

  lemma {:induction false} ResponseStartsClean(ms: seq<Guarded>, fuel: nat, sts: seq<HostState>, n: nat, held: Held, context: Context)
    requires n <= |ms| && NothingWaiting(ms, sts, 0, n)
    ensures StartsClean(ResponseLog(ms, fuel, sts, n, held, context))
    decreases n
  {
    if n > 0 {
      var (after, held') := ResponseTurn(ms[n - 1], fuel, sts[n - 1], held, context);
      ResponseStartsClean(ms, fuel, sts[n - 1 := after], n - 1, held', context);
    }
  }

  /** Over a whole exchange with fresh instances: the dispatched body is what the last body call of a
      body-access plugin on the request path made it, and the delivered body is what the last such
      call on the response path made of the dispatcher's. */
  lemma LastCallsDecide(ms: seq<Guarded>, parse: Parser, fuel: nat, sts: seq<HostState>, held: Held, context: Context, reply: Held)
    requires NothingWaiting(ms, sts, 0, |ms|)
    requires GatewayRequest(ms, parse, fuel, sts, 0, held, context).Through?
    ensures var p := GatewayRequest(ms, parse, fuel, sts, 0, held, context);
            var request := RequestLog(ms, parse, fuel, sts, 0, held, context);
            && p.held.body == Apply(held.body, LastBodyCall(None, CallsThatCount(request)))
            && |p.instances| == |ms|
            && GatewayResponse(ms, fuel, p.instances, |ms|, reply, p.context).body
               == Apply(reply.body,
                    LastBodyCall(None, CallsThatCount(ResponseLog(ms, fuel, p.instances, |ms|, reply, p.context))))
  {
    var p := GatewayRequest(ms, parse, fuel, sts, 0, held, context);
    RequestStartsClean(ms, parse, fuel, sts, 0, held, context);
    RequestResult(ms, parse, fuel, sts, 0, held, context);
    LastCallDecides(held.body, RequestLog(ms, parse, fuel, sts, 0, held, context));
    ResponseStartsClean(ms, fuel, p.instances, |ms|, reply, p.context);
    ResponseResult(ms, fuel, p.instances, |ms|, reply, p.context);
    LastCallDecides(reply.body, ResponseLog(ms, fuel, p.instances, |ms|, reply, p.context));
  }

  // ---------- What each turn is given ----------

  /** Whether the pass hands on the data of a turn. */
  predicate Hands(read: Bytes -> Bytes, t: TurnLog) { t.collected && read(LastOutput([], t.said)) != [] }

  function HandedOn(read: Bytes -> Bytes, metadata: Bytes, t: TurnLog): Bytes {
    if Hands(read, t) then read(LastOutput([], t.said)) else metadata
  }

  /** The metadata after some turns: what one of them said last, if it said anything. */
  function MetadataAfter(read: Bytes -> Bytes, metadata: Bytes, log: seq<TurnLog>): Bytes
    decreases |log|
  {
    if log == [] then metadata else MetadataAfter(read, HandedOn(read, metadata, log[0]), log[1..])
  }

  function ContextAfterTurns(context: Context, log: seq<TurnLog>): Context
    decreases |log|
  {
    if log == [] then context else ContextAfterTurns(ContextAfter(context, log[0].said), log[1..])
  }

  /** That is the data of the last turn that hands any on, or the metadata from before. */
  lemma {:induction false} MetadataIsLast(read: Bytes -> Bytes, metadata: Bytes, log: seq<TurnLog>, k: int)
    requires -1 <= k < |log| && (k >= 0 ==> Hands(read, log[k])) && forall j | k < j < |log| :: !Hands(read, log[j])
    ensures MetadataAfter(read, metadata, log) == if k < 0 then metadata else read(LastOutput([], log[k].said))
    decreases |log|
  {
    if log != [] {
      var rest := log[1..];
      assert forall j | 0 <= j < |rest| :: rest[j] == log[j + 1];
      MetadataIsLast(read, HandedOn(read, metadata, log[0]), rest, if k < 0 then -1 else k - 1);
    }
  }

  /** The instance as the plugin of a turn finds it. */
  function StartOf(st: HostState, t: TurnLog): HostState {
    st.(requestBody := t.given, context := t.context, outputBuffer := [])
  }

  /** The turn is a call of `h` on this instance, with what the log says it is given. */
  ghost predicate IsTurn(t: TurnLog, m: Guarded, h: Handler, fuel: nat, st: HostState, j: nat) {
    && t.index == j && t.access == m.bodyAccess && t.before == st.outputBody
    && t.said == Transcript(StartOf(st, t), h(st.memory, t.metadata), [], fuel)
  }

  function CodeOf(t: TurnLog, h: Handler, fuel: nat, st: HostState): Option<int> {
    Exec(StartOf(st, t), h(st.memory, t.metadata), [], fuel).1
  }

  /** The turn is given what the turns before it made of metadata and body, the body with access. */
  ghost predicate Follows(read: Bytes -> Bytes, held: Held, log: seq<TurnLog>, k: nat) {
    && k < |log|
    && log[k].metadata == MetadataAfter(read, held.metadata, log[..k])
    && log[k].given == if log[k].access then BodyAfterTurns(held.body, log[..k]) else None
  }

  lemma FollowsCons(read: Bytes -> Bytes, held: Held, held': Held, t: TurnLog, rest: seq<TurnLog>, k: nat)
    requires Follows(read, held', rest, k)
    requires held' == Held(HandedOn(read, held.metadata, t), BodyAfterTurns(held.body, [t]))
    ensures Follows(read, held, [t] + rest, k + 1)
  {
    var log := [t] + rest;
    assert log[..k + 1] == [t] + rest[..k];
    AfterCons(read, held, t, rest[..k]);
  }

  lemma AfterCons(read: Bytes -> Bytes, held: Held, t: TurnLog, rest: seq<TurnLog>)
    ensures MetadataAfter(read, held.metadata, [t] + rest) == MetadataAfter(read, HandedOn(read, held.metadata, t), rest)
    ensures BodyAfterTurns(held.body, [t] + rest) == BodyAfterTurns(BodyAfterTurns(held.body, [t]), rest)
  {
    var log := [t] + rest;
    assert log[0] == t && log[1..] == rest && [t][1..] == [];
  }

  function Yielder(parse: Parser): Bytes -> Bytes { (output: Bytes) => Yield(parse, output) }

  /** Both the code and the structured action, where there is one, say to go on. */
  predicate LetsThrough(parse: Parser, output: Bytes, code: Option<int>) {
    code == Some(0) && (output == [] || parse(output).None? || parse(output).value.0 == 0)
  }

  /** Turn `k` of a request pass that starts with middleware `i`. */
  ghost predicate IsRequestTurn(ms: seq<Guarded>, parse: Parser, fuel: nat, sts: seq<HostState>, i: nat,
                                held: Held, context: Context, log: seq<TurnLog>, k: nat)
  {
    && k < |log| && i + k < |ms| && i + k < |sts|
    && IsTurn(log[k], ms[i + k], ms[i + k].middleware.onRequest, fuel, sts[i + k], i + k)
    && Follows(Yielder(parse), held, log, k)
    && log[k].context == ContextAfterTurns(context, log[..k])
    && (log[k].collected <==>
          LetsThrough(parse, LastOutput([], log[k].said), CodeOf(log[k], ms[i + k].middleware.onRequest, fuel, sts[i + k])))
    && (k < |log| - 1 ==> log[k].collected)
  }

  /** What one turn on the request path leaves, from what was said in it. */
  lemma RequestTurnSays(m: Guarded, parse: Parser, fuel: nat, st: HostState, held: Held, context: Context, i: nat)
    ensures var t := RequestTurn(m, parse, fuel, st, held, context);
            var entry := Logged(m, m.middleware.onRequest, i, t.verdict.Continue?, fuel, st, held, context);
            && IsTurn(entry, m, m.middleware.onRequest, fuel, st, i)
            && t.instance.context == ContextAfter(context, entry.said)
            && t.instance.outputBody == LastBodyCall(st.outputBody, entry.said)
            && (entry.collected <==> LetsThrough(parse, LastOutput([], entry.said), CodeOf(entry, m.middleware.onRequest, fuel, st)))
            && (t.verdict.Continue? ==> t.verdict.request == Yield(parse, LastOutput([], entry.said)))
            && (t.verdict.ShortCircuit? ==> t.verdict.response == Yield(parse, LastOutput([], entry.said)))
            && (!t.verdict.Continue? ==>
                  (t.verdict.ShortCircuit? <==>
                    CodeOf(entry, m.middleware.onRequest, fuel, st).Some? && LastOutput([], entry.said) != []))
  {
    var start, s := Ready(m, st, held, context), m.middleware.onRequest(st.memory, held.metadata);
    OutputIsLastCall(start, s, [], fuel);
    ContextIsCalls(start, s, [], fuel);
    OutputBodyIsLastCall(start, s, [], fuel);
    var (after, code) := Exec(start, s, [], fuel);
    if code.Some? { ContinueIff(parse, after.outputBuffer, code.value); }
  }

  lemma TurnCollects(read: Bytes -> Bytes, held: Held, st: HostState, t: TurnLog)
    requires t.collected && st.outputBody == LastBodyCall(t.before, t.said)
    ensures Collected(held, st, read(LastOutput([], t.said)), t.access)
         == Held(HandedOn(read, held.metadata, t), BodyAfterTurns(held.body, [t]))
  {
    assert [t][1..] == [];
  }

  /** In every chain, each turn of the request path goes to the next middleware, with the metadata, the
      context and, with access, the body that the turns before it have made; it ends the pass unless
      it lets the request through. */
  lemma {:induction false} RequestTurns(ms: seq<Guarded>, parse: Parser, fuel: nat, sts: seq<HostState>, i: nat,
                                        held: Held, context: Context, k: nat)
    requires |sts| == |ms| && i <= |ms| && k < |RequestLog(ms, parse, fuel, sts, i, held, context)|
    ensures IsRequestTurn(ms, parse, fuel, sts, i, held, context, RequestLog(ms, parse, fuel, sts, i, held, context), k)
    decreases |ms| - i
  {
    var m, log := ms[i], RequestLog(ms, parse, fuel, sts, i, held, context);
    var t := RequestTurn(m, parse, fuel, sts[i], held, context);
    RequestTurnSays(m, parse, fuel, sts[i], held, context, i);
    var entry := Logged(m, m.middleware.onRequest, i, t.verdict.Continue?, fuel, sts[i], held, context);
    if k == 0 {
      assert log[..0] == [] && log[0] == entry;
    } else {
      TurnCollects(Yielder(parse), held, t.instance, entry);
      var sts', held' := sts[i := AfterCollect(t.instance, m.bodyAccess)], Collected(held, t.instance, t.verdict.request, m.bodyAccess);
      var rest := RequestLog(ms, parse, fuel, sts', i + 1, held', t.instance.context);
      RequestTurns(ms, parse, fuel, sts', i + 1, held', t.instance.context, k - 1);
      RequestTurnLater(ms, parse, fuel, sts, sts', i, held, held', context, entry, rest, k - 1);
    }
  }

  lemma RequestTurnLater(ms: seq<Guarded>, parse: Parser, fuel: nat, sts: seq<HostState>, sts': seq<HostState>, i: nat,
                         held: Held, held': Held, context: Context, entry: TurnLog, rest: seq<TurnLog>, k: nat)
    requires |sts| == |sts'| == |ms| && i < |ms| && sts' == sts[i := sts'[i]] && entry.collected
    requires held' == Held(HandedOn(Yielder(parse), held.metadata, entry), BodyAfterTurns(held.body, [entry]))
    requires IsRequestTurn(ms, parse, fuel, sts', i + 1, held', ContextAfter(context, entry.said), rest, k)
    ensures IsRequestTurn(ms, parse, fuel, sts, i, held, context, [entry] + rest, k + 1)
  {
    var log := [entry] + rest;
    assert log[k + 1] == rest[k] && sts[i + (k + 1)] == sts'[i + 1 + k];
    FollowsCons(Yielder(parse), held, held', entry, rest, k);
    assert log[..k + 1] == [entry] + rest[..k] && log[..k + 1][1..] == rest[..k];
  }

  /** The result of a request pass, told from its turns. */
  ghost predicate ResultIs(p: Passed, ms: seq<Guarded>, parse: Parser, fuel: nat, sts: seq<HostState>, i: nat,
                           held: Held, context: Context, log: seq<TurnLog>)
  {
    if p.Through? then
      && |log| == |ms| - i && (forall k | 0 <= k < |log| :: log[k].collected)
      && p.held == Held(MetadataAfter(Yielder(parse), held.metadata, log), BodyAfterTurns(held.body, log))
      && p.context == ContextAfterTurns(context, log)
    else
      && 0 < |log| && i + |log| <= |ms| && i + |log| <= |sts|
      && var last, j := log[|log| - 1], i + |log| - 1;
      && !last.collected
      && var output, code := LastOutput([], last.said), CodeOf(last, ms[j].middleware.onRequest, fuel, sts[j]);
      && (p.Answered? <==> code.Some? && output != [])
      && (p.Answered? ==>
            && p.index == j && p.response == Yield(parse, output) && p.context == ContextAfterTurns(context, log)
            && p.body == Apply(None, LastBodyCall(last.before, last.said)))
  }

  lemma ResultHere(ms: seq<Guarded>, parse: Parser, fuel: nat, sts: seq<HostState>, i: nat, held: Held, context: Context)
    requires |sts| == |ms| && i < |ms| && !RequestTurn(ms[i], parse, fuel, sts[i], held, context).verdict.Continue?
    ensures ResultIs(GatewayRequest(ms, parse, fuel, sts, i, held, context), ms, parse, fuel, sts, i, held, context,
              RequestLog(ms, parse, fuel, sts, i, held, context))
  {
    var m := ms[i];
    var t := RequestTurn(m, parse, fuel, sts[i], held, context);
    var entry := Logged(m, m.middleware.onRequest, i, false, fuel, sts[i], held, context);
    RequestTurnSays(m, parse, fuel, sts[i], held, context, i);
    assert RequestLog(ms, parse, fuel, sts, i, held, context) == [entry];
    assert [entry][1..] == [];
    assert ContextAfterTurns(context, [entry]) == ContextAfter(context, entry.said);
  }

  lemma ResultLater(p: Passed, ms: seq<Guarded>, parse: Parser, fuel: nat, sts: seq<HostState>, sts': seq<HostState>, i: nat,
                    held: Held, held': Held, context: Context, entry: TurnLog, rest: seq<TurnLog>)
    requires |sts| == |sts'| == |ms| && i < |ms| && sts' == sts[i := sts'[i]] && entry.collected
    requires held' == Held(HandedOn(Yielder(parse), held.metadata, entry), BodyAfterTurns(held.body, [entry]))
    requires ResultIs(p, ms, parse, fuel, sts', i + 1, held', ContextAfter(context, entry.said), rest)
    ensures ResultIs(p, ms, parse, fuel, sts, i, held, context, [entry] + rest)
  {
    var log := [entry] + rest;
    AfterCons(Yielder(parse), held, entry, rest);
    assert log[0] == entry && log[1..] == rest;
    if p.Through? {
      forall k | 0 <= k < |log| ensures log[k].collected { if k > 0 { assert log[k] == rest[k - 1]; } }
    } else {
      assert log[|log| - 1] == rest[|rest| - 1];
    }
  }

  /** What reaches the dispatcher, or answers instead of it, follows from the turns: the data and the
      context that were last handed on, or the data of the plugin that stopped the request. */
  lemma {:induction false} RequestResult(ms: seq<Guarded>, parse: Parser, fuel: nat, sts: seq<HostState>, i: nat,
                                         held: Held, context: Context)
    requires |sts| == |ms| && i <= |ms|
    ensures ResultIs(GatewayRequest(ms, parse, fuel, sts, i, held, context), ms, parse, fuel, sts, i, held, context,
              RequestLog(ms, parse, fuel, sts, i, held, context))
    decreases |ms| - i
  {
    if i < |ms| {
      var m := ms[i];
      var t := RequestTurn(m, parse, fuel, sts[i], held, context);
      if t.verdict.Continue? {
        var entry := Logged(m, m.middleware.onRequest, i, true, fuel, sts[i], held, context);
        RequestTurnSays(m, parse, fuel, sts[i], held, context, i);
        TurnCollects(Yielder(parse), held, t.instance, entry);
        var sts', held' := sts[i := AfterCollect(t.instance, m.bodyAccess)], Collected(held, t.instance, t.verdict.request, m.bodyAccess);
        RequestResult(ms, parse, fuel, sts', i + 1, held', t.instance.context);
        ResultLater(GatewayRequest(ms, parse, fuel, sts', i + 1, held', t.instance.context), ms, parse, fuel, sts, sts', i,
          held, held', context, entry, RequestLog(ms, parse, fuel, sts', i + 1, held', t.instance.context));
      } else {
        ResultHere(ms, parse, fuel, sts, i, held, context);
      }
    }
  }

  /** The instance after a turn of the request path, the body taken from it if the pass collects it. */
  function LeftAfter(st: HostState, t: TurnLog, h: Handler, fuel: nat, taken: bool): HostState {
    var after := Exec(StartOf(st, t), h(st.memory, t.metadata), [], fuel).0;
    after.(outputBuffer := [], outputBody := if taken then None else after.outputBody)
  }

  /** Every instance is left as its own turn leaves it, and the others are untouched. */
  ghost predicate InstancesAre(after: seq<HostState>, ms: seq<Guarded>, fuel: nat, sts: seq<HostState>, i: nat, log: seq<TurnLog>) {
    && |after| == |sts| == |ms| && i + |log| <= |ms|
    && (forall j | 0 <= j < |ms| && !(i <= j < i + |log|) :: after[j] == sts[j])
    && forall k | 0 <= k < |log| ::
         after[i + k] == LeftAfter(sts[i + k], log[k], ms[i + k].middleware.onRequest, fuel, log[k].access || !log[k].collected)
  }

  lemma {:induction false} RequestInstances(ms: seq<Guarded>, parse: Parser, fuel: nat, sts: seq<HostState>, i: nat,
                                            held: Held, context: Context)
    requires |sts| == |ms| && i <= |ms| && !GatewayRequest(ms, parse, fuel, sts, i, held, context).Aborted?
    ensures InstancesAre(GatewayRequest(ms, parse, fuel, sts, i, held, context).instances, ms, fuel, sts, i,
              RequestLog(ms, parse, fuel, sts, i, held, context))
    decreases |ms| - i
  {
    if i < |ms| {
      var m, log := ms[i], RequestLog(ms, parse, fuel, sts, i, held, context);
      var t := RequestTurn(m, parse, fuel, sts[i], held, context);
      if t.verdict.Continue? {
        var sts', held' := sts[i := AfterCollect(t.instance, m.bodyAccess)], Collected(held, t.instance, t.verdict.request, m.bodyAccess);
        RequestInstances(ms, parse, fuel, sts', i + 1, held', t.instance.context);
        InstancesCons(GatewayRequest(ms, parse, fuel, sts', i + 1, held', t.instance.context).instances, ms, fuel, sts, sts', i,
          log[0], RequestLog(ms, parse, fuel, sts', i + 1, held', t.instance.context));
      }
    }
  }

  lemma InstancesCons(after: seq<HostState>, ms: seq<Guarded>, fuel: nat, sts: seq<HostState>, sts': seq<HostState>, i: nat,
                      entry: TurnLog, rest: seq<TurnLog>)
    requires |sts| == |ms| && i < |ms| && InstancesAre(after, ms, fuel, sts', i + 1, rest)
    requires sts' == sts[i := LeftAfter(sts[i], entry, ms[i].middleware.onRequest, fuel, entry.access || !entry.collected)]
    ensures InstancesAre(after, ms, fuel, sts, i, [entry] + rest)
  {
    var log := [entry] + rest;
    forall k | 0 <= k < |log|
      ensures after[i + k] == LeftAfter(sts[i + k], log[k], ms[i + k].middleware.onRequest, fuel, log[k].access || !log[k].collected)
    {
      if k > 0 {
        assert log[k] == rest[k - 1] && sts[i + k] == sts'[i + 1 + (k - 1)];
        assert after[i + 1 + (k - 1)]
            == LeftAfter(sts'[i + 1 + (k - 1)], rest[k - 1], ms[i + 1 + (k - 1)].middleware.onRequest, fuel,
                 rest[k - 1].access || !rest[k - 1].collected);
      }
    }
  }

  /** On the response path an output stands for itself. */
  function Raw(): Bytes -> Bytes { (output: Bytes) => output }

  /** Turn `k` of a response pass through the first `n` middlewares. */
  ghost predicate IsResponseTurn(ms: seq<Guarded>, fuel: nat, sts: seq<HostState>, n: nat, held: Held, context: Context,
                                 log: seq<TurnLog>, k: nat)
  {
    && k < |log| && k < n <= |ms| && n <= |sts|
    && IsTurn(log[k], ms[n - 1 - k], ms[n - 1 - k].middleware.onResponse, fuel, sts[n - 1 - k], n - 1 - k)
    && Follows(Raw(), held, log, k)
    && log[k].context == context
    && (log[k].collected <==> CodeOf(log[k], ms[n - 1 - k].middleware.onResponse, fuel, sts[n - 1 - k]).Some?)
  }

  lemma ResponseTurnSays(m: Guarded, fuel: nat, st: HostState, held: Held, context: Context, i: nat)
    ensures var (after, held') := ResponseTurn(m, fuel, st, held, context);
            var entry := Logged(m, m.middleware.onResponse, i, ResponseReturns(m, fuel, st, held, context), fuel, st, held, context);
            && IsTurn(entry, m, m.middleware.onResponse, fuel, st, i)
            && (entry.collected <==> CodeOf(entry, m.middleware.onResponse, fuel, st).Some?)
            && held' == Held(HandedOn(Raw(), held.metadata, entry), BodyAfterTurns(held.body, [entry]))
  {
    var start, s := Ready(m, st, held, context), m.middleware.onResponse(st.memory, held.metadata);
    var entry := Logged(m, m.middleware.onResponse, i, ResponseReturns(m, fuel, st, held, context), fuel, st, held, context);
    OutputIsLastCall(start, s, [], fuel);
    OutputBodyIsLastCall(start, s, [], fuel);
    var (after, code) := Exec(start, s, [], fuel);
    assert [entry][1..] == [];
    if code.Some? { TurnCollects(Raw(), held, after, entry); }
  }

  /** In every chain, the turns of the response path go to the middlewares in reverse, each with what
      the turns before it made of the response and with the context of the request. */
  lemma {:induction false} ResponseTurns(ms: seq<Guarded>, fuel: nat, sts: seq<HostState>, n: nat, held: Held, context: Context, k: nat)
    requires |sts| == |ms| && n <= |ms| && k < |ResponseLog(ms, fuel, sts, n, held, context)|
    ensures IsResponseTurn(ms, fuel, sts, n, held, context, ResponseLog(ms, fuel, sts, n, held, context), k)
    decreases n
  {
    var m, st, log := ms[n - 1], sts[n - 1], ResponseLog(ms, fuel, sts, n, held, context);
    ResponseTurnSays(m, fuel, st, held, context, n - 1);
    if k == 0 {
      assert log[..0] == [];
    } else {
      var (after, held') := ResponseTurn(m, fuel, st, held, context);
      var sts' := sts[n - 1 := after];
      ResponseTurns(ms, fuel, sts', n - 1, held', context, k - 1);
      ResponseTurnLater(ms, fuel, sts, sts', n, held, held', context, log[0], ResponseLog(ms, fuel, sts', n - 1, held', context), k - 1);
    }
  }

  /** All of them have their turn, and what is delivered is what the turns made of the response. */
  lemma {:induction false} ResponseResult(ms: seq<Guarded>, fuel: nat, sts: seq<HostState>, n: nat, held: Held, context: Context)
    requires |sts| == |ms| && n <= |ms|
    ensures var log := ResponseLog(ms, fuel, sts, n, held, context);
            && |log| == n
            && GatewayResponse(ms, fuel, sts, n, held, context)
               == Held(MetadataAfter(Raw(), held.metadata, log), BodyAfterTurns(held.body, log))
    decreases n
  {
    if n > 0 {
      var log := ResponseLog(ms, fuel, sts, n, held, context);
      var (after, held') := ResponseTurn(ms[n - 1], fuel, sts[n - 1], held, context);
      ResponseTurnSays(ms[n - 1], fuel, sts[n - 1], held, context, n - 1);
      ResponseResult(ms, fuel, sts[n - 1 := after], n - 1, held', context);
      AfterCons(Raw(), held, log[0], ResponseLog(ms, fuel, sts[n - 1 := after], n - 1, held', context));
    }
  }

  lemma ResponseTurnLater(ms: seq<Guarded>, fuel: nat, sts: seq<HostState>, sts': seq<HostState>, n: nat,
                          held: Held, held': Held, context: Context, entry: TurnLog, rest: seq<TurnLog>, k: nat)
    requires |sts| == |sts'| == |ms| && 0 < n <= |ms| && sts' == sts[n - 1 := sts'[n - 1]]
    requires held' == Held(HandedOn(Raw(), held.metadata, entry), BodyAfterTurns(held.body, [entry]))
    requires IsResponseTurn(ms, fuel, sts', n - 1, held', context, rest, k)
    ensures IsResponseTurn(ms, fuel, sts, n, held, context, [entry] + rest, k + 1)
  {
    var log := [entry] + rest;
    assert log[k + 1] == rest[k] && sts[n - 1 - (k + 1)] == sts'[n - 1 - 1 - k];
    FollowsCons(Raw(), held, held', entry, rest, k);
  }

  // ---------- Without body access, the body makes no difference ----------

  function WithBody(p: Passed, body: Option<Bytes>): Passed {
    if p.Through? then p.(held := p.held.(body := body)) else p
  }

  /** In any chain, the turn of a middleware without body access does not depend on the held body,
      and hands it on. */
  lemma TurnIgnoresBody(m: Guarded, parse: Parser, fuel: nat, st: HostState, held: Held, context: Context, other: Option<Bytes>)
    requires !m.bodyAccess
    ensures RequestTurn(m, parse, fuel, st, held.(body := other), context) == RequestTurn(m, parse, fuel, st, held, context)
    ensures var (after, held') := ResponseTurn(m, fuel, st, held, context);
            && held'.body == held.body
            && ResponseTurn(m, fuel, st, held.(body := other), context) == (after, held'.(body := other))
    ensures forall h: Handler :: Said(m, h, fuel, st, held.(body := other), context) == Said(m, h, fuel, st, held, context)
  {
    forall h: Handler ensures Said(m, h, fuel, st, held.(body := other), context) == Said(m, h, fuel, st, held, context) {
      assert Ready(m, st, held.(body := other), context) == Ready(m, st, held, context);
    }
  }

  /** Noninterference: in a chain without body access, two requests that differ only in their body
      are treated alike, and each body comes out as it went in. */
  lemma {:induction false} BodyIsInvisible(ms: seq<Guarded>, parse: Parser, fuel: nat, sts: seq<HostState>, i: nat,
                                           held: Held, context: Context, other: Option<Bytes>)
    requires |sts| == |ms| && i <= |ms| && forall m | m in ms :: !m.bodyAccess
    ensures GatewayRequest(ms, parse, fuel, sts, i, held.(body := other), context)
         == WithBody(GatewayRequest(ms, parse, fuel, sts, i, held, context), other)
    ensures GatewayRequest(ms, parse, fuel, sts, i, held, context).Through? ==>
              GatewayRequest(ms, parse, fuel, sts, i, held, context).held.body == held.body
    decreases |ms| - i
  {
    if i < |ms| {
      var t := RequestTurn(ms[i], parse, fuel, sts[i], held, context);
      assert !ms[i].bodyAccess;
      TurnIgnoresBody(ms[i], parse, fuel, sts[i], held, context, other);
      if t.verdict.Continue? {
        var sts' := sts[i := AfterCollect(t.instance, false)];
        BodyIsInvisible(ms, parse, fuel, sts', i + 1, Collected(held, t.instance, t.verdict.request, false), t.instance.context, other);
      }
    }
  }

  /** The same on the response path. */
  lemma {:induction false} ResponseBodyIsInvisible(ms: seq<Guarded>, parse: Parser, fuel: nat, sts: seq<HostState>, n: nat,
                                                   held: Held, context: Context, other: Option<Bytes>)
    requires |sts| == |ms| && n <= |ms| && forall m | m in ms :: !m.bodyAccess
    ensures var out := GatewayResponse(ms, fuel, sts, n, held, context);
            && out.body == held.body
            && GatewayResponse(ms, fuel, sts, n, held.(body := other), context) == out.(body := other)
    decreases n
  {
    if n > 0 {
      assert !ms[n - 1].bodyAccess;
      TurnIgnoresBody(ms[n - 1], parse, fuel, sts[n - 1], held, context, other);
      var (after, held') := ResponseTurn(ms[n - 1], fuel, sts[n - 1], held, context);
      ResponseBodyIsInvisible(ms, parse, fuel, sts[n - 1 := after], n - 1, held', context, other);
    }
  }

  /** A middleware without access is never told about a body while it runs, in either direction. */
  lemma NoAccessSeesNothing(m: Guarded, h: Handler, fuel: nat, st: HostState, held: Held, context: Context)
    requires !m.bodyAccess
    ensures forall x | x in Said(m, h, fuel, st, held, context) :: NoBodySeen(x)
  {
    SeesNoBody(Ready(m, st, held, context), h(st.memory, held.metadata), [], fuel);
  }

  ghost predicate Blind(t: TurnLog) { t.access || forall x | x in t.said :: NoBodySeen(x) }

  /** In every chain, with any mix of access flags, every turn of every pass. */
  lemma {:induction false} RequestIsBlind(ms: seq<Guarded>, parse: Parser, fuel: nat, sts: seq<HostState>, i: nat,
                                          held: Held, context: Context)
    requires |sts| == |ms| && i <= |ms|
    ensures forall t | t in RequestLog(ms, parse, fuel, sts, i, held, context) :: Blind(t)
    decreases |ms| - i
  {
    if i < |ms| {
      var m := ms[i];
      var t := RequestTurn(m, parse, fuel, sts[i], held, context);
      if !m.bodyAccess { NoAccessSeesNothing(m, m.middleware.onRequest, fuel, sts[i], held, context); }
      if t.verdict.Continue? {
        RequestIsBlind(ms, parse, fuel, sts[i := AfterCollect(t.instance, m.bodyAccess)], i + 1,
          Collected(held, t.instance, t.verdict.request, m.bodyAccess), t.instance.context);
      }
    }
  }

  lemma {:induction false} ResponseIsBlind(ms: seq<Guarded>, fuel: nat, sts: seq<HostState>, n: nat, held: Held, context: Context)
    requires |sts| == |ms| && n <= |ms|
    ensures forall t | t in ResponseLog(ms, fuel, sts, n, held, context) :: Blind(t)
    decreases n
  {
    if n > 0 {
      var m := ms[n - 1];
      var (after, held') := ResponseTurn(m, fuel, sts[n - 1], held, context);
      if !m.bodyAccess { NoAccessSeesNothing(m, m.middleware.onResponse, fuel, sts[n - 1], held, context); }
      ResponseIsBlind(ms, fuel, sts[n - 1 := after], n - 1, held', context);
    }
  }

  // ---------- The way back from a short circuit ----------

  /** The turns on the way back; no body is prepared for them and none is taken up. */
  function PartialLog(ms: seq<Guarded>, fuel: nat, sts: seq<HostState>, n: nat, response: Bytes, context: Context): seq<TurnLog>
    requires |sts| == |ms| && n <= |ms|
    decreases n
  {
    if n == 0 then []
    else
      var m, st := ms[n - 1], sts[n - 1];
      var (after, code) := CallHandler(st.(context := context), m.middleware.onResponse, response, fuel);
      var (st', response') := AfterResponse(after, code, response);
      [TurnLog(n - 1, m.bodyAccess, code.Some?, response, context, st.requestBody, st.outputBody,
         Transcript(st.(context := context, outputBuffer := []), m.middleware.onResponse(st.memory, response), [], fuel))]
      + PartialLog(ms, fuel, sts[n - 1 := st'], n - 1, response', context)
  }

  /** What is left of the given body after a turn: nothing, once it was read. */
  ghost function Unread(t: TurnLog): Option<Bytes> {
    if exists x | x in t.said :: x.call.BodyRead? then None else t.given
  }

  /** A plugin that asks for the length first is told that of the body given to it. */
  predicate ToldGiven(t: TurnLog) {
    t.said != [] && t.said[0].call.BodyLen? ==> t.said[0].reply == Length(if t.given.Some? then |t.given.value| else -1)
  }

  /** The turn of middleware `j`, which finds the instance as it stands. */
  predicate FindsLeft(t: TurnLog, ms: seq<Guarded>, sts: seq<HostState>, j: int) {
    && 0 <= j < |ms| && j < |sts| && t.index == j && t.access == ms[j].bodyAccess
    && t.given == sts[j].requestBody && ToldGiven(t)
  }

  /** Every plugin on the way back starts with what it was left with. */
  lemma {:induction false} PartialFindsLeft(ms: seq<Guarded>, fuel: nat, sts: seq<HostState>, n: nat, response: Bytes, context: Context)
    requires |sts| == |ms| && n <= |ms|
    ensures var log := PartialLog(ms, fuel, sts, n, response, context);
            |log| == n && forall k | 0 <= k < n :: FindsLeft(log[k], ms, sts, n - 1 - k)
    decreases n
  {
    if n > 0 {
      var (after, code) := CallHandler(sts[n - 1].(context := context), ms[n - 1].middleware.onResponse, response, fuel);
      var (st', response') := AfterResponse(after, code, response);
      var sts' := sts[n - 1 := st'];
      var log, rest := PartialLog(ms, fuel, sts, n, response, context), PartialLog(ms, fuel, sts', n - 1, response', context);
      PartialFindsLeft(ms, fuel, sts', n - 1, response', context);
      forall k | 1 <= k < n ensures FindsLeft(log[k], ms, sts, n - 1 - k) {
        assert log[k] == rest[k - 1] && FindsLeft(rest[k - 1], ms, sts', n - 1 - k);
      }
    }
  }

  lemma {:induction false} PartialIsBlind(ms: seq<Guarded>, fuel: nat, sts: seq<HostState>, n: nat, response: Bytes, context: Context)
    requires |sts| == |ms| && n <= |ms| && forall j | 0 <= j < n && !ms[j].bodyAccess :: sts[j].requestBody == None
    ensures forall t | t in PartialLog(ms, fuel, sts, n, response, context) :: Blind(t)
    decreases n
  {
    if n > 0 {
      var m, st := ms[n - 1], sts[n - 1];
      var (after, code) := CallHandler(st.(context := context), m.middleware.onResponse, response, fuel);
      var (st', response') := AfterResponse(after, code, response);
      if !m.bodyAccess {
        SeesNoBody(st.(context := context, outputBuffer := []), m.middleware.onResponse(st.memory, response), [], fuel);
      }
      PartialIsBlind(ms, fuel, sts[n - 1 := st'], n - 1, response', context);
    }
  }

  /** The instance after a turn holds what the plugin did not read, and nothing without access. */
  ghost predicate Leaves(t: TurnLog, m: Guarded, st: HostState) {
    t.access == m.bodyAccess && st.requestBody == Unread(t) && (!m.bodyAccess ==> t.given == None)
  }

  /** Up to a short circuit, every instance holds what its plugin was given and did not read. */
  lemma AnsweredLeaves(ms: seq<Guarded>, parse: Parser, fuel: nat, sts: seq<HostState>, held: Held, context: Context, j: nat)
    requires |sts| == |ms| && GatewayRequest(ms, parse, fuel, sts, 0, held, context).Answered?
    requires j < GatewayRequest(ms, parse, fuel, sts, 0, held, context).index
    ensures var p := GatewayRequest(ms, parse, fuel, sts, 0, held, context);
            var log := RequestLog(ms, parse, fuel, sts, 0, held, context);
            |log| == p.index + 1 && Leaves(log[j], ms[j], p.instances[j])
  {
    var p := GatewayRequest(ms, parse, fuel, sts, 0, held, context);
    var log := RequestLog(ms, parse, fuel, sts, 0, held, context);
    RequestResult(ms, parse, fuel, sts, 0, held, context);
    RequestInstances(ms, parse, fuel, sts, 0, held, context);
    RequestTurns(ms, parse, fuel, sts, 0, held, context, j);
    assert p.instances[0 + j] == LeftAfter(sts[0 + j], log[j], ms[0 + j].middleware.onRequest, fuel, log[j].access || !log[j].collected);
    UnreadStays(StartOf(sts[j], log[j]), ms[j].middleware.onRequest(sts[j].memory, log[j].metadata), [], fuel);
  }

  /** Turn `k` on the way back belongs to the plugin that far before the short circuit, and starts with
      exactly the request body it was given and has not read. */
  ghost predicate ComesBack(back: seq<TurnLog>, log: seq<TurnLog>, k: nat)
    requires k < |back| <= |log|
  {
    var j := |back| - 1 - k;
    back[k].index == j && back[k].given == Unread(log[j]) && ToldGiven(back[k]) && Blind(back[k])
  }

  lemma TurnsComeBack(ms: seq<Guarded>, fuel: nat, sts: seq<HostState>, n: nat, response: Bytes, context: Context, log: seq<TurnLog>)
    requires |sts| == |ms| && n <= |ms| && n <= |log| && forall j | 0 <= j < n :: Leaves(log[j], ms[j], sts[j])
    ensures var back := PartialLog(ms, fuel, sts, n, response, context);
            |back| == n && forall k | 0 <= k < n :: ComesBack(back, log, k)
  {
    var back := PartialLog(ms, fuel, sts, n, response, context);
    PartialFindsLeft(ms, fuel, sts, n, response, context);
    forall j | 0 <= j < n && !ms[j].bodyAccess ensures sts[j].requestBody == None {
      assert Leaves(log[j], ms[j], sts[j]);
    }
    PartialIsBlind(ms, fuel, sts, n, response, context);
    forall k | 0 <= k < n ensures ComesBack(back, log, k) {
      var j := n - 1 - k;
      assert FindsLeft(back[k], ms, sts, j) && Leaves(log[j], ms[j], sts[j]) && back[k] in back;
    }
  }

  /** After a short circuit, in every chain: the plugins before it have their turns in reverse order,
      each starts with exactly the request body it was given and has not read, and one without access
      is told of no body here either. */
  lemma ShortCircuitTurns(ms: seq<Guarded>, parse: Parser, fuel: nat, sts: seq<HostState>, held: Held, context: Context)
    requires |sts| == |ms| && GatewayRequest(ms, parse, fuel, sts, 0, held, context).Answered?
    ensures var p := GatewayRequest(ms, parse, fuel, sts, 0, held, context);
            var log := RequestLog(ms, parse, fuel, sts, 0, held, context);
            var back := PartialLog(ms, fuel, p.instances, p.index, p.response, p.context);
            |log| == p.index + 1 && |back| == p.index && forall k | 0 <= k < |back| :: ComesBack(back, log, k)
  {
    var p := GatewayRequest(ms, parse, fuel, sts, 0, held, context);
    var log := RequestLog(ms, parse, fuel, sts, 0, held, context);
    RequestResult(ms, parse, fuel, sts, 0, held, context);
    forall j | 0 <= j < p.index ensures Leaves(log[j], ms[j], p.instances[j]) {
      AnsweredLeaves(ms, parse, fuel, sts, held, context, j);
    }
    TurnsComeBack(ms, fuel, p.instances, p.index, p.response, p.context, log);
  }

  /** Turn `k` on the way back through the first `n` middlewares. */
  ghost predicate IsPartialTurn(ms: seq<Guarded>, fuel: nat, sts: seq<HostState>, n: nat, response: Bytes, context: Context,
                                back: seq<TurnLog>, k: nat)
  {
    && k < |back| && k < n <= |ms| && n <= |sts|
    && IsTurn(back[k], ms[n - 1 - k], ms[n - 1 - k].middleware.onResponse, fuel, sts[n - 1 - k], n - 1 - k)
    && back[k].metadata == MetadataAfter(Raw(), response, back[..k])
    && back[k].context == context && back[k].given == sts[n - 1 - k].requestBody
    && (back[k].collected <==> CodeOf(back[k], ms[n - 1 - k].middleware.onResponse, fuel, sts[n - 1 - k]).Some?)
  }

  lemma PartialTurnSays(m: Guarded, fuel: nat, st: HostState, response: Bytes, context: Context, entry: TurnLog)
    requires entry.said
          == Transcript(st.(context := context, outputBuffer := []), m.middleware.onResponse(st.memory, response), [], fuel)
    requires entry.collected == CallHandler(st.(context := context), m.middleware.onResponse, response, fuel).1.Some?
    ensures var (after, code) := CallHandler(st.(context := context), m.middleware.onResponse, response, fuel);
            AfterResponse(after, code, response).1 == HandedOn(Raw(), response, entry)
  {
    OutputIsLastCall(st.(context := context, outputBuffer := []), m.middleware.onResponse(st.memory, response), [], fuel);
  }

  /** On the way back, each plugin is given what the ones before it made of the answer, with the
      context of the plugin that stopped the request. */
  lemma {:induction false} PartialTurns(ms: seq<Guarded>, fuel: nat, sts: seq<HostState>, n: nat, response: Bytes, context: Context, k: nat)
    requires |sts| == |ms| && n <= |ms| && k < |PartialLog(ms, fuel, sts, n, response, context)|
    ensures IsPartialTurn(ms, fuel, sts, n, response, context, PartialLog(ms, fuel, sts, n, response, context), k)
    decreases n
  {
    var m, st, back := ms[n - 1], sts[n - 1], PartialLog(ms, fuel, sts, n, response, context);
    if k == 0 {
      assert back[..0] == [];
    } else {
      var (after, code) := CallHandler(st.(context := context), m.middleware.onResponse, response, fuel);
      var (st', response') := AfterResponse(after, code, response);
      var sts' := sts[n - 1 := st'];
      PartialTurnSays(m, fuel, st, response, context, back[0]);
      PartialTurns(ms, fuel, sts', n - 1, response', context, k - 1);
      PartialTurnLater(ms, fuel, sts, sts', n, response, response', context, back[0],
        PartialLog(ms, fuel, sts', n - 1, response', context), k - 1);
    }
  }

  /** And what is delivered is what the turns made of the answer. */
  lemma {:induction false} PartialResult(ms: seq<Guarded>, fuel: nat, sts: seq<HostState>, n: nat, response: Bytes, context: Context)
    requires |sts| == |ms| && n <= |ms|
    ensures var back := PartialLog(ms, fuel, sts, n, response, context);
            |back| == n && ResponseFrom(Middlewares(ms), fuel, sts, n, response, context).response == MetadataAfter(Raw(), response, back)
    decreases n
  {
    if n > 0 {
      var m, st, back := ms[n - 1], sts[n - 1], PartialLog(ms, fuel, sts, n, response, context);
      var (after, code) := CallHandler(st.(context := context), m.middleware.onResponse, response, fuel);
      var (st', response') := AfterResponse(after, code, response);
      var rest := PartialLog(ms, fuel, sts[n - 1 := st'], n - 1, response', context);
      PartialTurnSays(m, fuel, st, response, context, back[0]);
      PartialResult(ms, fuel, sts[n - 1 := st'], n - 1, response', context);
      assert back[1..] == rest;
    }
  }

  lemma PartialTurnLater(ms: seq<Guarded>, fuel: nat, sts: seq<HostState>, sts': seq<HostState>, n: nat, response: Bytes,
                         response': Bytes, context: Context, entry: TurnLog, rest: seq<TurnLog>, k: nat)
    requires |sts| == |sts'| == |ms| && 0 < n <= |ms| && sts' == sts[n - 1 := sts'[n - 1]]
    requires response' == HandedOn(Raw(), response, entry)
    requires IsPartialTurn(ms, fuel, sts', n - 1, response', context, rest, k)
    ensures IsPartialTurn(ms, fuel, sts, n, response, context, [entry] + rest, k + 1)
  {
    var back := [entry] + rest;
    assert back[k + 1] == rest[k] && sts[n - 1 - (k + 1)] == sts'[n - 1 - 1 - k];
    assert back[..k + 1] == [entry] + rest[..k] && back[..k + 1][1..] == rest[..k];
  }

  ghost predicate SameOnRequest(a: Guarded, b: Guarded) {
    a.bodyAccess == b.bodyAccess && a.middleware.onRequest == b.middleware.onRequest
  }

  lemma {:induction false} RequestIgnoresResponders(ms: seq<Guarded>, ns: seq<Guarded>, parse: Parser, fuel: nat,
                                                    sts: seq<HostState>, i: nat, held: Held, context: Context)
    requires |sts| == |ms| == |ns| && i <= |ms| && forall j | 0 <= j < |ms| :: SameOnRequest(ms[j], ns[j])
    ensures GatewayRequest(ms, parse, fuel, sts, i, held, context) == GatewayRequest(ns, parse, fuel, sts, i, held, context)
    decreases |ms| - i
  {
    if i < |ms| {
      assert SameOnRequest(ms[i], ns[i]);
      var t := RequestTurn(ms[i], parse, fuel, sts[i], held, context);
      if t.verdict.Continue? {
        RequestIgnoresResponders(ms, ns, parse, fuel, sts[i := AfterCollect(t.instance, ms[i].bodyAccess)], i + 1,
          Collected(held, t.instance, t.verdict.request, ms[i].bodyAccess), t.instance.context);
      }
    }
  }

  /** What the gateway makes of a request, told from the turns on the way in and, after an answer, on
      the way back: the forwarded metadata, body and context, or the answer as the earlier plugins
      leave it, with the body that the answering plugin last said. */
  lemma OutcomeFromTurns(ms: seq<Guarded>, parse: Parser, fuel: nat, sts: seq<HostState>, held: Held, context: Context)
    requires |sts| == |ms|
    ensures var log := RequestLog(ms, parse, fuel, sts, 0, held, context);
            var p := GatewayRequest(ms, parse, fuel, sts, 0, held, context);
            match RequestOutcome(ms, parse, fuel, sts, held, context)
            case Forwarded(held', context', instances) =>
              && |log| == |ms| && (forall k | 0 <= k < |log| :: log[k].collected) && p.Through? && instances == p.instances
              && held' == Held(MetadataAfter(Yielder(parse), held.metadata, log), BodyAfterTurns(held.body, log))
              && context' == ContextAfterTurns(context, log)
            case Delivered(response, body, instances) =>
              && 0 < |log| <= |ms| && p.Answered? && p.context == ContextAfterTurns(context, log)
              && var last := log[|log| - 1];
              && var back := PartialLog(ms, fuel, p.instances, |log| - 1, p.response, p.context);
              && p.response == Yield(parse, LastOutput([], last.said))
              && response == MetadataAfter(Raw(), p.response, back)
              && body == Apply(None, LastBodyCall(last.before, last.said))
            case Rejected => p.Aborted?
  {
    RequestResult(ms, parse, fuel, sts, 0, held, context);
    var p := GatewayRequest(ms, parse, fuel, sts, 0, held, context);
    if p.Answered? { PartialResult(ms, fuel, p.instances, p.index, p.response, p.context); }
  }

  /** In particular the delivered body does not depend on what plugins do on the way back. */
  lemma DeliveredBody(ms: seq<Guarded>, ns: seq<Guarded>, parse: Parser, fuel: nat, sts: seq<HostState>, held: Held, context: Context)
    requires |sts| == |ms| == |ns| && forall j | 0 <= j < |ms| :: SameOnRequest(ms[j], ns[j])
    requires RequestOutcome(ms, parse, fuel, sts, held, context).Delivered?
    ensures var outcome, other := RequestOutcome(ms, parse, fuel, sts, held, context), RequestOutcome(ns, parse, fuel, sts, held, context);
            other.Delivered? && other.body == outcome.body
  {
    RequestIgnoresResponders(ms, ns, parse, fuel, sts, 0, held, context);
  }

  // ---------- The plugin's side: the generated glue ----------

  /** What a plugin's typed handler decides: return code, serialised output and body. */
  datatype Reaction = Reaction(code: int, data: Bytes, body: Option<Bytes>)

  /** A typed handler talks to the host as it likes before it decides; it keeps state in memory. */
  datatype Step = Ask(call: HostCall) | Finish(reaction: Reaction, memory: nat) | Panic(memory: nat)

  type Talk = seq<Reply> -> Step

  type TypedHandler = (nat, Bytes, Option<Bytes>) -> Talk

  /** `read_request_body`: ask for the length; read only if it is positive. */
  function ReadsNeeded(told: seq<Reply>): nat
    requires told != []
  { if told[0].Length? && told[0].n > 0 then 2 else 1 }

  function BodyRead(told: seq<Reply>): Option<Bytes>
    requires told != [] && |told| >= ReadsNeeded(told)
  {
    if !told[0].Length? || told[0].n < 0 then None
    else if told[0].n == 0 then Some([])
    else if told[1].Data? then Some(told[1].bytes) else Some([])
  }

  /** The handler's own talk, and then: set or clear the output body, set the output, return. */
  function TalkAction(talk: Talk, told: seq<Reply>, n: nat): Action
    requires n <= |told|
    decreases |told| - n
  {
    match talk(told[..n])
    case Ask(call) => if n == |told| then Do(call) else TalkAction(talk, told, n + 1)
    case Panic(memory) => Trap(memory)
    case Finish(r, memory) =>
      if |told| == n then Do(if r.body.Some? then BodySet(r.body.value) else BodyClear)
      else if |told| == n + 1 then Do(SetOutput(r.data))
      else Return(r.code, memory)
  }

  /** The glue's host calls in order: read the body, run the handler, hand over what it decides. */
  function GlueAction(handle: TypedHandler, memory: nat, metadata: Bytes, told: seq<Reply>): Action {
    if told == [] then Do(BodyLen)
    else if |told| < ReadsNeeded(told) then Do(HostCall.BodyRead(told[0].n))
    else TalkAction(handle(memory, metadata, BodyRead(told)), told[ReadsNeeded(told)..], 0)
  }

  /** A metadata document that does not parse makes the glue return 1 without calling the handler. */
  function Glue(handle: TypedHandler, parses: Bytes -> bool): Handler {
    (memory: nat, metadata: Bytes) =>
      (told: seq<Reply>) =>
        if parses(metadata) then GlueAction(handle, memory, metadata, told) else Return(1, memory)
  }

  function AfterRead(body: Option<Bytes>): Option<Bytes> { if body == Some([]) then body else None }

  /** A handler on its own: where it leaves the host, its decision, and the fuel it leaves. */
  datatype Talked = Talked(instance: HostState, decision: Option<(Reaction, nat)>, fuel: nat)

  function RunTalk(st: HostState, talk: Talk, told: seq<Reply>, fuel: nat): Talked
    decreases fuel
  {
    if fuel == 0 then Talked(st, None, 0)
    else
      match talk(told)
      case Finish(r, memory) => Talked(st, Some((r, memory)), fuel)
      case Panic(memory) => Talked(st.(memory := memory), None, fuel)
      case Ask(call) =>
        var (st', reply) := Host(st, call);
        RunTalk(st', talk, told + [reply], fuel - 1)
  }

  /** The handler has asked for every reply so far. */
  ghost predicate Talking(talk: Talk, told: seq<Reply>, n: nat) {
    n <= |told| && forall k | 0 <= k < n :: talk(told[..k]).Ask?
  }

  lemma {:induction false} TalkSkips(talk: Talk, told: seq<Reply>, n: nat, k: nat)
    requires n <= k && Talking(talk, told, k)
    ensures TalkAction(talk, told, n) == TalkAction(talk, told, k)
    decreases k - n
  {
    if n < k {
      assert talk(told[..n]).Ask?;
      TalkSkips(talk, told, n + 1, k);
    }
  }

  lemma TalkingSnoc(talk: Talk, told: seq<Reply>, reply: Reply)
    requires Talking(talk, told, |told|)
    ensures Talking(talk, told + [reply], |told|)
    ensures talk(told).Ask? ==> Talking(talk, told + [reply], |told| + 1)
  {
    var more := told + [reply];
    forall k | 0 <= k < |told| ensures more[..k] == told[..k] {}
    assert more[..|told|] == told;
  }

  /** Behind the replies in `base`, the strategy is the handler and the glue's last steps. */
  ghost predicate Continues(s: Strategy, talk: Talk, base: seq<Reply>) {
    forall told :: s(base + told) == TalkAction(talk, told, 0)
  }

  lemma {:induction false} GlueRuns(s: Strategy, talk: Talk, base: seq<Reply>, told: seq<Reply>, st: HostState, fuel: nat)
    requires Continues(s, talk, base) && Talking(talk, told, |told|)
    ensures var run := RunTalk(st, talk, told, fuel);
            match run.decision {
              case Some((r, memory)) =>
                if run.fuel >= 3 then
                  Exec(st, s, base + told, fuel)
                  == (run.instance.(memory := memory, outputBody := Some(r.body), outputBuffer := r.data), Some(r.code))
                else Exec(st, s, base + told, fuel).1 == None
              case None => Exec(st, s, base + told, fuel) == (run.instance, None)
            }
    decreases fuel
  {
    if fuel > 0 {
      assert told[..|told|] == told;
      TalkSkips(talk, told, 0, |told|);
      assert s(base + told) == TalkAction(talk, told, |told|);
      match talk(told)
      case Panic(_) =>
      case Finish(r, memory) => GlueFinishes(s, talk, base, told, st, fuel);
      case Ask(call) =>
        var (st', reply) := Host(st, call);
        TalkingSnoc(talk, told, reply);
        Assoc(base, told, [reply]);
        GlueRuns(s, talk, base, told + [reply], st', fuel - 1);
    }
  }

  /** The last three steps, once the handler has decided. */
  lemma GlueFinishes(s: Strategy, talk: Talk, base: seq<Reply>, told: seq<Reply>, st: HostState, fuel: nat)
    requires Continues(s, talk, base) && Talking(talk, told, |told|) && talk(told).Finish?
    ensures var (r, memory) := (talk(told).reaction, talk(told).memory);
            if fuel >= 3 then
              Exec(st, s, base + told, fuel) == (st.(memory := memory, outputBody := Some(r.body), outputBuffer := r.data), Some(r.code))
            else Exec(st, s, base + told, fuel).1 == None
  {
    var (r, memory) := (talk(told).reaction, talk(told).memory);
    var told1 := told + [Done];
    var told2 := told1 + [Done];
    FinishAction(s, talk, base, told, told);
    FinishAction(s, talk, base, told, told1);
    FinishAction(s, talk, base, told, told2);
    Assoc(base, told, [Done]);
    Assoc(base, told1, [Done]);
    var st1 := st.(outputBody := Some(r.body));
    var st2 := st1.(outputBuffer := r.data);
    if fuel >= 3 {
      assert Exec(st2, s, base + told2, fuel - 2) == (st2.(memory := memory), Some(r.code));
      assert Exec(st1, s, base + told1, fuel - 1) == Exec(st2, s, base + told2, fuel - 2);
    } else if fuel == 2 {
      assert Exec(st1, s, base + told1, 1) == Exec(st2, s, base + told2, 0);
    }
  }

  lemma FinishAction(s: Strategy, talk: Talk, base: seq<Reply>, told: seq<Reply>, more: seq<Reply>)
    requires Continues(s, talk, base) && Talking(talk, told, |told|) && talk(told).Finish? && told <= more
    ensures var r := talk(told).reaction;
            s(base + more) ==
              if |more| == |told| then Do(if r.body.Some? then BodySet(r.body.value) else BodyClear)
              else if |more| == |told| + 1 then Do(SetOutput(r.data))
              else Return(r.code, talk(told).memory)
  {
    forall k | 0 <= k <= |told| ensures more[..k] == told[..k] {}
    assert more[..|told|] == told && told[..|told|] == told;
    forall k | 0 <= k < |told| ensures talk(more[..k]).Ask? { assert talk(told[..k]).Ask?; }
    TalkSkips(talk, more, 0, |told|);
  }

  /** After reading, the glue is the handler followed by the last steps. */
  lemma GlueContinues(handle: TypedHandler, parses: Bytes -> bool, memory: nat, metadata: Bytes, base: seq<Reply>)
    requires parses(metadata) && base != [] && |base| == ReadsNeeded(base)
    ensures Continues(Glue(handle, parses)(memory, metadata), handle(memory, metadata, BodyRead(base)), base)
  {
    var s, talk := Glue(handle, parses)(memory, metadata), handle(memory, metadata, BodyRead(base));
    forall told: seq<Reply> ensures s(base + told) == TalkAction(talk, told, 0) {
      var all := base + told;
      assert all[0] == base[0] && all[|base|..] == told && BodyRead(all) == BodyRead(base);
      assert s(all) == GlueAction(handle, memory, metadata, all);
    }
  }

  /** What reading costs: one host call, or two. */
  function Reads(body: Option<Bytes>): nat { if body.Some? && body.value != [] then 2 else 1 }

  /** Reading takes the body, and everything after it is the handler and the last steps. */
  lemma GlueReads(handle: TypedHandler, parses: Bytes -> bool, st: HostState, metadata: Bytes, fuel: nat) returns (base: seq<Reply>)
    requires parses(metadata) && fuel >= Reads(st.requestBody)
    ensures var s := Glue(handle, parses)(st.memory, metadata);
            && CallHandler(st, Glue(handle, parses), metadata, fuel)
               == Exec(st.(outputBuffer := [], requestBody := AfterRead(st.requestBody)), s, base, fuel - Reads(st.requestBody))
            && Continues(s, handle(st.memory, metadata, st.requestBody), base)
  {
    var s := Glue(handle, parses)(st.memory, metadata);
    var st0 := st.(outputBuffer := []);
    assert s([]) == GlueAction(handle, st.memory, metadata, []) == Do(BodyLen);
    var (_, len) := Host(st0, BodyLen);
    base := [len];
    assert Exec(st0, s, [], fuel) == Exec(st0, s, base, fuel - 1) by { assert [] + [len] == base; }
    if st.requestBody.Some? && st.requestBody.value != [] {
      var body := st.requestBody.value;
      assert s(base) == GlueAction(handle, st.memory, metadata, base) == Do(HostCall.BodyRead(|body|));
      assert Host(st0, HostCall.BodyRead(|body|)) == (st0.(requestBody := None), Data(body));
      base := base + [Data(body)];
      assert BodyRead(base) == Some(body);
    }
    GlueContinues(handle, parses, st.memory, metadata, base);
  }

  /** The glue hands the typed handler exactly the body held for it, whatever state the handler keeps
      and whatever it asks the host; and if the handler decides, the glue leaves exactly its body and
      output for the host to collect. */
  lemma GlueProtocol(handle: TypedHandler, parses: Bytes -> bool, st: HostState, metadata: Bytes, fuel: nat)
    requires parses(metadata) && fuel >= Reads(st.requestBody)
    ensures var run := RunTalk(st.(outputBuffer := [], requestBody := AfterRead(st.requestBody)),
                         handle(st.memory, metadata, st.requestBody), [], fuel - Reads(st.requestBody));
            match run.decision {
              case Some((r, memory)) =>
                if run.fuel >= 3 then
                  CallHandler(st, Glue(handle, parses), metadata, fuel)
                  == (run.instance.(memory := memory, outputBody := Some(r.body), outputBuffer := r.data), Some(r.code))
                else CallHandler(st, Glue(handle, parses), metadata, fuel).1 == None
              case None => CallHandler(st, Glue(handle, parses), metadata, fuel) == (run.instance, None)
            }
  {
    var base := GlueReads(handle, parses, st, metadata, fuel);
    assert base + [] == base;
    GlueRuns(Glue(handle, parses)(st.memory, metadata), handle(st.memory, metadata, st.requestBody), base, [],
      st.(outputBuffer := [], requestBody := AfterRead(st.requestBody)), fuel - Reads(st.requestBody));
  }

  // ---------- Plugins that leave the body alone ----------

  /** Whatever it has been told, the handler decides for the body it is given. */
  ghost predicate KeepsBody(handle: TypedHandler) {
    forall memory, metadata, body, told ::
      handle(memory, metadata, body)(told).Finish? ==> handle(memory, metadata, body)(told).reaction.body == body
  }

  ghost predicate IsGlued(h: Handler, handle: TypedHandler, parses: Bytes -> bool) {
    h == Glue(handle, parses)
  }

  /** Generated from some handler that keeps the body. */
  ghost predicate GluedKeeper(h: Handler) {
    exists handle, parses :: IsGlued(h, handle, parses) && KeepsBody(handle)
  }

  lemma {:induction false} DecisionIsFinish(st: HostState, talk: Talk, told: seq<Reply>, fuel: nat) returns (all: seq<Reply>)
    requires RunTalk(st, talk, told, fuel).decision.Some?
    ensures talk(all).Finish? && RunTalk(st, talk, told, fuel).decision == Some((talk(all).reaction, talk(all).memory))
    decreases fuel
  {
    all := told;
    if talk(told).Ask? {
      var (st', reply) := Host(st, talk(told).call);
      all := DecisionIsFinish(st', talk, told + [reply], fuel - 1);
    }
  }

  /** Whatever its fuel, a glued keeper that returns leaves the body it was given for collection, or
      did not parse its input and then said nothing. */
  lemma KeeperReturns(handle: TypedHandler, parses: Bytes -> bool, st: HostState, metadata: Bytes, fuel: nat)
    requires KeepsBody(handle) && CallHandler(st, Glue(handle, parses), metadata, fuel).1.Some?
    ensures var (after, code) := CallHandler(st, Glue(handle, parses), metadata, fuel);
            if parses(metadata) then after.outputBody == Some(st.requestBody)
            else code == Some(1) && after.outputBody == st.outputBody && after.outputBuffer == []
  {
    var h, cost := Glue(handle, parses), Reads(st.requestBody);
    if parses(metadata) {
      var talk := handle(st.memory, metadata, st.requestBody);
      MoreFuel(st.(outputBuffer := []), h(st.memory, metadata), [], fuel, 2);
      GlueProtocol(handle, parses, st, metadata, fuel + 2);
      var st0 := st.(outputBuffer := [], requestBody := AfterRead(st.requestBody));
      var all := DecisionIsFinish(st0, talk, [], fuel + 2 - cost);
      assert talk(all).reaction.body == st.requestBody;
    } else {
      assert h(st.memory, metadata)([]) == Return(1, st.memory);
    }
  }

  /** A request turn of such a plugin that lets the request continue keeps the body, with access and
      without, although the glue of a plugin that saw no body calls `host_body_clear`. */
  lemma IdentityTurn(m: Guarded, parse: Parser, fuel: nat, st: HostState, held: Held, context: Context)
    requires GluedKeeper(m.middleware.onRequest)
    ensures var t := RequestTurn(m, parse, fuel, st, held, context);
            t.verdict.Continue? ==> Collected(held, t.instance, t.verdict.request, m.bodyAccess).body == held.body
  {
    var handle, parses :| IsGlued(m.middleware.onRequest, handle, parses) && KeepsBody(handle);
    var ready := Prepared(st, held, m.bodyAccess).(context := context);
    if CallHandler(ready, m.middleware.onRequest, held.metadata, fuel).1.Some? {
      KeeperReturns(handle, parses, ready, held.metadata, fuel);
    }
  }

  ghost predicate RequestKeeps(m: Guarded, parse: Parser, fuel: nat, st: HostState, held: Held, context: Context) {
    var t := RequestTurn(m, parse, fuel, st, held, context);
    t.verdict.Continue? ==> Collected(held, t.instance, t.verdict.request, m.bodyAccess).body == held.body
  }

  lemma {:induction false} KeepersKeep(ms: seq<Guarded>, parse: Parser, fuel: nat, sts: seq<HostState>, i: nat,
                                       held: Held, context: Context)
    requires |sts| == |ms| && i <= |ms|
    requires forall j, st, h, c | 0 <= j < |ms| :: RequestKeeps(ms[j], parse, fuel, st, h, c)
    ensures var p := GatewayRequest(ms, parse, fuel, sts, i, held, context);
            p.Through? ==> p.held.body == held.body
    decreases |ms| - i
  {
    if i < |ms| {
      var t := RequestTurn(ms[i], parse, fuel, sts[i], held, context);
      assert RequestKeeps(ms[i], parse, fuel, sts[i], held, context);
      if t.verdict.Continue? {
        KeepersKeep(ms, parse, fuel, sts[i := AfterCollect(t.instance, ms[i].bodyAccess)], i + 1,
          Collected(held, t.instance, t.verdict.request, ms[i].bodyAccess), t.instance.context);
      }
    }
  }

  /** So does a request that passes a whole chain of such plugins, each with a handler of its own. */
  lemma IdentityChain(ms: seq<Guarded>, parse: Parser, fuel: nat, sts: seq<HostState>, i: nat, held: Held, context: Context)
    requires |sts| == |ms| && i <= |ms| && forall m | m in ms :: GluedKeeper(m.middleware.onRequest)
    ensures var p := GatewayRequest(ms, parse, fuel, sts, i, held, context);
            p.Through? ==> p.held.body == held.body
  {
    forall j, st, h, c | 0 <= j < |ms| ensures RequestKeeps(ms[j], parse, fuel, st, h, c) {
      assert ms[j] in ms;
      IdentityTurn(ms[j], parse, fuel, st, h, c);
    }
    KeepersKeep(ms, parse, fuel, sts, i, held, context);
  }

  lemma IdentityResponseTurn(m: Guarded, fuel: nat, st: HostState, held: Held, context: Context)
    requires GluedKeeper(m.middleware.onResponse) && (m.bodyAccess ==> st.outputBody == None)
    ensures ResponseTurn(m, fuel, st, held, context).1.body == held.body
  {
    var handle, parses :| IsGlued(m.middleware.onResponse, handle, parses) && KeepsBody(handle);
    var ready := Prepared(st, held, m.bodyAccess).(context := context);
    if CallHandler(ready, m.middleware.onResponse, held.metadata, fuel).1.Some? {
      KeeperReturns(handle, parses, ready, held.metadata, fuel);
    }
  }

  ghost predicate ResponseKeeps(m: Guarded, fuel: nat, st: HostState, held: Held, context: Context) {
    (m.bodyAccess ==> st.outputBody == None) ==> ResponseTurn(m, fuel, st, held, context).1.body == held.body
  }

  lemma {:induction false} ResponseKeepersKeep(ms: seq<Guarded>, fuel: nat, sts: seq<HostState>, n: nat, held: Held, context: Context)
    requires n <= |ms| && NothingWaiting(ms, sts, 0, n)
    requires forall j, st, h, c | 0 <= j < |ms| :: ResponseKeeps(ms[j], fuel, st, h, c)
    ensures GatewayResponse(ms, fuel, sts, n, held, context).body == held.body
    decreases n
  {
    if n > 0 {
      assert ResponseKeeps(ms[n - 1], fuel, sts[n - 1], held, context);
      var (after, held') := ResponseTurn(ms[n - 1], fuel, sts[n - 1], held, context);
      ResponseKeepersKeep(ms, fuel, sts[n - 1 := after], n - 1, held', context);
    }
  }

  /** And every response, traps and unparsable metadata included. */
  lemma IdentityResponseChain(ms: seq<Guarded>, fuel: nat, sts: seq<HostState>, n: nat, held: Held, context: Context)
    requires n <= |ms| && NothingWaiting(ms, sts, 0, n) && forall m | m in ms :: GluedKeeper(m.middleware.onResponse)
    ensures GatewayResponse(ms, fuel, sts, n, held, context).body == held.body
  {
    forall j, st, h, c | 0 <= j < |ms| ensures ResponseKeeps(ms[j], fuel, st, h, c) {
      assert ms[j] in ms;
      if ms[j].bodyAccess ==> st.outputBody == None { IdentityResponseTurn(ms[j], fuel, st, h, c); }
    }
    ResponseKeepersKeep(ms, fuel, sts, n, held, context);
  }
}
