/**
 Middleware chain execution: requests go through the middlewares in order until one short-circuits
 or fails; responses go back in reverse order, and a middleware that fails on the way back is
 skipped. Plugins are arbitrary strategies with their own state; `parse` stands for the JSON
 decoding of a structured middleware output into its action and re-serialised data.
 */
module Chain {
  import opened Text
  import opened PluginHost

  datatype Middleware = Middleware(onRequest: Handler, onResponse: Handler)

  datatype OnRequestResult = Continue(request: Bytes) | ShortCircuit(response: Bytes) | Failed

  type Parser = Bytes -> Option<(int, Bytes)>

  // ---------- What a middleware's answer means ----------

  function ParseMiddlewareOutput(parse: Parser, output: Bytes, code: int): OnRequestResult {
    if output == [] then (if code == 0 then Continue([]) else Failed)
    else
      match parse(output)
      case Some((action, data)) => if action != 0 || code != 0 then ShortCircuit(data) else Continue(data)
      case None => if code == 0 then Continue(output) else ShortCircuit(output)
  }

  /** The data in a structured output; an output without structure stands for itself. */
  function Yield(parse: Parser, output: Bytes): Bytes {
    if output != [] && parse(output).Some? then parse(output).value.1 else output
  }

  /** A middleware lets the request through only if its return code and, where there is one, its
      structured action both say so; silence with a deny code is an error, never a pass. What it hands
      on, either way, is the data of its output. */
  lemma ContinueIff(parse: Parser, output: Bytes, code: int)
    ensures ParseMiddlewareOutput(parse, output, code)
         == if code == 0 && (output == [] || parse(output).None? || parse(output).value.0 == 0) then Continue(Yield(parse, output))
            else if output == [] then Failed
            else ShortCircuit(Yield(parse, output))
  {
    if output != [] && parse(output).Some? {
      var (action, data) := parse(output).value;
    }
  }

  // ---------- The passes ----------

  datatype ChainResult =
    | Completed(request: Bytes, context: Context)
    | Stopped(response: Bytes, index: nat, context: Context)
    | Broken

  datatype Visit = OnRequest(i: nat) | OnResponse(i: nat)

  datatype RequestPass = RequestPass(instances: seq<HostState>, result: ChainResult, trace: seq<Visit>)

  datatype ResponsePass = ResponsePass(instances: seq<HostState>, response: Bytes, trace: seq<Visit>)

  /** The request pass from middleware `i` on. */
  function RequestFrom(ms: seq<Middleware>, parse: Parser, fuel: nat, sts: seq<HostState>, i: nat,
                       request: Bytes, context: Context): RequestPass
    requires |sts| == |ms| && i <= |ms|
    decreases |ms| - i
  {
    if i == |ms| then RequestPass(sts, Completed(request, context), [])
    else
      var (st, code) := CallHandler(sts[i].(context := context), ms[i].onRequest, request, fuel);
      if code.None? then RequestPass(sts[i := st], Broken, [OnRequest(i)])
      else
        var sts' := sts[i := st.(outputBuffer := [])];
        match ParseMiddlewareOutput(parse, st.outputBuffer, code.value)
        case Failed => RequestPass(sts', Broken, [OnRequest(i)])
        case ShortCircuit(response) => RequestPass(sts', Stopped(response, i, st.context), [OnRequest(i)])
        case Continue(request') =>
          var rest := RequestFrom(ms, parse, fuel, sts', i + 1, request', st.context);
          rest.(trace := [OnRequest(i)] + rest.trace)
  }

  function AfterResponse(st: HostState, code: Option<int>, response: Bytes): (HostState, Bytes) {
    if code.None? then (st, response)
    else (st.(outputBuffer := []), if st.outputBuffer != [] then st.outputBuffer else response)
  }

  /** The response pass through the first `n` middlewares, last to first. */
  function ResponseFrom(ms: seq<Middleware>, fuel: nat, sts: seq<HostState>, n: nat,
                        response: Bytes, context: Context): ResponsePass
    requires |sts| == |ms| && n <= |ms|
    decreases n
  {
    if n == 0 then ResponsePass(sts, response, [])
    else
      var i := n - 1;
      var (st, code) := CallHandler(sts[i].(context := context), ms[i].onResponse, response, fuel);
      var (st', response') := AfterResponse(st, code, response);
      var rest := ResponseFrom(ms, fuel, sts[i := st'], i, response', context);
      rest.(trace := [OnResponse(i)] + rest.trace)
  }

  method ExecuteOnRequest(ms: seq<Middleware>, parse: Parser, fuel: nat, instances: array<HostState>,
                          initialRequest: Bytes, context: Context)
    returns (result: ChainResult, ghost trace: seq<Visit>)
    requires instances.Length == |ms|
    modifies instances
    ensures RequestPass(instances[..], result, trace)
         == RequestFrom(ms, parse, fuel, old(instances[..]), 0, initialRequest, context)
  {
    var currentRequest, currentContext := initialRequest, context;
    trace := [];
    ghost var whole := RequestFrom(ms, parse, fuel, instances[..], 0, initialRequest, context);
    for index := 0 to instances.Length
      invariant whole == var rest := RequestFrom(ms, parse, fuel, instances[..], index, currentRequest, currentContext);
                         rest.(trace := trace + rest.trace)
    {
      ghost var before := instances[..];
      var (st, code) := CallHandler(instances[index].(context := currentContext), ms[index].onRequest, currentRequest, fuel);
      trace := trace + [OnRequest(index)];
      instances[index] := st;
      assert instances[..] == before[index := st];
      if code.None? {
        return Broken, trace;
      }
      var output := st.outputBuffer;
      instances[index] := st.(outputBuffer := []);
      assert instances[..] == before[index := st.(outputBuffer := [])];
      match ParseMiddlewareOutput(parse, output, code.value) {
        case Continue(request') =>
          currentRequest, currentContext := request', st.context;
          ghost var rest := RequestFrom(ms, parse, fuel, instances[..], index + 1, currentRequest, currentContext);
          Assoc(trace[..|trace| - 1], [OnRequest(index)], rest.trace);
        case ShortCircuit(response) =>
          return Stopped(response, index, st.context), trace;
        case Failed =>
          return Broken, trace;
      }
    }
    assert trace + [] == trace;
    result := Completed(currentRequest, currentContext);
  }

  method ExecuteOnResponse(ms: seq<Middleware>, fuel: nat, instances: array<HostState>, n: nat,
                           initialResponse: Bytes, context: Context)
    returns (response: Bytes, ghost trace: seq<Visit>)
    requires instances.Length == |ms| && n <= |ms|
    modifies instances
    ensures ResponsePass(instances[..], response, trace)
         == ResponseFrom(ms, fuel, old(instances[..]), n, initialResponse, context)
  {
    response, trace := initialResponse, [];
    ghost var whole := ResponseFrom(ms, fuel, instances[..], n, initialResponse, context);
    for index := n downto 0
      invariant whole == var rest := ResponseFrom(ms, fuel, instances[..], index, response, context);
                         rest.(trace := trace + rest.trace)
    {
      ghost var before := instances[..];
      var (st, code) := CallHandler(instances[index].(context := context), ms[index].onResponse, response, fuel);
      ghost var was := response;
      instances[index] := st;
      if code.Some? {
        var output := st.outputBuffer;
        instances[index] := st.(outputBuffer := []);
        if output != [] {
          response := output;
        }
      }
      assert instances[..] == before[index := AfterResponse(st, code, was).0];
      ghost var rest := ResponseFrom(ms, fuel, instances[..], index, response, context);
      assert ResponseFrom(ms, fuel, before, index + 1, was, context) == rest.(trace := [OnResponse(index)] + rest.trace);
      Assoc(trace, [OnResponse(index)], rest.trace);
      trace := trace + [OnResponse(index)];
    }
    assert trace + [] == trace;
  }

  /** After a short-circuit, only the middlewares before it see the response. */
  method ExecuteOnResponsePartial(ms: seq<Middleware>, fuel: nat, instances: array<HostState>, response: Bytes,
                                  shortCircuitIndex: nat, context: Context)
    returns (final: Bytes, ghost trace: seq<Visit>)
    requires instances.Length == |ms| && shortCircuitIndex <= |ms|
    modifies instances
    ensures ResponsePass(instances[..], final, trace)
         == ResponseFrom(ms, fuel, old(instances[..]), shortCircuitIndex, response, context)
  {
    if shortCircuitIndex == 0 {
      return response, [];
    }
    final, trace := ExecuteOnResponse(ms, fuel, instances, shortCircuitIndex, response, context);
  }

  // ---------- Onion order ----------

  function Up(from: nat, k: nat): seq<Visit> { seq(k, i requires 0 <= i < k => OnRequest(from + i)) }

  function Down(n: nat): seq<Visit> { seq(n, i requires 0 <= i < n => OnResponse(n - 1 - i)) }

  lemma {:induction false} RequestVisits(ms: seq<Middleware>, parse: Parser, fuel: nat, sts: seq<HostState>, i: nat,
                                         request: Bytes, context: Context)
    requires |sts| == |ms| && i <= |ms|
    ensures var p := RequestFrom(ms, parse, fuel, sts, i, request, context);
            && |p.instances| == |ms| && |p.trace| <= |ms| - i && p.trace == Up(i, |p.trace|)
            && (p.result.Completed? ==> |p.trace| == |ms| - i)
            && (p.result.Stopped? ==> p.trace != [] && p.result.index == i + |p.trace| - 1)
    decreases |ms| - i
  {
    if i < |ms| {
      var (st, code) := CallHandler(sts[i].(context := context), ms[i].onRequest, request, fuel);
      if code.Some? {
        match ParseMiddlewareOutput(parse, st.outputBuffer, code.value)
        case Continue(request') => RequestVisits(ms, parse, fuel, sts[i := st.(outputBuffer := [])], i + 1, request', st.context);
        case _ =>
      }
    }
  }

  lemma {:induction false} ResponseVisits(ms: seq<Middleware>, fuel: nat, sts: seq<HostState>, n: nat,
                                          response: Bytes, context: Context)
    requires |sts| == |ms| && n <= |ms|
    ensures ResponseFrom(ms, fuel, sts, n, response, context).trace == Down(n)
    decreases n
  {
    if n > 0 {
      var i := n - 1;
      var (st, code) := CallHandler(sts[i].(context := context), ms[i].onResponse, response, fuel);
      var (st', response') := AfterResponse(st, code, response);
      ResponseVisits(ms, fuel, sts[i := st'], i, response', context);
    }
  }

  // ---------- What each middleware is given ----------

  /** One call on the request path: what the middleware was given and what was said. */
  datatype Handed = Handed(index: nat, data: Bytes, context: Context, said: seq<Exchange>)

  function HandedTo(m: Middleware, fuel: nat, st: HostState, i: nat, request: Bytes, context: Context): Handed {
    Handed(i, request, context, Transcript(st.(context := context, outputBuffer := []), m.onRequest(st.memory, request), [], fuel))
  }

  function RequestTrail(ms: seq<Middleware>, parse: Parser, fuel: nat, sts: seq<HostState>, i: nat,
                        request: Bytes, context: Context): seq<Handed>
    requires |sts| == |ms| && i <= |ms|
    decreases |ms| - i
  {
    if i == |ms| then []
    else
      var entry := HandedTo(ms[i], fuel, sts[i], i, request, context);
      var (st, code) := CallHandler(sts[i].(context := context), ms[i].onRequest, request, fuel);
      var verdict := if code.None? then Failed else ParseMiddlewareOutput(parse, st.outputBuffer, code.value);
      match verdict
      case Continue(request') =>
        [entry] + RequestTrail(ms, parse, fuel, sts[i := st.(outputBuffer := [])], i + 1, request', st.context)
      case _ => [entry]
  }

  /** What a call leaves behind, from what was said in it. */
  lemma CallLeaves(m: Middleware, fuel: nat, st: HostState, i: nat, request: Bytes, context: Context)
    ensures var after, h := CallHandler(st.(context := context), m.onRequest, request, fuel).0, HandedTo(m, fuel, st, i, request, context);
            after.outputBuffer == LastOutput([], h.said) && after.context == ContextAfter(context, h.said)
  {
    var start := st.(context := context, outputBuffer := []);
    OutputIsLastCall(start, m.onRequest(st.memory, request), [], fuel);
    ContextIsCalls(start, m.onRequest(st.memory, request), [], fuel);
  }

  /** Call `k` goes to its middleware, with the data and the context that the call before it left. */
  ghost predicate IsHanded(ms: seq<Middleware>, parse: Parser, fuel: nat, sts: seq<HostState>, i: nat,
                           request: Bytes, context: Context, trail: seq<Handed>, k: nat)
  {
    && k < |trail| && i + k < |ms| && i + k < |sts|
    && trail[k] == HandedTo(ms[i + k], fuel, sts[i + k], i + k, trail[k].data, trail[k].context)
    && if k == 0 then trail[k].data == request && trail[k].context == context
       else
         && trail[k].data == Yield(parse, LastOutput([], trail[k - 1].said))
         && trail[k].context == ContextAfter(trail[k - 1].context, trail[k - 1].said)
  }

  /** In every run, each middleware is given exactly what the one before it handed on. */
  lemma {:induction false} RequestIsHandedOn(ms: seq<Middleware>, parse: Parser, fuel: nat, sts: seq<HostState>, i: nat,
                                             request: Bytes, context: Context, k: nat)
    requires |sts| == |ms| && i <= |ms| && k < |RequestTrail(ms, parse, fuel, sts, i, request, context)|
    ensures IsHanded(ms, parse, fuel, sts, i, request, context, RequestTrail(ms, parse, fuel, sts, i, request, context), k)
    decreases |ms| - i
  {
    var trail := RequestTrail(ms, parse, fuel, sts, i, request, context);
    var (st, code) := CallHandler(sts[i].(context := context), ms[i].onRequest, request, fuel);
    if k > 0 {
      CallLeaves(ms[i], fuel, sts[i], i, request, context);
      ContinueIff(parse, st.outputBuffer, code.value);
      var request', sts' := Yield(parse, st.outputBuffer), sts[i := st.(outputBuffer := [])];
      RequestIsHandedOn(ms, parse, fuel, sts', i + 1, request', st.context, k - 1);
      var rest := RequestTrail(ms, parse, fuel, sts', i + 1, request', st.context);
      assert trail == [HandedTo(ms[i], fuel, sts[i], i, request, context)] + rest;
    }
  }

  function DataAfter(parse: Parser, request: Bytes, trail: seq<Handed>): Bytes {
    if trail == [] then request else Yield(parse, LastOutput([], trail[|trail| - 1].said))
  }

  function ContextAtEnd(context: Context, trail: seq<Handed>): Context {
    if trail == [] then context else ContextAfter(trail[|trail| - 1].context, trail[|trail| - 1].said)
  }

  lemma TrailCons(parse: Parser, request: Bytes, context: Context, h: Handed, rest: seq<Handed>)
    ensures DataAfter(parse, request, [h] + rest) == DataAfter(parse, Yield(parse, LastOutput([], h.said)), rest)
    ensures ContextAtEnd(context, [h] + rest) == ContextAtEnd(ContextAfter(h.context, h.said), rest)
  {
    if rest == [] {
      assert [h] + rest == [h];
    } else {
      assert ([h] + rest)[|rest|] == rest[|rest| - 1];
    }
  }

  ghost predicate EndsWith(result: ChainResult, data: Bytes, context: Context, calls: nat, members: nat, i: nat) {
    match result
    case Completed(request', context') => request' == data && context' == context && calls == members - i
    case Stopped(response, index, context') => response == data && context' == context && calls == index - i + 1
    case Broken => calls > 0
  }

  function VerdictAt(m: Middleware, parse: Parser, fuel: nat, st: HostState, request: Bytes, context: Context): OnRequestResult {
    var (after, code) := CallHandler(st.(context := context), m.onRequest, request, fuel);
    if code.None? then Failed else ParseMiddlewareOutput(parse, after.outputBuffer, code.value)
  }

  /** What the pass ends with is what its calls handed on. */
  ghost predicate EndsAsHanded(ms: seq<Middleware>, parse: Parser, fuel: nat, sts: seq<HostState>, i: nat,
                               request: Bytes, context: Context)
    requires |sts| == |ms| && i <= |ms|
  {
    var trail := RequestTrail(ms, parse, fuel, sts, i, request, context);
    EndsWith(RequestFrom(ms, parse, fuel, sts, i, request, context).result,
      DataAfter(parse, request, trail), ContextAtEnd(context, trail), |trail|, |ms|, i)
  }

  lemma RequestEndsHere(ms: seq<Middleware>, parse: Parser, fuel: nat, sts: seq<HostState>, i: nat,
                        request: Bytes, context: Context)
    requires |sts| == |ms| && i < |ms| && !VerdictAt(ms[i], parse, fuel, sts[i], request, context).Continue?
    ensures EndsAsHanded(ms, parse, fuel, sts, i, request, context)
  {
    var (st, code) := CallHandler(sts[i].(context := context), ms[i].onRequest, request, fuel);
    CallLeaves(ms[i], fuel, sts[i], i, request, context);
    if code.Some? { ContinueIff(parse, st.outputBuffer, code.value); }
  }

  lemma RequestEndsLater(ms: seq<Middleware>, parse: Parser, fuel: nat, sts: seq<HostState>, i: nat,
                         request: Bytes, context: Context, st: HostState)
    requires |sts| == |ms| && i < |ms| && VerdictAt(ms[i], parse, fuel, sts[i], request, context).Continue?
    requires st == CallHandler(sts[i].(context := context), ms[i].onRequest, request, fuel).0
    requires EndsAsHanded(ms, parse, fuel, sts[i := st.(outputBuffer := [])], i + 1, Yield(parse, st.outputBuffer), st.context)
    ensures EndsAsHanded(ms, parse, fuel, sts, i, request, context)
  {
    var code := CallHandler(sts[i].(context := context), ms[i].onRequest, request, fuel).1;
    ContinueIff(parse, st.outputBuffer, code.value);
    CallLeaves(ms[i], fuel, sts[i], i, request, context);
    TrailCons(parse, request, context, HandedTo(ms[i], fuel, sts[i], i, request, context),
      RequestTrail(ms, parse, fuel, sts[i := st.(outputBuffer := [])], i + 1, Yield(parse, st.outputBuffer), st.context));
  }

  lemma {:induction false} RequestEnds(ms: seq<Middleware>, parse: Parser, fuel: nat, sts: seq<HostState>, i: nat,
                                       request: Bytes, context: Context)
    requires |sts| == |ms| && i <= |ms|
    ensures EndsAsHanded(ms, parse, fuel, sts, i, request, context)
    decreases |ms| - i
  {
    if i < |ms| {
      if VerdictAt(ms[i], parse, fuel, sts[i], request, context).Continue? {
        var st := CallHandler(sts[i].(context := context), ms[i].onRequest, request, fuel).0;
        RequestEnds(ms, parse, fuel, sts[i := st.(outputBuffer := [])], i + 1, Yield(parse, st.outputBuffer), st.context);
        RequestEndsLater(ms, parse, fuel, sts, i, request, context, st);
      } else {
        RequestEndsHere(ms, parse, fuel, sts, i, request, context);
      }
    }
  }

  datatype Journey = Journey(trace: seq<Visit>, response: Option<Bytes>)

  /** A request's whole way: in through the chain, to the dispatcher unless stopped, and back out
      through the middlewares it got past. */
  function RoundTrip(ms: seq<Middleware>, parse: Parser, fuel: nat, sts: seq<HostState>,
                     request: Bytes, context: Context, dispatch: (Bytes, Context) -> Bytes): Journey
    requires |sts| == |ms|
  {
    RequestVisits(ms, parse, fuel, sts, 0, request, context);
    var p := RequestFrom(ms, parse, fuel, sts, 0, request, context);
    match p.result
    case Completed(request', context') =>
      var q := ResponseFrom(ms, fuel, p.instances, |ms|, dispatch(request', context'), context');
      Journey(p.trace + q.trace, Some(q.response))
    case Stopped(response, index, context') =>
      var q := ResponseFrom(ms, fuel, p.instances, index, response, context');
      Journey(p.trace + q.trace, Some(q.response))
    case Broken => Journey(p.trace, None)
  }

  /** Onion order: in every run the middlewares are entered in order, `entered` of them, and left in
      reverse order, each at most once. All of them come back if the chain completes, all but the
      last one entered if that one short-circuited, and none if it broke. */
  lemma OnionOrder(ms: seq<Middleware>, parse: Parser, fuel: nat, sts: seq<HostState>,
                   request: Bytes, context: Context, dispatch: (Bytes, Context) -> Bytes) returns (entered: nat, left: nat)
    requires |sts| == |ms|
    ensures RoundTrip(ms, parse, fuel, sts, request, context, dispatch).trace == Up(0, entered) + Down(left)
    ensures match RequestFrom(ms, parse, fuel, sts, 0, request, context).result {
      case Completed(_, _) => entered == left == |ms|
      case Stopped(_, index, _) => entered == index + 1 <= |ms| && left == index
      case Broken => entered <= |ms| && left == 0
    }
  {
    RequestVisits(ms, parse, fuel, sts, 0, request, context);
    var p := RequestFrom(ms, parse, fuel, sts, 0, request, context);
    entered := |p.trace|;
    match p.result
    case Completed(request', context') =>
      left := |ms|;
      ResponseVisits(ms, fuel, p.instances, left, dispatch(request', context'), context');
    case Stopped(response, index, context') =>
      left := index;
      ResponseVisits(ms, fuel, p.instances, left, response, context');
    case Broken =>
      left := 0;
      assert p.trace + Down(0) == p.trace;
  }

  // ---------- Failing middlewares might as well not be there ----------

  datatype Members = Members(middlewares: seq<Middleware>, instances: seq<HostState>)

  /** The middlewares among the first `n` that do not fail on this response. */
  function Survivors(ms: seq<Middleware>, fuel: nat, sts: seq<HostState>, n: nat, response: Bytes, context: Context): (r: Members)
    requires |sts| == |ms| && n <= |ms|
    ensures |r.middlewares| == |r.instances|
    decreases n
  {
    if n == 0 then Members([], [])
    else
      var i := n - 1;
      var (st, code) := CallHandler(sts[i].(context := context), ms[i].onResponse, response, fuel);
      var rest := Survivors(ms, fuel, sts, i, AfterResponse(st, code, response).1, context);
      if code.None? then rest else Members(rest.middlewares + [ms[i]], rest.instances + [sts[i]])
  }

  /** Only the members still to be visited matter to the response. */
  lemma {:induction false} ResponseIsLocal(ms: seq<Middleware>, sts: seq<HostState>, ms': seq<Middleware>, sts': seq<HostState>,
                                           fuel: nat, n: nat, response: Bytes, context: Context)
    requires |sts| == |ms| && |sts'| == |ms'| && n <= |ms| && n <= |ms'|
    requires forall i | 0 <= i < n :: ms[i] == ms'[i] && sts[i] == sts'[i]
    ensures ResponseFrom(ms, fuel, sts, n, response, context).response
         == ResponseFrom(ms', fuel, sts', n, response, context).response
    decreases n
  {
    if n > 0 {
      var i := n - 1;
      var (st, code) := CallHandler(sts[i].(context := context), ms[i].onResponse, response, fuel);
      var (after, response') := AfterResponse(st, code, response);
      ResponseIsLocal(ms, sts[i := after], ms', sts'[i := after], fuel, i, response', context);
    }
  }

  /** Fault tolerance: the final response is that of the chain without its failing members. */
  lemma {:induction false} FailuresAreSkipped(ms: seq<Middleware>, fuel: nat, sts: seq<HostState>, n: nat,
                                              response: Bytes, context: Context)
    requires |sts| == |ms| && n <= |ms|
    ensures var alive := Survivors(ms, fuel, sts, n, response, context);
            && ResponseFrom(alive.middlewares, fuel, alive.instances, |alive.middlewares|, response, context).response
            == ResponseFrom(ms, fuel, sts, n, response, context).response
    decreases n
  {
    if n > 0 {
      var i := n - 1;
      var (st, code) := CallHandler(sts[i].(context := context), ms[i].onResponse, response, fuel);
      var (after, response') := AfterResponse(st, code, response);
      var rest := Survivors(ms, fuel, sts, i, response', context);
      FailuresAreSkipped(ms, fuel, sts, i, response', context);
      ResponseIsLocal(ms, sts, ms, sts[i := after], fuel, i, response', context);
      if code.Some? {
        var alive, k := Survivors(ms, fuel, sts, n, response, context), |rest.middlewares|;
        ResponseIsLocal(rest.middlewares, rest.instances, alive.middlewares, alive.instances[k := after], fuel, k, response', context);
      }
    }
  }
}
