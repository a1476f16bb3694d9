/**
 A plugin instance as the host sees it: the body, output and context buffers of `PluginState`, the
 host functions that touch them, and a handler call. A plugin is an arbitrary strategy: at every
 point it may make a host call, return or trap, depending on everything it has been told so far.
 Fuel bounds the number of host calls, as it bounds execution in the engine.
 */
module PluginHost {
  import opened Text

  type Bytes = seq<nat>
  type Context = map<string, string>

  datatype HostState = HostState(
    memory: nat,
    requestBody: Option<Bytes>,
    outputBody: Option<Option<Bytes>>,
    outputBuffer: Bytes,
    context: Context)

  datatype HostCall =
    | BodyLen
    | BodyRead(bufLen: nat)
    | BodySet(bytes: Bytes)
    | BodyClear
    | SetOutput(bytes: Bytes)
    | ContextGet(key: string)
    | ContextSet(key: string, value: string)

  datatype Reply = Length(n: int) | Data(bytes: Bytes) | Value(value: Option<string>) | Done

  datatype Action = Do(call: HostCall) | Return(code: int, memory: nat) | Trap(memory: nat)

  type Strategy = seq<Reply> -> Action

  /** What a handler export does with its input, given the instance's linear memory. */
  type Handler = (nat, Bytes) -> Strategy

  function Host(st: HostState, call: HostCall): (HostState, Reply) {
    match call
    case BodyLen => (st, Length(if st.requestBody.Some? then |st.requestBody.value| else -1))
    case BodyRead(bufLen) =>
      // The held body is taken, whether or not it fits.
      var bytes := if st.requestBody.Some? then st.requestBody.value else [];
      (st.(requestBody := None), Data(if |bytes| <= bufLen then bytes else bytes[..bufLen]))
    case BodySet(bytes) => (st.(outputBody := Some(Some(bytes))), Done)
    case BodyClear => (st.(outputBody := Some(None)), Done)
    case SetOutput(bytes) => (st.(outputBuffer := bytes), Done)
    case ContextGet(key) => (st, Value(if key in st.context then Some(st.context[key]) else None))
    case ContextSet(key, value) => (st.(context := st.context[key := value]), Done)
  }

  /** Runs a strategy; `None` is a trap. */
  function Exec(st: HostState, s: Strategy, told: seq<Reply>, fuel: nat): (HostState, Option<int>)
    decreases fuel
  {
    if fuel == 0 then (st, None)
    else
      match s(told)
      case Return(code, memory) => (st.(memory := memory), Some(code))
      case Trap(memory) => (st.(memory := memory), None)
      case Do(call) =>
        var (st', reply) := Host(st, call);
        Exec(st', s, told + [reply], fuel - 1)
  }

  /** One handler call: the output buffer is cleared, the other buffers are not. */
  function CallHandler(st: HostState, h: Handler, data: Bytes, fuel: nat): (HostState, Option<int>) {
    Exec(st.(outputBuffer := []), h(st.memory, data), [], fuel)
  }

  class PluginState {
    var memory: nat
    var requestBody: Option<Bytes>
    var outputBody: Option<Option<Bytes>>
    var outputBuffer: Bytes
    var context: Context

    ghost function View(): HostState
      reads this
    {
      HostState(memory, requestBody, outputBody, outputBuffer, context)
    }

    constructor (memory: nat)
      ensures View() == HostState(memory, None, None, [], map[])
    {
      this.memory, requestBody, outputBody, outputBuffer, context := memory, None, None, [], map[];
    }

    method HostFunction(call: HostCall) returns (reply: Reply)
      modifies this
      ensures (View(), reply) == Host(old(View()), call)
    {
      match call {
        case BodyLen =>
          reply := Length(if requestBody.Some? then |requestBody.value| else -1);
        case BodyRead(bufLen) =>
          var bytes: Bytes := [];
          if requestBody.Some? {
            bytes := if |requestBody.value| <= bufLen then requestBody.value else requestBody.value[..bufLen];
          }
          requestBody := None;
          reply := Data(bytes);
        case BodySet(bytes) =>
          outputBody := Some(Some(bytes));
          reply := Done;
        case BodyClear =>
          outputBody := Some(None);
          reply := Done;
        case SetOutput(bytes) =>
          outputBuffer := bytes;
          reply := Done;
        case ContextGet(key) =>
          reply := Value(if key in context then Some(context[key]) else None);
        case ContextSet(key, value) =>
          context := context[key := value];
          reply := Done;
      }
    }

    method Call(h: Handler, data: Bytes, fuel: nat) returns (result: Option<int>)
      modifies this
      ensures (View(), result) == CallHandler(old(View()), h, data, fuel)
    {
      outputBuffer := [];
      var s := h(memory, data);
      var told: seq<Reply> := [];
      var left := fuel;
      while left > 0
        invariant 0 <= left <= fuel
        invariant Exec(View(), s, told, left) == CallHandler(old(View()), h, data, fuel)
      {
        match s(told) {
          case Return(code, m) =>
            memory := m;
            return Some(code);
          case Trap(m) =>
            memory := m;
            return None;
          case Do(call) =>
            var reply := HostFunction(call);
            told := told + [reply];
        }
        left := left - 1;
      }
      return None;
    }

    method TakeOutput() returns (output: Bytes)
      modifies this
      ensures output == old(outputBuffer) && View() == old(View()).(outputBuffer := [])
    {
      output := outputBuffer;
      outputBuffer := [];
    }

    method TakeOutputBody() returns (body: Option<Option<Bytes>>)
      modifies this
      ensures body == old(outputBody) && View() == old(View()).(outputBody := None)
    {
      body := outputBody;
      outputBody := None;
    }

    method SetRequestBody(body: Option<Bytes>)
      modifies this
      ensures View() == old(View()).(requestBody := body)
    {
      requestBody := body;
    }

    method SetContext(c: Context)
      modifies this
      ensures View() == old(View()).(context := c)
    {
      context := c;
    }
  }

  // ---------- A plugin that is given no body cannot see one ----------

  datatype Exchange = Exchange(call: HostCall, reply: Reply)

  /** Everything the plugin asks and is told during a run. */
  function Transcript(st: HostState, s: Strategy, told: seq<Reply>, fuel: nat): seq<Exchange>
    decreases fuel
  {
    if fuel == 0 || !s(told).Do? then []
    else
      var (st', reply) := Host(st, s(told).call);
      [Exchange(s(told).call, reply)] + Transcript(st', s, told + [reply], fuel - 1)
  }

  predicate NoBodySeen(x: Exchange) {
    (x.call.BodyLen? ==> x.reply == Length(-1)) && (x.call.BodyRead? ==> x.reply == Data([]))
  }

  /** Whatever a plugin does, without a body set on its instance every length query says -1, every
      read returns nothing, and none appears later. */
  lemma {:induction false} SeesNoBody(st: HostState, s: Strategy, told: seq<Reply>, fuel: nat)
    requires st.requestBody == None
    ensures forall x | x in Transcript(st, s, told, fuel) :: NoBodySeen(x)
    ensures Exec(st, s, told, fuel).0.requestBody == None
    decreases fuel
  {
    if fuel > 0 && s(told).Do? {
      var (st', reply) := Host(st, s(told).call);
      SeesNoBody(st', s, told + [reply], fuel - 1);
    }
  }

  /** A body stays on the instance exactly until it is read. */
  lemma {:induction false} UnreadStays(st: HostState, s: Strategy, told: seq<Reply>, fuel: nat)
    ensures Exec(st, s, told, fuel).0.requestBody
         == if exists x | x in Transcript(st, s, told, fuel) :: x.call.BodyRead? then None else st.requestBody
    decreases fuel
  {
    if fuel > 0 && s(told).Do? {
      var (st', reply) := Host(st, s(told).call);
      var x, rest := Exchange(s(told).call, reply), Transcript(st', s, told + [reply], fuel - 1);
      UnreadStays(st', s, told + [reply], fuel - 1);
      assert Transcript(st, s, told, fuel) == [x] + rest;
      assert forall y :: y in [x] + rest <==> y == x || y in rest;
    }
  }

  // ---------- The output body is what the plugin last said ----------

  /** The output body after some host calls: the last `host_body_set` or `host_body_clear` counts. */
  function LastBodyCall(before: Option<Option<Bytes>>, xs: seq<Exchange>): Option<Option<Bytes>> {
    if xs == [] then before
    else
      match xs[|xs| - 1].call
      case BodySet(bytes) => Some(Some(bytes))
      case BodyClear => Some(None)
      case _ => LastBodyCall(before, xs[..|xs| - 1])
  }

  lemma {:induction false} LastBodyCallConcat(before: Option<Option<Bytes>>, xs: seq<Exchange>, ys: seq<Exchange>)
    ensures LastBodyCall(before, xs + ys) == LastBodyCall(LastBodyCall(before, xs), ys)
    decreases |ys|
  {
    if ys == [] {
      assert xs + ys == xs;
    } else {
      LastBodyCallConcat(before, xs, ys[..|ys| - 1]);
      assert (xs + ys)[..|xs + ys| - 1] == xs + ys[..|ys| - 1];
    }
  }

  /** For every plugin, whether it returns or traps. */
  lemma {:induction false} OutputBodyIsLastCall(st: HostState, s: Strategy, told: seq<Reply>, fuel: nat)
    ensures Exec(st, s, told, fuel).0.outputBody == LastBodyCall(st.outputBody, Transcript(st, s, told, fuel))
    decreases fuel
  {
    if fuel > 0 && s(told).Do? {
      var (st', reply) := Host(st, s(told).call);
      var x, rest := Exchange(s(told).call, reply), Transcript(st', s, told + [reply], fuel - 1);
      OutputBodyIsLastCall(st', s, told + [reply], fuel - 1);
      LastBodyCallConcat(st.outputBody, [x], rest);
      assert [x][..0] == [];
    }
  }

  // ---------- The output and the context are what the plugin last said ----------

  /** The output after some host calls: the last `host_set_output` counts. */
  function LastOutput(before: Bytes, xs: seq<Exchange>): Bytes
    decreases |xs|
  {
    if xs == [] then before
    else LastOutput(if xs[0].call.SetOutput? then xs[0].call.bytes else before, xs[1..])
  }

  /** The context after some host calls: every `host_context_set` in turn. */
  function ContextAfter(context: Context, xs: seq<Exchange>): Context
    decreases |xs|
  {
    if xs == [] then context
    else
      ContextAfter(if xs[0].call.ContextSet? then context[xs[0].call.key := xs[0].call.value] else context, xs[1..])
  }

  lemma {:induction false} OutputIsLastCall(st: HostState, s: Strategy, told: seq<Reply>, fuel: nat)
    ensures Exec(st, s, told, fuel).0.outputBuffer == LastOutput(st.outputBuffer, Transcript(st, s, told, fuel))
    decreases fuel
  {
    if fuel > 0 && s(told).Do? {
      var (st', reply) := Host(st, s(told).call);
      OutputIsLastCall(st', s, told + [reply], fuel - 1);
      var x, rest := Exchange(s(told).call, reply), Transcript(st', s, told + [reply], fuel - 1);
      assert ([x] + rest)[1..] == rest;
    }
  }

  lemma {:induction false} ContextIsCalls(st: HostState, s: Strategy, told: seq<Reply>, fuel: nat)
    ensures Exec(st, s, told, fuel).0.context == ContextAfter(st.context, Transcript(st, s, told, fuel))
    decreases fuel
  {
    if fuel > 0 && s(told).Do? {
      var (st', reply) := Host(st, s(told).call);
      ContextIsCalls(st', s, told + [reply], fuel - 1);
      var x, rest := Exchange(s(told).call, reply), Transcript(st', s, told + [reply], fuel - 1);
      assert ([x] + rest)[1..] == rest;
    }
  }

  // ---------- Every reply, from what was said before ----------

  function Replies(xs: seq<Exchange>): seq<Reply> { Map((x: Exchange) => x.reply, xs) }

  /** The body still on the instance after some calls. */
  ghost function Remaining(body: Option<Bytes>, xs: seq<Exchange>): Option<Bytes> {
    if exists x | x in xs :: x.call.BodyRead? then None else body
  }

  /** The reply that a call gets after the calls in `xs`, on an instance with this body and context. */
  ghost function ReplyTo(body: Option<Bytes>, context: Context, xs: seq<Exchange>, call: HostCall): Reply {
    var left, now := Remaining(body, xs), ContextAfter(context, xs);
    match call
    case BodyLen => Length(if left.Some? then |left.value| else -1)
    case BodyRead(n) => Data(if left.None? then [] else if n < |left.value| then left.value[..n] else left.value)
    case ContextGet(key) => Value(if key in now then Some(now[key]) else None)
    case _ => Done
  }

  /** In every run, the plugin makes the calls its strategy wants after the replies so far. */
  lemma {:induction false} CallsAsked(st: HostState, s: Strategy, told: seq<Reply>, fuel: nat, k: nat)
    requires k < |Transcript(st, s, told, fuel)|
    ensures var xs := Transcript(st, s, told, fuel); s(told + Replies(xs[..k])) == Do(xs[k].call)
    decreases fuel
  {
    var xs := Transcript(st, s, told, fuel);
    var (st', reply) := Host(st, s(told).call);
    var x, rest := Exchange(s(told).call, reply), Transcript(st', s, told + [reply], fuel - 1);
    assert xs == [x] + rest;
    if k == 0 {
      assert told + Replies(xs[..0]) == told;
    } else {
      CallsAsked(st', s, told + [reply], fuel - 1, k - 1);
      assert xs[..k] == [x] + rest[..k - 1];
      RepliesCons(told, x, rest[..k - 1]);
    }
  }

  lemma RepliesCons(told: seq<Reply>, x: Exchange, xs: seq<Exchange>)
    ensures told + Replies([x] + xs) == told + [x.reply] + Replies(xs)
  {
    MapConcat((y: Exchange) => y.reply, [x], xs);
    assert Replies([x]) == [x.reply];
    Assoc(told, [x.reply], Replies(xs));
  }

  /** A run ends with what the strategy does after all replies, or when its fuel is used up. */
  lemma {:induction false} RunEnds(st: HostState, s: Strategy, told: seq<Reply>, fuel: nat)
    ensures var xs := Transcript(st, s, told, fuel);
            && |xs| <= fuel
            && if |xs| == fuel then Exec(st, s, told, fuel).1 == None
               else
                 match s(told + Replies(xs))
                 case Do(_) => false
                 case Return(code, memory) => Exec(st, s, told, fuel).1 == Some(code) && Exec(st, s, told, fuel).0.memory == memory
                 case Trap(memory) => Exec(st, s, told, fuel).1 == None && Exec(st, s, told, fuel).0.memory == memory
    decreases fuel
  {
    if fuel > 0 {
      if s(told).Do? {
        var (st', reply) := Host(st, s(told).call);
        var x, rest := Exchange(s(told).call, reply), Transcript(st', s, told + [reply], fuel - 1);
        RunEnds(st', s, told + [reply], fuel - 1);
        RepliesCons(told, x, rest);
      } else {
        assert told + Replies([]) == told;
      }
    }
  }

  lemma ReplyShifts(st: HostState, x: Exchange, front: seq<Exchange>, call: HostCall)
    ensures var after := Host(st, x.call).0;
            ReplyTo(st.requestBody, st.context, [x] + front, call) == ReplyTo(after.requestBody, after.context, front, call)
  {
    var all, after := [x] + front, Host(st, x.call).0;
    assert all[0] == x && all[1..] == front;
    assert ContextAfter(st.context, all) == ContextAfter(after.context, front);
    assert forall y :: y in all <==> y == x || y in front;
    assert Remaining(st.requestBody, all) == Remaining(after.requestBody, front);
  }

  /** Each reply follows from the calls before it: a body can be read once, and the context is as
      set. */
  lemma {:induction false} RepliesExact(st: HostState, s: Strategy, told: seq<Reply>, fuel: nat, k: nat)
    requires k < |Transcript(st, s, told, fuel)|
    ensures var xs := Transcript(st, s, told, fuel);
            xs[k].reply == ReplyTo(st.requestBody, st.context, xs[..k], xs[k].call)
    decreases fuel
  {
    var xs := Transcript(st, s, told, fuel);
    var (st', reply) := Host(st, s(told).call);
    var x, rest := Exchange(s(told).call, reply), Transcript(st', s, told + [reply], fuel - 1);
    assert xs == [x] + rest;
    if k > 0 {
      RepliesExact(st', s, told + [reply], fuel - 1, k - 1);
      assert xs[..k] == [x] + rest[..k - 1];
      ReplyShifts(st, x, rest[..k - 1], xs[k].call);
    }
  }

  /** More fuel does not change a run that returns. */
  lemma {:induction false} MoreFuel(st: HostState, s: Strategy, told: seq<Reply>, fuel: nat, more: nat)
    requires Exec(st, s, told, fuel).1.Some?
    ensures Exec(st, s, told, fuel + more) == Exec(st, s, told, fuel)
    decreases fuel
  {
    if s(told).Do? {
      var (st', reply) := Host(st, s(told).call);
      MoreFuel(st', s, told + [reply], fuel - 1, more);
    }
  }
}
