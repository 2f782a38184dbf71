/** `Node.invoke`, the generator through which the driver runs a node. The
    generator yields requests and the driver sends one response back for
    each; the model takes the driver's responses as a sequence and gives
    the requests yielded and where the generator stands afterwards. */
module Invocation {
  import opened Optional
  import opened MarvNode
  import Cross
  import Text
  import Identity

  /** What the generator yields. */
  datatype Request =
    | GetStream(node: Node, stream: Option<string>)              // handle of an input stream
    | GetLogger                                                // the node's logger
    | Pull(handle: Value)                                      // next message of a stream
    | Fork(name: string, inputs: map<string, Value>, group: bool)  // run a copy with these inputs
    | Relayed(request: Value)                                  // a request of the node's own routine

  /** The generator after the requests: waiting for the response to the
      last one, returned, or stopped by an exception. */
  datatype Status = Suspended | Finished | Failed(error: Error)

  datatype Run = Run(trace: seq<Request>, status: Status)

  /** The requests `pre` followed by the run `r`. */
  function Then(pre: seq<Request>, r: Run): Run
  {
    Run(pre + r.trace, r.status)
  }

  /** The resolved inputs: the ones passed as they are, the plain foreach
      values and the foreach streams, each as (name, value) in declaration
      order. */
  datatype Buckets = Buckets(common: seq<(string, Value)>, plain: seq<(string, Value)>,
                             streams: seq<(string, Value)>)

  /** The run of `invoke(inputs)` for a node with these input
      specifications and this routine, given the driver's responses. */
  function InvokeRun(specs: seq<InputSpec>, body: (map<string, Value>, seq<Value>) -> Option<Value>,
                     inputs: Option<map<string, Value>>, rs: seq<Value>): (r: Run)
    ensures inputs.Some? ==> !r.status.Failed?
    ensures r.status.Failed? ==> InvokeError(r.status.error)
  {
    if inputs.Some? then RelayFrom(body, inputs.value, rs, 0, 0)
    else ResolveRun(specs, 0, body, rs, 0, Buckets([], [], []))
  }

  /** The exceptions `invoke` itself can raise: a node bound as an input,
      a foreach value that cannot be iterated, too many foreach streams. */
  predicate InvokeError(e: Error)
  {
    e.BareNodeInput? || e.NotIterable? || e.StreamCount?
  }

  /** Which bucket an input goes to. */
  datatype Kind = Common | ForeachPlain | ForeachStream

  function KindOf(s: InputSpec): Kind
  {
    if !s.foreach then Common else if s.value.Stream? then ForeachStream else ForeachPlain
  }

  /** The buckets once input `s` is known to have value `v`. */
  function Place(b: Buckets, s: InputSpec, v: Value): Buckets
  {
    match KindOf(s)
    case Common => b.(common := b.common + [(s.name, v)])
    case ForeachStream => b.(streams := b.streams + [(s.name, v)])
    case ForeachPlain => b.(plain := b.plain + [(s.name, v)])
  }

  /** Resolution of the inputs from the `i`-th on, with `p` responses used:
      a stream input costs a `get_stream` request and takes its response as
      value; a node given as value is refused. */
  function ResolveRun(specs: seq<InputSpec>, i: nat, body: (map<string, Value>, seq<Value>) -> Option<Value>,
                      rs: seq<Value>, p: nat, b: Buckets): (r: Run)
    requires i <= |specs| && p <= |rs|
    ensures r.status.Failed? ==> InvokeError(r.status.error)
    decreases |specs| - i
  {
    if i == |specs| then AfterResolve(body, b, rs, p)
    else
      var s := specs[i];
      if s.value.NodeRef? then Run([], Failed(BareNodeInput(s.name)))
      else if s.value.Stream? then
        var q := GetStream(s.value.spec.node, s.value.spec.name);
        if p == |rs| then Run([q], Suspended)
        else Then([q], ResolveRun(specs, i + 1, body, rs, p + 1, Place(b, s, rs[p])))
      else ResolveRun(specs, i + 1, body, rs, p, Place(b, s, s.value))
  }

  /** Without foreach inputs the routine runs on the resolved inputs;
      otherwise the logger is requested and the fan-out begins. */
  function AfterResolve(body: (map<string, Value>, seq<Value>) -> Option<Value>, b: Buckets,
                        rs: seq<Value>, p: nat): (r: Run)
    requires p <= |rs|
    ensures r.status.Failed? ==> InvokeError(r.status.error) && !r.status.error.BareNodeInput?
    ensures b.plain == [] && b.streams == [] ==> !r.status.Failed?
  {
    if b.plain == [] && b.streams == [] then RelayFrom(body, Cross.Dict(b.common), rs, p, p)
    else if p == |rs| then Run([GetLogger], Suspended)
    else Then([GetLogger], Fanout(b, rs, p + 1))
  }

  /** The values of a foreach input, if it can be iterated: a list gives
      its items, a string its characters. */
  function Elements(v: Value): (r: Option<seq<Value>>)
    ensures v.Plain? && v.data.Items? ==> r.Some? && |r.value| == |v.data.elems|
    ensures v.Plain? && v.data.Str? ==> r.Some? && |r.value| == |v.data.text|
    ensures !v.Plain? || v.data.Atom? ==> r.None?
    ensures v.Plain? && v.data.Items? ==> forall k :: 0 <= k < |v.data.elems| ==> r.value[k] == Plain(v.data.elems[k])
    ensures v.Plain? && v.data.Str? ==> forall k :: 0 <= k < |v.data.text| ==> r.value[k] == Plain(Identity.Str([v.data.text[k]]))
  {
    match v
    case Plain(Items(es)) => Some(seq(|es|, k requires 0 <= k < |es| => Plain(es[k])))
    case Plain(Str(t)) => Some(seq(|t|, k requires 0 <= k < |t| => Plain(Identity.Str([t[k]]))))
    case _ => None
  }

  /** The axes of the cross product, one per plain foreach input; the first
      input that cannot be iterated is an error. */
  function Axes(plain: seq<(string, Value)>): (r: Result<seq<(string, seq<Value>)>, Error>)
    ensures r.Ok? <==> forall k :: 0 <= k < |plain| ==> Elements(plain[k].1).Some?
    ensures r.Ok? ==> |r.value| == |plain|
    ensures r.Ok? ==> forall k :: 0 <= k < |plain| ==> r.value[k] == (plain[k].0, Elements(plain[k].1).value)
    ensures r.Err? ==> exists k :: (0 <= k < |plain| && Elements(plain[k].1).None? &&
      r.error == NotIterable(plain[k].0) && forall j :: 0 <= j < k ==> Elements(plain[j].1).Some?)
  {
    if plain == [] then Ok([])
    else match Elements(plain[0].1)
      case None => Err(NotIterable(plain[0].0))
      case Some(vs) =>
        var rest := Axes(plain[1..]);
        if rest.Err? then
          assert forall k :: 0 <= k < |plain| - 1 ==> plain[1..][k] == plain[k + 1];
          Err(rest.error)
        else Ok([(plain[0].0, vs)] + rest.value)
  }

  /** The fan-out after the logger: plain forks over the cross product, or a
      stream loop when there is exactly one foreach stream. */
  function Fanout(b: Buckets, rs: seq<Value>, p: nat): (r: Run)
    requires p <= |rs|
    ensures r.status.Failed? ==> r.trace == []
    ensures r.status.Failed? ==> (r.status.error.NotIterable? && Axes(b.plain).Err?) ||
                                 (r.status.error == StreamCount(|b.streams|) && |b.streams| > 1)
  {
    match Axes(b.plain)
    case Err(e) => Run([], Failed(e))
    case Ok(axes) =>
      var cross := Cross.Product(axes);
      if b.streams == [] then PlainForks(cross, 0, b.common, rs, p)
      else if |b.streams| != 1 then Run([], Failed(StreamCount(|b.streams|)))
      else StreamRun(cross, b.common, b.streams[0].0, b.streams[0].1, rs, p, 0)
  }

  /** `dict(combination)` updated with the common inputs. */
  function ForkInputs(c: seq<(string, Value)>, common: seq<(string, Value)>): map<string, Value>
  {
    Cross.Update(Cross.Dict(c), common)
  }

  /** One fork per combination from the `j`-th on, labelled by its index. */
  function PlainForks(cross: seq<seq<(string, Value)>>, j: nat, common: seq<(string, Value)>,
                      rs: seq<Value>, p: nat): (r: Run)
    requires j <= |cross| && p <= |rs|
    ensures !r.status.Failed? && |r.trace| <= |cross| - j
    ensures forall q :: q in r.trace ==> q.Fork? && !q.group
    decreases |cross| - j
  {
    if j == |cross| then Run([], Finished)
    else
      var f := Fork(Text.Decimal(j), ForkInputs(cross[j], common), false);
      if p == |rs| then Run([f], Suspended)
      else Then([f], PlainForks(cross, j + 1, common, rs, p + 1))
  }

  /** The stream loop with `count` forks made so far: pull the next value;
      None ends the loop, any other value is forked with every combination. */
  function StreamRun(cross: seq<seq<(string, Value)>>, common: seq<(string, Value)>, name: string,
                     stream: Value, rs: seq<Value>, p: nat, count: nat): (r: Run)
    requires p <= |rs|
    ensures !r.status.Failed? && r.trace != [] && r.trace[0] == Pull(stream)
    ensures forall q :: q in r.trace ==> q == Pull(stream) || (q.Fork? && !q.group)
    decreases |rs| - p, 0, 0
  {
    if p == |rs| then Run([Pull(stream)], Suspended)
    else if rs[p].Nil? then Run([Pull(stream)], Finished)
    else Then([Pull(stream)], StreamForks(cross, 0, common, name, rs[p], stream, rs, p + 1, count))
  }

  /** The forks of the pulled value `v` from the `j`-th combination on,
      numbered on from `count`; then the next pull. */
  function StreamForks(cross: seq<seq<(string, Value)>>, j: nat, common: seq<(string, Value)>, name: string,
                       v: Value, stream: Value, rs: seq<Value>, p: nat, count: nat): (r: Run)
    requires j <= |cross| && p <= |rs|
    ensures !r.status.Failed?
    ensures forall q :: q in r.trace ==> q == Pull(stream) || (q.Fork? && !q.group)
    decreases |rs| - p, 1, |cross| - j
  {
    if j == |cross| then StreamRun(cross, common, name, stream, rs, p, count)
    else
      var f := Fork(Text.Decimal(count), ForkInputs(cross[j], common)[name := v], false);
      if p == |rs| then Run([f], Suspended)
      else Then([f], StreamForks(cross, j + 1, common, name, v, stream, rs, p + 1, count + 1))
  }

  /** The routine runs on `inputs`; each of its requests is passed on and
      the response sent back into it. `rs[start..pos]` is what it has been
      sent so far. Its return ends the invocation. */
  function RelayFrom(body: (map<string, Value>, seq<Value>) -> Option<Value>, inputs: map<string, Value>,
                     rs: seq<Value>, start: nat, pos: nat): (r: Run)
    requires start <= pos <= |rs|
    ensures !r.status.Failed?
    ensures forall q :: q in r.trace ==> q.Relayed?
    decreases |rs| - pos
  {
    match body(inputs, rs[start..pos])
    case None => Run([], Finished)
    case Some(q) =>
      if pos == |rs| then Run([Relayed(q)], Suspended)
      else Then([Relayed(q)], RelayFrom(body, inputs, rs, start, pos + 1))
  }

  /** `node.invoke(inputs)` driven with the responses `rs`. */
  method Invoke(n: Node, inputs: Option<map<string, Value>>, rs: seq<Value>)
    returns (trace: seq<Request>, status: Status)
    ensures Run(trace, status) == InvokeRun(n.specs, n.func.body, inputs, rs)
  {
    ghost var goal := InvokeRun(n.specs, n.func.body, inputs, rs);
    var body := n.func.body;
    if inputs.Some? {
      trace, status := Relay(body, inputs.value, rs, 0, [], goal);
      return;
    }
    var p, b, halt;
    trace, p, b, halt := Resolve(n.specs, body, rs);
    if halt.Some? {
      return trace, halt.value;
    }
    if b.plain == [] && b.streams == [] {
      trace, status := Relay(body, Cross.Dict(b.common), rs, p, trace, goal);
      return;
    }
    trace := trace + [GetLogger];
    if p == |rs| {
      return trace, Suspended;
    }
    trace, status := ForkLoop(b, rs, p + 1, trace, goal);
  }

  /** The loop of `invoke` over the input specifications, when no inputs
      are given: either it stops (`halt`) or it ends with the resolved
      inputs `b` after `p` responses. */
  method Resolve(specs: seq<InputSpec>, body: (map<string, Value>, seq<Value>) -> Option<Value>, rs: seq<Value>)
    returns (trace: seq<Request>, p: nat, b: Buckets, halt: Option<Status>)
    ensures p <= |rs|
    ensures halt.Some? ==> Run(trace, halt.value) == ResolveRun(specs, 0, body, rs, 0, Buckets([], [], []))
    ensures halt.None? ==> Then(trace, AfterResolve(body, b, rs, p)) == ResolveRun(specs, 0, body, rs, 0, Buckets([], [], []))
  {
    ghost var goal := ResolveRun(specs, 0, body, rs, 0, Buckets([], [], []));
    trace, p, b, halt := [], 0, Buckets([], [], []), None;
    var i: nat := 0;
    while i < |specs|
      invariant i <= |specs| && p <= |rs|
      invariant Then(trace, ResolveRun(specs, i, body, rs, p, b)) == goal
    {
      var s := specs[i];
      if s.value.NodeRef? {
        return trace, p, b, Some(Failed(BareNodeInput(s.name)));
      }
      var v;
      if s.value.Stream? {
        trace := trace + [GetStream(s.value.spec.node, s.value.spec.name)];
        if p == |rs| {
          return trace, p, b, Some(Suspended);
        }
        v := rs[p];
        p := p + 1;
      } else {
        v := s.value;
      }
      b := Place(b, s, v);
      i := i + 1;
    }
  }

  /** The relaying loop of `invoke`: the routine runs on `args` from the
      `p0`-th response on. */
  method Relay(body: (map<string, Value>, seq<Value>) -> Option<Value>, args: map<string, Value>,
               rs: seq<Value>, p0: nat, trace0: seq<Request>, ghost goal: Run)
    returns (trace: seq<Request>, status: Status)
    requires p0 <= |rs| && Then(trace0, RelayFrom(body, args, rs, p0, p0)) == goal
    ensures Run(trace, status) == goal
  {
    trace := trace0;
    var p: nat := p0;
    while true
      invariant p0 <= p <= |rs|
      invariant Then(trace, RelayFrom(body, args, rs, p0, p)) == goal
      decreases |rs| - p
    {
      var q := body(args, rs[p0..p]);
      if q.None? {
        return trace, Finished;
      }
      trace := trace + [Relayed(q.value)];
      if p == |rs| {
        return trace, Suspended;
      }
      p := p + 1;
    }
  }

  /** The fan-out branch of `invoke` after the logger request. */
  method ForkLoop(b: Buckets, rs: seq<Value>, p0: nat, trace0: seq<Request>, ghost goal: Run)
    returns (trace: seq<Request>, status: Status)
    requires p0 <= |rs| && Then(trace0, Fanout(b, rs, p0)) == goal
    ensures Run(trace, status) == goal
  {
    trace := trace0;
    var p: nat := p0;
    var axes := Axes(b.plain);
    if axes.Err? {
      return trace, Failed(axes.error);
    }
    var cross := Cross.Product(axes.value);
    if b.streams == [] {
      trace, status := PlainForkLoop(cross, b.common, rs, p, trace, goal);
      return;
    }
    if |b.streams| != 1 {
      return trace, Failed(StreamCount(|b.streams|));
    }
    var (name, stream) := b.streams[0];
    trace, status := PullLoop(cross, b.common, name, stream, rs, p, trace, goal);
  }

  /** The loop over the combinations when no input is a foreach stream. */
  method PlainForkLoop(cross: seq<seq<(string, Value)>>, common: seq<(string, Value)>, rs: seq<Value>, p0: nat,
                     trace0: seq<Request>, ghost goal: Run)
    returns (trace: seq<Request>, status: Status)
    requires p0 <= |rs| && Then(trace0, PlainForks(cross, 0, common, rs, p0)) == goal
    ensures Run(trace, status) == goal
  {
    trace := trace0;
    var p: nat := p0;
    var j: nat := 0;
    while j < |cross|
      invariant j <= |cross| && p <= |rs|
      invariant Then(trace, PlainForks(cross, j, common, rs, p)) == goal
    {
      trace := trace + [Fork(Text.Decimal(j), ForkInputs(cross[j], common), false)];
      if p == |rs| {
        return trace, Suspended;
      }
      p := p + 1;
      j := j + 1;
    }
    return trace, Finished;
  }

  /** The pull loop over the one foreach stream, with the loop over the
      combinations for each value pulled. */
  method PullLoop(cross: seq<seq<(string, Value)>>, common: seq<(string, Value)>, name: string, stream: Value,
                      rs: seq<Value>, p0: nat, trace0: seq<Request>, ghost goal: Run)
    returns (trace: seq<Request>, status: Status)
    requires p0 <= |rs| && Then(trace0, StreamRun(cross, common, name, stream, rs, p0, 0)) == goal
    ensures Run(trace, status) == goal
  {
    trace := trace0;
    var p: nat := p0;
    var count: nat := 0;
    while true
      invariant p <= |rs|
      invariant Then(trace, StreamRun(cross, common, name, stream, rs, p, count)) == goal
      decreases |rs| - p
    {
      trace := trace + [Pull(stream)];
      if p == |rs| {
        return trace, Suspended;
      }
      var v := rs[p];
      p := p + 1;
      if v.Nil? {
        return trace, Finished;
      }
      var j: nat := 0;
      while j < |cross|
        invariant j <= |cross| && p <= |rs|
        invariant Then(trace, StreamForks(cross, j, common, name, v, stream, rs, p, count)) == goal
        decreases |rs| - p, |cross| - j
      {
        trace := trace + [Fork(Text.Decimal(count), ForkInputs(cross[j], common)[name := v], false)];
        if p == |rs| {
          return trace, Suspended;
        }
        p := p + 1;
        count := count + 1;
        j := j + 1;
      }
    }
  }
}
