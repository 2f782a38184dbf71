/** What `Node.invoke` promises: how resolution, the two fan-outs and the
    relay show up in the requests, for any responses of the driver. */
module InvocationProperties {
  import opened Optional
  import opened MarvNode
  import opened Invocation
  import Cross
  import Text

  /** The fork requests of a trace, in order. */
  function Forks(trace: seq<Request>): (r: seq<Request>)
    ensures |r| <= |trace|
    ensures forall i :: 0 <= i < |r| ==> r[i].Fork?
  {
    if trace == [] then [] else (if trace[0].Fork? then [trace[0]] else []) + Forks(trace[1..])
  }

  /** The number of pull requests of a trace. */
  function PullCount(trace: seq<Request>): nat
  {
    if trace == [] then 0 else (if trace[0].Pull? then 1 else 0) + PullCount(trace[1..])
  }

  lemma {:induction false} ForksConcat(a: seq<Request>, b: seq<Request>)
    ensures Forks(a + b) == Forks(a) + Forks(b)
    ensures PullCount(a + b) == PullCount(a) + PullCount(b)
  {
    if a == [] {
      assert a + b == b;
    } else {
      assert (a + b)[1..] == a[1..] + b;
      ForksConcat(a[1..], b);
    }
  }

  /** Every request but a pending last one has had its response: a
      suspended run has yielded one request more than the responses it was
      given, a finished or failed one no more than that. */
  predicate Answered(r: Run, avail: int)
  {
    if r.status.Suspended? then |r.trace| == avail + 1 else |r.trace| <= avail
  }

  // ---------------------------------------------------------------- relay

  /** `r` passes on exactly the routine's requests, each after the response
      to the one before: its `k`-th request is the one the routine makes
      once sent `rs[start..pos + k]`. Unless it waits for a response it has
      finished, which it does exactly when the routine returns. */
  predicate RelaysRoutine(r: Run, body: (map<string, Value>, seq<Value>) -> Option<Value>, inputs: map<string, Value>,
                          rs: seq<Value>, start: nat, pos: nat)
  {
    && start <= pos
    && (forall k :: 0 <= k < |r.trace| ==> RelayedAt(r, body, inputs, rs, start, pos, k))
    && (!r.status.Suspended? ==>
          pos + |r.trace| <= |rs| && r.status.Finished? && body(inputs, rs[start..pos + |r.trace|]).None?)
  }

  /** The `k`-th request of `r` is the one the routine makes once sent
      `rs[start..pos + k]`. */
  predicate RelayedAt(r: Run, body: (map<string, Value>, seq<Value>) -> Option<Value>, inputs: map<string, Value>,
                      rs: seq<Value>, start: nat, pos: nat, k: nat)
    requires start <= pos && k < |r.trace|
  {
    pos + k <= |rs| && body(inputs, rs[start..pos + k]).Some? &&
    r.trace[k] == Relayed(body(inputs, rs[start..pos + k]).value)
  }

  /** The relay from the `pos`-th response on relays the routine, and has
      an answer for every request but a pending last one. */
  lemma {:induction false} RelayOnlyRelays(body: (map<string, Value>, seq<Value>) -> Option<Value>,
                                           inputs: map<string, Value>, rs: seq<Value>, start: nat, pos: nat)
    requires start <= pos <= |rs|
    ensures Answered(RelayFrom(body, inputs, rs, start, pos), |rs| - pos)
    ensures RelaysRoutine(RelayFrom(body, inputs, rs, start, pos), body, inputs, rs, start, pos)
    decreases |rs| - pos
  {
    var r := RelayFrom(body, inputs, rs, start, pos);
    if body(inputs, rs[start..pos]).Some? && pos < |rs| {
      var q := body(inputs, rs[start..pos]).value;
      var r' := RelayFrom(body, inputs, rs, start, pos + 1);
      RelayOnlyRelays(body, inputs, rs, start, pos + 1);
      assert r == Then([Relayed(q)], r');
      assert RelaysRoutine(r', body, inputs, rs, start, pos + 1);
      forall k | 0 <= k < |r.trace|
        ensures RelayedAt(r, body, inputs, rs, start, pos, k)
      {
        if k > 0 {
          assert RelayedAt(r', body, inputs, rs, start, pos + 1, k - 1);
          assert r.trace[k] == r'.trace[k - 1];
          assert pos + 1 + (k - 1) == pos + k;
        }
      }
      assert RelaysRoutine(r, body, inputs, rs, start, pos);
    } else if body(inputs, rs[start..pos]).Some? {
      assert r.trace == [Relayed(body(inputs, rs[start..pos + 0]).value)];
    }
  }

  /** Given explicit inputs, `invoke` resolves nothing and forks nothing:
      every request comes from the routine. */
  lemma ExplicitInputsOnlyRelay(specs: seq<InputSpec>, body: (map<string, Value>, seq<Value>) -> Option<Value>,
                                inputs: map<string, Value>, rs: seq<Value>)
    ensures InvokeRun(specs, body, Some(inputs), rs) == RelayFrom(body, inputs, rs, 0, 0)
    ensures forall q :: q in InvokeRun(specs, body, Some(inputs), rs).trace ==> q.Relayed?
  {
    RelayOnlyRelays(body, inputs, rs, 0, 0);
  }

  // ---------------------------------------------------------- plain fan-out

  /** The forks of the plain fan-out: one per combination, labelled by its
      index, never a group. */
  function PlainForkRequests(cross: seq<seq<(string, Value)>>, common: seq<(string, Value)>): (r: seq<Request>)
    ensures |r| == |cross|
  {
    seq(|cross|, i requires 0 <= i < |cross| => Fork(Text.Decimal(i), ForkInputs(cross[i], common), false))
  }

  /** One step of the plain fork loop: the fork for combination `j`. */
  lemma PlainForksStep(cross: seq<seq<(string, Value)>>, j: nat, common: seq<(string, Value)>, rs: seq<Value>, p: nat)
    requires j < |cross| && p < |rs|
    ensures PlainForks(cross, j, common, rs, p)
         == Then([PlainForkRequests(cross, common)[j]], PlainForks(cross, j + 1, common, rs, p + 1))
  {
  }

  /** The plain fork loop yields the forks in order, one per response, and
      returns after the last. */
  lemma {:induction false} PlainForksTrace(cross: seq<seq<(string, Value)>>, j: nat, common: seq<(string, Value)>,
                                           rs: seq<Value>, p: nat)
    requires j <= |cross| && p <= |rs|
    ensures |cross| - j <= |rs| - p ==>
      PlainForks(cross, j, common, rs, p) == Run(PlainForkRequests(cross, common)[j..], Finished)
    ensures |cross| - j > |rs| - p ==>
      PlainForks(cross, j, common, rs, p) == Run(PlainForkRequests(cross, common)[j..j + |rs| - p + 1], Suspended)
    decreases |cross| - j
  {
    var all := PlainForkRequests(cross, common);
    if j == |cross| {
      assert all[j..] == [];
    } else if p == |rs| {
      assert all[j..j + 1] == [all[j]];
    } else {
      PlainForksStep(cross, j, common, rs, p);
      PlainForksTrace(cross, j + 1, common, rs, p + 1);
      assert all[j..] == [all[j]] + all[j + 1..];
      if |cross| - j > |rs| - p {
        assert all[j..j + |rs| - p + 1] == [all[j]] + all[j + 1..j + 1 + |rs| - (p + 1) + 1];
      }
    }
  }

  /** The merged inputs of a fork: a name is bound when the combination or
      the common inputs bind it, and the common binding wins. */
  lemma ForkInputsContent(c: seq<(string, Value)>, common: seq<(string, Value)>, k: string)
    ensures k in ForkInputs(c, common) <==> Cross.Last(c, k).Some? || Cross.Last(common, k).Some?
    ensures Cross.Last(common, k).Some? ==> ForkInputs(c, common)[k] == Cross.Last(common, k).value
    ensures Cross.Last(common, k).None? && Cross.Last(c, k).Some? ==> ForkInputs(c, common)[k] == Cross.Last(c, k).value
  {
    Cross.UpdateLookup(map[], c, k);
    Cross.UpdateLookup(Cross.Dict(c), common, k);
  }

  /** With plain foreach inputs and no foreach stream, the fan-out yields
      exactly one fork per combination of the cross product, in product
      order, labelled "0", "1", ..., with distinct labels and the group
      flag off, and then returns; with too few responses it waits after a
      prefix of those forks. */
  lemma PlainFanout(b: Buckets, rs: seq<Value>, p: nat)
    requires p <= |rs| && b.streams == [] && Axes(b.plain).Ok?
    ensures var axes := Axes(b.plain).value;
            var forks := PlainForkRequests(Cross.Product(axes), b.common);
            && |forks| == Cross.Size(axes)
            && (Cross.Size(axes) <= |rs| - p ==> Fanout(b, rs, p) == Run(forks, Finished))
            && (Cross.Size(axes) > |rs| - p ==> Fanout(b, rs, p) == Run(forks[..|rs| - p + 1], Suspended))
    ensures var axes := Axes(b.plain).value;
            var cross := Cross.Product(axes);
            && (forall i :: 0 <= i < |cross| ==> Cross.IsCombination(cross[i], axes))
            && (forall c :: Cross.IsCombination(c, axes) ==> exists i :: 0 <= i < |cross| && cross[i] == c)
    ensures var forks := PlainForkRequests(Cross.Product(Axes(b.plain).value), b.common);
            forall i, j :: 0 <= i < |forks| && 0 <= j < |forks| && i != j ==> forks[i].name != forks[j].name
  {
    var axes := Axes(b.plain).value;
    var cross := Cross.Product(axes);
    Cross.ProductCount(axes);
    PlainForksTrace(cross, 0, b.common, rs, p);
    assert PlainForkRequests(cross, b.common)[0..] == PlainForkRequests(cross, b.common);
    forall i | 0 <= i < |cross| ensures Cross.IsCombination(cross[i], axes) {
      Cross.ProductMembers(axes, cross[i]);
    }
    forall c | Cross.IsCombination(c, axes) ensures exists i :: 0 <= i < |cross| && cross[i] == c {
      Cross.ProductMembers(axes, c);
    }
    var forks := PlainForkRequests(cross, b.common);
    forall i, j | 0 <= i < |forks| && 0 <= j < |forks| && i != j ensures forks[i].name != forks[j].name {
      if forks[i].name == forks[j].name {
        Text.DecimalInjective(i, j);
      }
    }
  }

  // --------------------------------------------------------- stream fan-out

  /** The fork numbered `number` that binds the stream input `name` to `v`
      on top of the combination `c` and the common inputs. */
  function OwedFork(c: seq<(string, Value)>, common: seq<(string, Value)>, name: string, v: Value, number: nat): Request
  {
    Fork(Text.Decimal(number), ForkInputs(c, common)[name := v], false)
  }

  /** The forks of the pulled value `v` for the combinations from the
      `j`-th on, numbered on from `count`. */
  function ValueForks(cross: seq<seq<(string, Value)>>, j: nat, common: seq<(string, Value)>, name: string,
                      v: Value, count: nat): (r: seq<Request>)
    requires j <= |cross|
    ensures |r| == |cross| - j
    decreases |cross| - j
  {
    if j == |cross| then []
    else [OwedFork(cross[j], common, name, v, count)] + ValueForks(cross, j + 1, common, name, v, count + 1)
  }

  /** The `i`-th of them is numbered `count + i` and binds `v` on top of the
      `j + i`-th combination. */
  lemma {:induction false} ValueForksAt(cross: seq<seq<(string, Value)>>, j: nat, common: seq<(string, Value)>,
                                        name: string, v: Value, count: nat, i: nat)
    requires j + i < |cross|
    ensures ValueForks(cross, j, common, name, v, count)[i] == OwedFork(cross[j + i], common, name, v, count + i)
    decreases i
  {
    var f := OwedFork(cross[j], common, name, v, count);
    var rest := ValueForks(cross, j + 1, common, name, v, count + 1);
    assert ValueForks(cross, j, common, name, v, count) == [f] + rest;
    if i > 0 {
      var i', j', c' := i - 1, j + 1, count + 1;
      ValueForksAt(cross, j', common, name, v, c', i');
      assert j' + i' == j + i && c' + i' == count + i;
      assert ([f] + rest)[i] == rest[i'];
    }
  }

  /** Every fork the stream loop owes for the pulled values `vs`: for each
      value in turn, one fork per combination, all numbered by one counter
      from `count`. */
  function StreamForkRequests(cross: seq<seq<(string, Value)>>, common: seq<(string, Value)>, name: string,
                              vs: seq<Value>, count: nat): seq<Request>
  {
    if vs == [] then []
    else ValueForks(cross, 0, common, name, vs[0], count) + StreamForkRequests(cross, common, name, vs[1..], count + |cross|)
  }

  /** One fork per value and combination. */
  lemma {:induction false} StreamForkRequestsLength(cross: seq<seq<(string, Value)>>, common: seq<(string, Value)>,
                                                    name: string, vs: seq<Value>, count: nat)
    ensures |StreamForkRequests(cross, common, name, vs, count)| == |vs| * |cross|
  {
    if vs != [] {
      StreamForkRequestsLength(cross, common, name, vs[1..], count + |cross|);
      MulPred(|vs|, |cross|);
    }
  }

  /** `i * n`, counted up one block at a time. */
  function Offset(i: nat, n: nat): nat
  {
    if i == 0 then 0 else Offset(i - 1, n) + n
  }

  /** Counting blocks of `n` up `i` times gives `i * n`. */
  lemma {:induction false} OffsetIsProduct(i: nat, n: nat)
    ensures Offset(i, n) == i * n
  {
    if i > 0 {
      OffsetIsProduct(i - 1, n);
      MulPred(i, n);
    }
  }

  /** `StreamForkRequestsAt` with the position `x` reached block by block
      and the fork's number `number` named. */
  lemma {:induction false} StreamForkRequestsOffset(cross: seq<seq<(string, Value)>>, common: seq<(string, Value)>,
                                                    name: string, vs: seq<Value>, count: nat, i: nat, j: nat,
                                                    x: nat, number: nat)
    requires i < |vs| && j < |cross| && x == Offset(i, |cross|) + j && number == count + x
    ensures x < |StreamForkRequests(cross, common, name, vs, count)|
    ensures StreamForkRequests(cross, common, name, vs, count)[x] == OwedFork(cross[j], common, name, vs[i], number)
  {
    if i == 0 {
      StreamForkRequestsFirst(cross, common, name, vs, count, j, number);
    } else {
      var y, c := x - |cross|, count + |cross|;
      assert Offset(i, |cross|) == Offset(i - 1, |cross|) + |cross|;
      assert y == Offset(i - 1, |cross|) + j && number == c + y;
      StreamForkRequestsOffset(cross, common, name, vs[1..], c, i - 1, j, y, number);
      StreamForkRequestsRest(cross, common, name, vs, count, i, j, x, y, c, number);
    }
  }

  /** The forks of the first value come first. */
  lemma StreamForkRequestsFirst(cross: seq<seq<(string, Value)>>, common: seq<(string, Value)>,
                                name: string, vs: seq<Value>, count: nat, j: nat, number: nat)
    requires 0 < |vs| && j < |cross| && number == count + j
    ensures j < |StreamForkRequests(cross, common, name, vs, count)|
    ensures StreamForkRequests(cross, common, name, vs, count)[j] == OwedFork(cross[j], common, name, vs[0], number)
  {
    var head := ValueForks(cross, 0, common, name, vs[0], count);
    ValueForksAt(cross, 0, common, name, vs[0], count, j);
    assert StreamForkRequests(cross, common, name, vs, count)[j] == head[j];
  }

  /** After the forks of the first value come those of the others: the
      fork owed for the `i`-th value is the one owed for the `i - 1`-th of
      the others, one block further on. */
  lemma StreamForkRequestsRest(cross: seq<seq<(string, Value)>>, common: seq<(string, Value)>,
                               name: string, vs: seq<Value>, count: nat, i: nat, j: nat, x: nat, y: nat, c: nat,
                               number: nat)
    requires 0 < i < |vs| && j < |cross| && x == |cross| + y && c == count + |cross|
    requires y < |StreamForkRequests(cross, common, name, vs[1..], c)|
    requires StreamForkRequests(cross, common, name, vs[1..], c)[y] == OwedFork(cross[j], common, name, vs[1..][i - 1], number)
    ensures x < |StreamForkRequests(cross, common, name, vs, count)|
    ensures StreamForkRequests(cross, common, name, vs, count)[x] == OwedFork(cross[j], common, name, vs[i], number)
  {
    assert vs[1..][i - 1] == vs[i];
  }

  /** The fork owed for the `i`-th pulled value and the `j`-th combination
      is the `i * |cross| + j`-th, numbered `count + i * |cross| + j`, and
      binds the stream input to that value on top of the combination and
      the common inputs. */
  lemma StreamForkRequestsAt(cross: seq<seq<(string, Value)>>, common: seq<(string, Value)>,
                             name: string, vs: seq<Value>, count: nat, i: nat, j: nat)
    requires i < |vs| && j < |cross|
    ensures i * |cross| + j < |StreamForkRequests(cross, common, name, vs, count)|
    ensures StreamForkRequests(cross, common, name, vs, count)[i * |cross| + j]
         == Fork(Text.Decimal(count + i * |cross| + j), ForkInputs(cross[j], common)[name := vs[i]], false)
  {
    OffsetIsProduct(i, |cross|);
    StreamForkRequestsOffset(cross, common, name, vs, count, i, j, i * |cross| + j, count + i * |cross| + j);
  }

  /** The values the stream loop pulls from `rs[p]` on, every `k`-th
      response, up to the first None or the end of the responses. */
  function Pulled(rs: seq<Value>, p: nat, k: nat): seq<Value>
    requires k > 0
    decreases |rs| - p
  {
    if p >= |rs| || rs[p].Nil? then [] else [rs[p]] + Pulled(rs, p + k, k)
  }

  /** `i` blocks of `k` are `i - 1` blocks and one more. */
  lemma MulPred(i: nat, k: nat)
    requires i > 0
    ensures i * k == (i - 1) * k + k && (i - 1) * k >= 0
  {
  }

  /** The `i`-th pulled value is the response at `p + i * k`, and it is
      not None. */
  lemma {:induction false} PulledAt(rs: seq<Value>, p: nat, k: nat, i: nat)
    requires k > 0 && i < |Pulled(rs, p, k)|
    ensures p + i * k < |rs| && Pulled(rs, p, k)[i] == rs[p + i * k] && !rs[p + i * k].Nil?
    decreases i
  {
    if i > 0 {
      PulledAt(rs, p + k, k, i - 1);
      MulPred(i, k);
    }
  }

  /** The pulling stops at None or at the end of the responses. */
  lemma {:induction false} PulledEnd(rs: seq<Value>, p: nat, k: nat)
    requires k > 0
    ensures p + |Pulled(rs, p, k)| * k >= |rs| || rs[p + |Pulled(rs, p, k)| * k].Nil?
    decreases |rs| - p
  {
    if p < |rs| && !rs[p].Nil? {
      PulledEnd(rs, p + k, k);
      MulPred(|Pulled(rs, p, k)|, k);
    }
  }

  /** Every request the stream loop makes for the pulled values `vs`,
      numbering its forks on from `count`: for each value its pull and then
      its forks, and last the pull that receives None. */
  function StreamTrace(cross: seq<seq<(string, Value)>>, common: seq<(string, Value)>, name: string,
                       stream: Value, vs: seq<Value>, count: nat): seq<Request>
  {
    if vs == [] then [Pull(stream)]
    else [Pull(stream)] + (ValueForks(cross, 0, common, name, vs[0], count)
                           + StreamTrace(cross, common, name, stream, vs[1..], count + |cross|))
  }

  /** One pull and one fork per combination for each value, and the last
      pull. */
  lemma {:induction false} StreamTraceLength(cross: seq<seq<(string, Value)>>, common: seq<(string, Value)>,
                                             name: string, stream: Value, vs: seq<Value>, count: nat)
    ensures |StreamTrace(cross, common, name, stream, vs, count)| == |vs| * (|cross| + 1) + 1
  {
    if vs != [] {
      StreamTraceLength(cross, common, name, stream, vs[1..], count + |cross|);
      MulPred(|vs|, |cross| + 1);
    }
  }

  /** The forks of the closed-form trace are the owed forks; every other
      request of it pulls the stream. */
  lemma {:induction false} StreamTraceForks(cross: seq<seq<(string, Value)>>, common: seq<(string, Value)>,
                                            name: string, stream: Value, vs: seq<Value>, count: nat)
    ensures Forks(StreamTrace(cross, common, name, stream, vs, count)) == StreamForkRequests(cross, common, name, vs, count)
    ensures forall q :: q in StreamTrace(cross, common, name, stream, vs, count) ==> q.Fork? || q == Pull(stream)
  {
    assert Forks([Pull(stream)]) == [] by {
      assert [Pull(stream)][1..] == [];
    }
    if vs != [] {
      var head := ValueForks(cross, 0, common, name, vs[0], count);
      var tail := StreamTrace(cross, common, name, stream, vs[1..], count + |cross|);
      StreamTraceForks(cross, common, name, stream, vs[1..], count + |cross|);
      ValueForksAreForks(cross, 0, common, name, vs[0], count);
      ForksConcat(head, tail);
      ForksConcat([Pull(stream)], head + tail);
    }
  }

  /** The forks owed for a value are all forks. */
  lemma {:induction false} ValueForksAreForks(cross: seq<seq<(string, Value)>>, j: nat, common: seq<(string, Value)>,
                                              name: string, v: Value, count: nat)
    requires j <= |cross|
    ensures Forks(ValueForks(cross, j, common, name, v, count)) == ValueForks(cross, j, common, name, v, count)
    decreases |cross| - j
  {
    if j < |cross| {
      var t, f := ValueForks(cross, j, common, name, v, count), OwedFork(cross[j], common, name, v, count);
      var rest := ValueForks(cross, j + 1, common, name, v, count + 1);
      ValueForksAreForks(cross, j + 1, common, name, v, count + 1);
      assert t == [f] + rest;
      assert t[0] == f && f.Fork? && t[1..] == rest;
      assert Forks(t) == [f] + Forks(rest);
    }
  }

  /** The forks of a prefix are a prefix of the forks. */
  lemma ForksPrefix(a: seq<Request>, b: seq<Request>)
    requires a <= b
    ensures Forks(a) <= Forks(b)
  {
    assert b == a + b[|a|..];
    ForksConcat(a, b[|a|..]);
  }

  /** What the stream loop yields given `avail` responses, when `full` is
      every request it makes up to the pull that receives None: a prefix
      of `full`, with one request more than responses while it waits; it
      returns, having made all of `full`, exactly when the response to the
      last request of `full` is there. */
  predicate StreamExact(r: Run, full: seq<Request>, avail: int)
  {
    && !r.status.Failed? && Answered(r, avail)
    && r.trace <= full
    && (r.status.Finished? <==> |full| <= avail)
    && (r.status.Finished? ==> r.trace == full)
  }

  /** A request in front of a run, with the response to it. */
  lemma StepKeepsExact(q: Request, r: Run, rest: seq<Request>, all: seq<Request>, avail: int, avail': int)
    requires StreamExact(r, rest, avail) && all == [q] + rest && avail' == avail + 1
    ensures StreamExact(Then([q], r), all, avail')
  {
    assert rest == r.trace + rest[|r.trace|..];
    assert all == ([q] + r.trace) + rest[|r.trace|..];
  }

  /** The first request of `all`, without its response. */
  lemma WaitIsExact(q: Request, all: seq<Request>)
    requires all != [] && all[0] == q
    ensures StreamExact(Run([q], Suspended), all, 0)
  {
    assert [q] == all[..1];
  }

  /** What the stream loop promises about its forks, given `avail`
      responses, when `all` are the forks it owes: it does not fail, its
      forks are a prefix of `all`, all of them once it has returned, and
      every other request pulls from `stream`. */
  predicate StreamPromise(r: Run, all: seq<Request>, stream: Value, avail: int)
  {
    && Answered(r, avail) && !r.status.Failed?
    && Forks(r.trace) <= all
    && (r.status.Finished? ==> Forks(r.trace) == all)
    && forall q :: q in r.trace ==> q.Fork? || q == Pull(stream)
  }

  /** A run that follows the closed-form trace keeps the promise about the
      owed forks. */
  lemma ExactKeepsPromise(cross: seq<seq<(string, Value)>>, common: seq<(string, Value)>, name: string,
                          stream: Value, vs: seq<Value>, count: nat, r: Run, avail: int)
    requires StreamExact(r, StreamTrace(cross, common, name, stream, vs, count), avail)
    ensures StreamPromise(r, StreamForkRequests(cross, common, name, vs, count), stream, avail)
  {
    var full := StreamTrace(cross, common, name, stream, vs, count);
    StreamTraceForks(cross, common, name, stream, vs, count);
    ForksPrefix(r.trace, full);
    forall q | q in r.trace ensures q.Fork? || q == Pull(stream) {
      var i :| 0 <= i < |r.trace| && r.trace[i] == q;
      assert full[i] == q;
    }
  }

  /** The first of the forks owed for a value, split off. */
  lemma ValueForksCons(cross: seq<seq<(string, Value)>>, j: nat, common: seq<(string, Value)>, name: string,
                       v: Value, count: nat, later: seq<Request>)
    requires j < |cross|
    ensures ValueForks(cross, j, common, name, v, count) + later
         == [OwedFork(cross[j], common, name, v, count)] + (ValueForks(cross, j + 1, common, name, v, count + 1) + later)
  {
  }

  /** The requests for the values pulled from `p` on, split after the pull
      of the first value. */
  lemma PulledTrace(cross: seq<seq<(string, Value)>>, common: seq<(string, Value)>, name: string,
                    stream: Value, rs: seq<Value>, p: nat, count: nat)
    requires p < |rs| && !rs[p].Nil?
    ensures StreamTrace(cross, common, name, stream, Pulled(rs, p, |cross| + 1), count)
         == [Pull(stream)] + (ValueForks(cross, 0, common, name, rs[p], count)
            + StreamTrace(cross, common, name, stream, Pulled(rs, p + (|cross| + 1), |cross| + 1), count + |cross|))
  {
    var vs := Pulled(rs, p, |cross| + 1);
    assert vs == [rs[p]] + Pulled(rs, p + (|cross| + 1), |cross| + 1);
    assert vs[1..] == Pulled(rs, p + (|cross| + 1), |cross| + 1);
  }

  /** One pull of the stream loop that gives a value. */
  lemma StreamRunStep(cross: seq<seq<(string, Value)>>, common: seq<(string, Value)>, name: string,
                      stream: Value, rs: seq<Value>, p: nat, count: nat)
    requires p < |rs| && !rs[p].Nil?
    ensures StreamRun(cross, common, name, stream, rs, p, count)
         == Then([Pull(stream)], StreamForks(cross, 0, common, name, rs[p], stream, rs, p + 1, count))
  {
  }

  /** One fork of the stream loop. */
  lemma StreamForksStep(cross: seq<seq<(string, Value)>>, j: nat, common: seq<(string, Value)>, name: string,
                        v: Value, stream: Value, rs: seq<Value>, p: nat, count: nat)
    requires j < |cross| && p < |rs|
    ensures StreamForks(cross, j, common, name, v, stream, rs, p, count)
         == Then([OwedFork(cross[j], common, name, v, count)],
                 StreamForks(cross, j + 1, common, name, v, stream, rs, p + 1, count + 1))
  {
  }

  /** A pull that gives a value, in front of the forks of that value and
      the loop after them. */
  lemma PullThenForks(cross: seq<seq<(string, Value)>>, common: seq<(string, Value)>, name: string,
                      stream: Value, rs: seq<Value>, p: nat, count: nat)
    requires p < |rs| && !rs[p].Nil?
    requires StreamExact(StreamForks(cross, 0, common, name, rs[p], stream, rs, p + 1, count),
                         ValueForks(cross, 0, common, name, rs[p], count)
                           + StreamTrace(cross, common, name, stream, Pulled(rs, p + (|cross| + 1), |cross| + 1), count + |cross|),
                         |rs| - (p + 1))
    ensures StreamExact(StreamRun(cross, common, name, stream, rs, p, count),
                        StreamTrace(cross, common, name, stream, Pulled(rs, p, |cross| + 1), count), |rs| - p)
  {
    StreamRunStep(cross, common, name, stream, rs, p, count);
    PulledTrace(cross, common, name, stream, rs, p, count);
    StepKeepsExact(Pull(stream), StreamForks(cross, 0, common, name, rs[p], stream, rs, p + 1, count),
                   ValueForks(cross, 0, common, name, rs[p], count)
                     + StreamTrace(cross, common, name, stream, Pulled(rs, p + (|cross| + 1), |cross| + 1), count + |cross|),
                   StreamTrace(cross, common, name, stream, Pulled(rs, p, |cross| + 1), count), |rs| - (p + 1), |rs| - p);
  }

  /** A fork of the inner loop in front of the requests after it. */
  lemma ForkThenForks(cross: seq<seq<(string, Value)>>, j: nat, common: seq<(string, Value)>, name: string,
                      v: Value, stream: Value, rs: seq<Value>, p: nat, count: nat, later: seq<Request>)
    requires j < |cross| && p < |rs|
    requires StreamExact(StreamForks(cross, j + 1, common, name, v, stream, rs, p + 1, count + 1),
                         ValueForks(cross, j + 1, common, name, v, count + 1) + later, |rs| - (p + 1))
    ensures StreamExact(StreamForks(cross, j, common, name, v, stream, rs, p, count),
                        ValueForks(cross, j, common, name, v, count) + later, |rs| - p)
  {
    StreamForksStep(cross, j, common, name, v, stream, rs, p, count);
    ValueForksCons(cross, j, common, name, v, count, later);
    StepKeepsExact(OwedFork(cross[j], common, name, v, count),
                   StreamForks(cross, j + 1, common, name, v, stream, rs, p + 1, count + 1),
                   ValueForks(cross, j + 1, common, name, v, count + 1) + later,
                   ValueForks(cross, j, common, name, v, count) + later, |rs| - (p + 1), |rs| - p);
  }

  /** The stream loop from the `p`-th response with `count` forks made
      yields the closed-form trace of the values it pulls, every
      `|cross| + 1`-th response from `p` on up to None, as far as the
      responses reach. */
  lemma {:induction false} StreamRunExact(cross: seq<seq<(string, Value)>>, common: seq<(string, Value)>, name: string,
                                          stream: Value, rs: seq<Value>, p: nat, count: nat)
    requires p <= |rs|
    ensures StreamExact(StreamRun(cross, common, name, stream, rs, p, count),
                        StreamTrace(cross, common, name, stream, Pulled(rs, p, |cross| + 1), count), |rs| - p)
    decreases |rs| - p, 0, 0
  {
    if p < |rs| && !rs[p].Nil? {
      StreamForksExact(cross, 0, common, name, rs[p], stream, rs, p + 1, count, p + (|cross| + 1), count + |cross|);
      PullThenForks(cross, common, name, stream, rs, p, count);
    }
  }

  /** The forks of the value `v` from the `j`-th combination on, then the
      loop: they yield the rest of this value's forks, then the
      closed-form trace of the values pulled after it, the first at
      response `q` with number `c`. */
  lemma {:induction false} StreamForksExact(cross: seq<seq<(string, Value)>>, j: nat, common: seq<(string, Value)>, name: string,
                                            v: Value, stream: Value, rs: seq<Value>, p: nat, count: nat, q: nat, c: nat)
    requires j <= |cross| && p <= |rs|
    requires q == p + (|cross| - j) && c == count + (|cross| - j)
    ensures StreamExact(StreamForks(cross, j, common, name, v, stream, rs, p, count),
                        ValueForks(cross, j, common, name, v, count)
                          + StreamTrace(cross, common, name, stream, Pulled(rs, q, |cross| + 1), c),
                        |rs| - p)
    decreases |rs| - p, 1, |cross| - j
  {
    var later := StreamTrace(cross, common, name, stream, Pulled(rs, q, |cross| + 1), c);
    if j == |cross| {
      assert q == p && c == count;
      StreamRunExact(cross, common, name, stream, rs, p, count);
      assert ValueForks(cross, j, common, name, v, count) + later == later;
    } else {
      if p < |rs| {
        StreamForksExact(cross, j + 1, common, name, v, stream, rs, p + 1, count + 1, q, c);
        ForkThenForks(cross, j, common, name, v, stream, rs, p, count, later);
      } else {
        ValueForksCons(cross, j, common, name, v, count, later);
        WaitIsExact(OwedFork(cross[j], common, name, v, count), ValueForks(cross, j, common, name, v, count) + later);
      }
    }
  }

  /** The loop returns exactly when None has been pulled: the response at
      `e`, just after the last value's forks, is there and is None. Then it
      has made one pull and one fork per combination for each value, and
      the last pull. */
  lemma StreamRunEnds(cross: seq<seq<(string, Value)>>, common: seq<(string, Value)>, name: string,
                      stream: Value, rs: seq<Value>, p: nat, count: nat)
    requires p <= |rs|
    ensures var vs := Pulled(rs, p, |cross| + 1);
            var e := p + |vs| * (|cross| + 1);
            var r := StreamRun(cross, common, name, stream, rs, p, count);
            && (r.status.Finished? <==> e < |rs|)
            && (e < |rs| ==> rs[e].Nil?)
            && (r.status.Finished? ==> |r.trace| == |vs| * (|cross| + 1) + 1)
            && (!r.status.Finished? ==> r.status.Suspended? && |r.trace| == |rs| - p + 1)
  {
    var vs := Pulled(rs, p, |cross| + 1);
    StreamRunExact(cross, common, name, stream, rs, p, count);
    StreamTraceLength(cross, common, name, stream, vs, count);
    PulledEnd(rs, p, |cross| + 1);
  }

  // ------------------------------------------------------------ resolution

  /** The `get_stream` requests of the stream-valued inputs from the
      `i`-th on, in declaration order. */
  function HandleRequests(specs: seq<InputSpec>, i: nat): (r: seq<Request>)
    requires i <= |specs|
    ensures forall q :: q in r ==> q.GetStream?
    decreases |specs| - i
  {
    if i == |specs| then []
    else
      var s := specs[i];
      (if s.value.Stream? then [GetStream(s.value.spec.node, s.value.spec.name)] else []) + HandleRequests(specs, i + 1)
  }

  /** The inputs of kind `k` from the `i`-th on, in declaration order. */
  function OfKind(specs: seq<InputSpec>, i: nat, k: Kind): seq<InputSpec>
    requires i <= |specs|
    decreases |specs| - i
  {
    if i == |specs| then [] else (if KindOf(specs[i]) == k then [specs[i]] else []) + OfKind(specs, i + 1, k)
  }

  function SpecNames(ss: seq<InputSpec>): seq<string>
  {
    seq(|ss|, k requires 0 <= k < |ss| => ss[k].name)
  }

  /** Each input bound to its own value. */
  function Bindings(ss: seq<InputSpec>): seq<(string, Value)>
  {
    seq(|ss|, k requires 0 <= k < |ss| => (ss[k].name, ss[k].value))
  }

  function BoundNames(ps: seq<(string, Value)>): seq<string>
  {
    seq(|ps|, k requires 0 <= k < |ps| => ps[k].0)
  }

  lemma BoundNamesAppend(ps: seq<(string, Value)>, x: (string, Value))
    ensures BoundNames(ps + [x]) == BoundNames(ps) + [x.0]
  {
  }

  /** The buckets after resolving the inputs from the `i`-th on, the
      stream-valued ones taking the responses from `rs[p]` on. */
  function Resolved(specs: seq<InputSpec>, i: nat, rs: seq<Value>, p: nat, b: Buckets): Buckets
    requires i <= |specs| && p + |HandleRequests(specs, i)| <= |rs|
    decreases |specs| - i
  {
    if i == |specs| then b
    else
      var s := specs[i];
      if s.value.Stream? then Resolved(specs, i + 1, rs, p + 1, Place(b, s, rs[p]))
      else Resolved(specs, i + 1, rs, p, Place(b, s, s.value))
  }

  /** One input placed: a stream-valued one takes the next response. */
  lemma ResolvedStep(specs: seq<InputSpec>, i: nat, rs: seq<Value>, p: nat, b: Buckets)
    requires i < |specs| && p + |HandleRequests(specs, i)| <= |rs|
    ensures var s := specs[i];
            var q := if s.value.Stream? then p + 1 else p;
            && q + |HandleRequests(specs, i + 1)| <= |rs|
            && Resolved(specs, i, rs, p, b)
               == Resolved(specs, i + 1, rs, q, Place(b, s, if s.value.Stream? then rs[p] else s.value))
  {
  }

  /** The bucket of kind `k`. */
  function Bucket(b: Buckets, k: Kind): seq<(string, Value)>
  {
    match k
    case Common => b.common
    case ForeachPlain => b.plain
    case ForeachStream => b.streams
  }

  lemma SpecNamesCons(s: InputSpec, ss: seq<InputSpec>)
    ensures SpecNames([s] + ss) == [s.name] + SpecNames(ss)
  {
  }

  /** Placing an input changes only the bucket of its kind, by appending to it. */
  lemma PlaceBucket(b: Buckets, s: InputSpec, v: Value, k: Kind)
    ensures Bucket(Place(b, s, v), k) == Bucket(b, k) + (if KindOf(s) == k then [(s.name, v)] else [])
  {
  }

  /** The inputs of kind `k` keep their declaration order in their bucket. */
  lemma {:induction false} ResolvedNames(specs: seq<InputSpec>, i: nat, rs: seq<Value>, p: nat, b: Buckets, k: Kind)
    requires i <= |specs| && p + |HandleRequests(specs, i)| <= |rs|
    ensures BoundNames(Bucket(Resolved(specs, i, rs, p, b), k)) == BoundNames(Bucket(b, k)) + SpecNames(OfKind(specs, i, k))
    decreases |specs| - i
  {
    if i < |specs| {
      var s := specs[i];
      var v := if s.value.Stream? then rs[p] else s.value;
      var q := if s.value.Stream? then p + 1 else p;
      var rest := OfKind(specs, i + 1, k);
      var b' := Place(b, s, v);
      var names := BoundNames(Bucket(b, k));
      ResolvedStep(specs, i, rs, p, b);
      assert Resolved(specs, i, rs, p, b) == Resolved(specs, i + 1, rs, q, b');
      ResolvedNames(specs, i + 1, rs, q, b', k);
      assert BoundNames(Bucket(Resolved(specs, i, rs, p, b), k)) == BoundNames(Bucket(b', k)) + SpecNames(rest);
      PlaceBucket(b, s, v, k);
      if KindOf(s) == k {
        BoundNamesAppend(Bucket(b, k), (s.name, v));
        assert BoundNames(Bucket(b', k)) == names + [s.name];
        assert OfKind(specs, i, k) == [s] + rest;
        SpecNamesCons(s, rest);
        assert (names + [s.name]) + SpecNames(rest) == names + ([s.name] + SpecNames(rest));
      } else {
        assert Bucket(b', k) == Bucket(b, k);
        assert OfKind(specs, i, k) == rest;
      }
    }
  }

  /** A plain foreach input goes to its bucket with its own value. */
  lemma {:induction false} ResolvedPlain(specs: seq<InputSpec>, i: nat, rs: seq<Value>, p: nat, b: Buckets)
    requires i <= |specs| && p + |HandleRequests(specs, i)| <= |rs|
    ensures Resolved(specs, i, rs, p, b).plain == b.plain + Bindings(OfKind(specs, i, ForeachPlain))
    decreases |specs| - i
  {
    if i < |specs| {
      var s := specs[i];
      var v := if s.value.Stream? then rs[p] else s.value;
      var q := if s.value.Stream? then p + 1 else p;
      ResolvedPlain(specs, i + 1, rs, q, Place(b, s, v));
      ResolvedStep(specs, i, rs, p, b);
      if KindOf(s) == ForeachPlain {
        assert Bindings([s] + OfKind(specs, i + 1, ForeachPlain)) == [(s.name, s.value)] + Bindings(OfKind(specs, i + 1, ForeachPlain));
      } else {
        assert Place(b, s, v).plain == b.plain;
      }
    }
  }

  /** The number of stream-valued inputs before the `k`-th: the responses
      resolution has used when it reaches it. */
  function HandlesBefore(specs: seq<InputSpec>, k: nat): nat
    requires k <= |specs|
  {
    if k == 0 then 0 else HandlesBefore(specs, k - 1) + (if specs[k - 1].value.Stream? then 1 else 0)
  }

  /** The handle requests from the `k`-th input on are those after the
      first `HandlesBefore(specs, k)`. */
  lemma {:induction false} HandleSuffix(specs: seq<InputSpec>, k: nat)
    requires k <= |specs|
    ensures HandlesBefore(specs, k) + |HandleRequests(specs, k)| == |HandleRequests(specs, 0)|
    ensures HandleRequests(specs, 0)[HandlesBefore(specs, k)..] == HandleRequests(specs, k)
  {
    if k > 0 {
      HandleSuffix(specs, k - 1);
      var all, before, h := HandleRequests(specs, 0), HandlesBefore(specs, k - 1),
                            if specs[k - 1].value.Stream? then 1 else 0;
      var here, next := HandleRequests(specs, k - 1), HandleRequests(specs, k);
      assert |here| == h + |next| && here[h..] == next;
      assert HandlesBefore(specs, k) == before + h;
      assert all[before + h..] == all[before..][h..];
    }
  }

  /** The `get_stream` request whose response a stream-valued input takes
      is its own. */
  lemma OwnHandleRequest(specs: seq<InputSpec>, k: nat)
    requires k < |specs| && specs[k].value.Stream?
    ensures HandlesBefore(specs, k) < |HandleRequests(specs, 0)|
    ensures HandleRequests(specs, 0)[HandlesBefore(specs, k)]
         == GetStream(specs[k].value.spec.node, specs[k].value.spec.name)
  {
    HandleSuffix(specs, k);
    assert HandleRequests(specs, 0)[HandlesBefore(specs, k)] == HandleRequests(specs, k)[0];
  }

  /** The value the `k`-th input is bound to: the response to its own
      `get_stream` when it is stream-valued, its own value otherwise. */
  function BoundValue(specs: seq<InputSpec>, rs: seq<Value>, k: nat): Value
    requires k < |specs| && |HandleRequests(specs, 0)| <= |rs|
  {
    if specs[k].value.Stream? then
      OwnHandleRequest(specs, k);
      rs[HandlesBefore(specs, k)]
    else specs[k].value
  }

  /** The inputs of kind `kind` from the `i`-th on, each bound to its
      value, in declaration order. */
  function BoundOfKind(specs: seq<InputSpec>, rs: seq<Value>, i: nat, kind: Kind): seq<(string, Value)>
    requires i <= |specs| && |HandleRequests(specs, 0)| <= |rs|
    decreases |specs| - i
  {
    if i == |specs| then []
    else (if KindOf(specs[i]) == kind then [(specs[i].name, BoundValue(specs, rs, i))] else [])
         + BoundOfKind(specs, rs, i + 1, kind)
  }

  /** Every bucket holds the inputs of its kind, in declaration order, each
      bound to the response to its own `get_stream` or to its own value. */
  lemma {:induction false} ResolvedValues(specs: seq<InputSpec>, i: nat, rs: seq<Value>, p: nat, b: Buckets, kind: Kind)
    requires i <= |specs| && |HandleRequests(specs, 0)| <= |rs| && p == HandlesBefore(specs, i)
    ensures p + |HandleRequests(specs, i)| <= |rs|
    ensures Bucket(Resolved(specs, i, rs, p, b), kind) == Bucket(b, kind) + BoundOfKind(specs, rs, i, kind)
    decreases |specs| - i
  {
    HandleSuffix(specs, i);
    if i < |specs| {
      var s, v, q := specs[i], BoundValue(specs, rs, i), HandlesBefore(specs, i + 1);
      var here := if KindOf(s) == kind then [(s.name, v)] else [];
      ResolvedPlace(specs, i, rs, p, b);
      ResolvedValues(specs, i + 1, rs, q, Place(b, s, v), kind);
      PlaceBucket(b, s, v, kind);
      assert BoundOfKind(specs, rs, i, kind) == here + BoundOfKind(specs, rs, i + 1, kind);
      assert (Bucket(b, kind) + here) + BoundOfKind(specs, rs, i + 1, kind)
          == Bucket(b, kind) + BoundOfKind(specs, rs, i, kind);
    }
  }

  /** Resolution of the `i`-th input places it with its bound value. */
  lemma ResolvedPlace(specs: seq<InputSpec>, i: nat, rs: seq<Value>, p: nat, b: Buckets)
    requires i < |specs| && |HandleRequests(specs, 0)| <= |rs| && p == HandlesBefore(specs, i)
    ensures p + |HandleRequests(specs, i)| <= |rs|
    ensures HandlesBefore(specs, i + 1) + |HandleRequests(specs, i + 1)| <= |rs|
    ensures Resolved(specs, i, rs, p, b)
         == Resolved(specs, i + 1, rs, HandlesBefore(specs, i + 1), Place(b, specs[i], BoundValue(specs, rs, i)))
  {
    HandleSuffix(specs, i);
    HandleSuffix(specs, i + 1);
    ResolvedStep(specs, i, rs, p, b);
  }

  /** Every input lands in the bucket of its kind, in declaration order,
      and a plain foreach input keeps its own value. */
  lemma ResolvedBuckets(specs: seq<InputSpec>, i: nat, rs: seq<Value>, p: nat, b: Buckets)
    requires i <= |specs| && p + |HandleRequests(specs, i)| <= |rs|
    ensures Resolved(specs, i, rs, p, b).plain == b.plain + Bindings(OfKind(specs, i, ForeachPlain))
    ensures BoundNames(Resolved(specs, i, rs, p, b).streams) == BoundNames(b.streams) + SpecNames(OfKind(specs, i, ForeachStream))
    ensures BoundNames(Resolved(specs, i, rs, p, b).common) == BoundNames(b.common) + SpecNames(OfKind(specs, i, Common))
    ensures |HandleRequests(specs, 0)| <= |rs| && p == HandlesBefore(specs, i) ==>
              && Resolved(specs, i, rs, p, b).common == b.common + BoundOfKind(specs, rs, i, Common)
              && Resolved(specs, i, rs, p, b).streams == b.streams + BoundOfKind(specs, rs, i, ForeachStream)
  {
    ResolvedPlain(specs, i, rs, p, b);
    ResolvedNames(specs, i, rs, p, b, ForeachStream);
    ResolvedNames(specs, i, rs, p, b, Common);
    if |HandleRequests(specs, 0)| <= |rs| && p == HandlesBefore(specs, i) {
      ResolvedValues(specs, i, rs, p, b, Common);
      ResolvedValues(specs, i, rs, p, b, ForeachStream);
    }
  }

  /** Resolution from the first input binds the common inputs and the
      foreach streams to their values and the plain foreach inputs to their
      own values, each bucket in declaration order. */
  lemma ResolvedFromStart(specs: seq<InputSpec>, rs: seq<Value>)
    requires |HandleRequests(specs, 0)| <= |rs|
    ensures Resolved(specs, 0, rs, 0, Buckets([], [], []))
         == Buckets(BoundOfKind(specs, rs, 0, Common), Bindings(OfKind(specs, 0, ForeachPlain)),
                    BoundOfKind(specs, rs, 0, ForeachStream))
  {
    ResolvedBuckets(specs, 0, rs, 0, Buckets([], [], []));
  }

  lemma ThenThen(a: seq<Request>, b: seq<Request>, r: Run)
    ensures Then(a, Then(b, r)) == Then(a + b, r)
  {
    assert a + (b + r.trace) == (a + b) + r.trace;
  }

  /** One stream-valued input resolved: its handle is requested and the
      response becomes its value. */
  lemma ResolveStreamStep(specs: seq<InputSpec>, i: nat, body: (map<string, Value>, seq<Value>) -> Option<Value>,
                          rs: seq<Value>, p: nat, b: Buckets)
    requires i < |specs| && p < |rs| && specs[i].value.Stream?
    ensures ResolveRun(specs, i, body, rs, p, b)
         == Then([GetStream(specs[i].value.spec.node, specs[i].value.spec.name)],
                 ResolveRun(specs, i + 1, body, rs, p + 1, Place(b, specs[i], rs[p])))
  {
  }

  /** One input that is neither a stream nor a node resolved to its own value. */
  lemma ResolveValueStep(specs: seq<InputSpec>, i: nat, body: (map<string, Value>, seq<Value>) -> Option<Value>,
                         rs: seq<Value>, p: nat, b: Buckets)
    requires i < |specs| && p <= |rs| && !specs[i].value.Stream? && !specs[i].value.NodeRef?
    ensures ResolveRun(specs, i, body, rs, p, b) == ResolveRun(specs, i + 1, body, rs, p, Place(b, specs[i], specs[i].value))
  {
  }

  /** With no node given as a value and a response for each stream-valued
      input, resolution issues one `get_stream` per stream-valued input, in
      declaration order and before anything else, and then goes on with
      the resolved buckets. */
  lemma {:induction false} ResolveSplits(specs: seq<InputSpec>, i: nat, body: (map<string, Value>, seq<Value>) -> Option<Value>,
                                         rs: seq<Value>, p: nat, b: Buckets)
    requires i <= |specs| && p + |HandleRequests(specs, i)| <= |rs|
    requires forall k :: i <= k < |specs| ==> !specs[k].value.NodeRef?
    ensures ResolveRun(specs, i, body, rs, p, b)
         == Then(HandleRequests(specs, i), AfterResolve(body, Resolved(specs, i, rs, p, b), rs, p + |HandleRequests(specs, i)|))
    decreases |specs| - i
  {
    if i < |specs| {
      var s := specs[i];
      if s.value.Stream? {
        var q := GetStream(s.value.spec.node, s.value.spec.name);
        var b' := Place(b, s, rs[p]);
        var h' := HandleRequests(specs, i + 1);
        var a := AfterResolve(body, Resolved(specs, i + 1, rs, p + 1, b'), rs, p + 1 + |h'|);
        assert HandleRequests(specs, i) == [q] + h';
        assert Resolved(specs, i, rs, p, b) == Resolved(specs, i + 1, rs, p + 1, b');
        calc {
          ResolveRun(specs, i, body, rs, p, b);
        == { ResolveStreamStep(specs, i, body, rs, p, b); }
          Then([q], ResolveRun(specs, i + 1, body, rs, p + 1, b'));
        == { ResolveSplits(specs, i + 1, body, rs, p + 1, b'); }
          Then([q], Then(h', a));
        == { ThenThen([q], h', a); }
          Then([q] + h', a);
        }
      } else {
        var b' := Place(b, s, s.value);
        ResolveValueStep(specs, i, body, rs, p, b);
        ResolveSplits(specs, i + 1, body, rs, p, b');
        assert HandleRequests(specs, i) == HandleRequests(specs, i + 1);
        assert Resolved(specs, i, rs, p, b) == Resolved(specs, i + 1, rs, p, b');
      }
    }
  }

  /** With no node given as a value and fewer responses than stream-valued
      inputs, resolution waits: it has made the handle requests up to the
      first one without a response, and nothing else. */
  lemma {:induction false} ResolveWaits(specs: seq<InputSpec>, i: nat, body: (map<string, Value>, seq<Value>) -> Option<Value>,
                                        rs: seq<Value>, p: nat, b: Buckets)
    requires i <= |specs| && p <= |rs| && |rs| - p < |HandleRequests(specs, i)|
    requires forall k :: i <= k < |specs| ==> !specs[k].value.NodeRef?
    ensures ResolveRun(specs, i, body, rs, p, b) == Run(HandleRequests(specs, i)[..|rs| - p + 1], Suspended)
    decreases |specs| - i
  {
    var s := specs[i];
    var h' := HandleRequests(specs, i + 1);
    if s.value.Stream? {
      var q := GetStream(s.value.spec.node, s.value.spec.name);
      assert HandleRequests(specs, i) == [q] + h';
      if p < |rs| {
        var b' := Place(b, s, rs[p]);
        ResolveStreamStep(specs, i, body, rs, p, b);
        ResolveWaits(specs, i + 1, body, rs, p + 1, b');
        assert ([q] + h')[..|rs| - p + 1] == [q] + h'[..|rs| - (p + 1) + 1];
      }
    } else {
      ResolveValueStep(specs, i, body, rs, p, b);
      assert HandleRequests(specs, i) == h';
      ResolveWaits(specs, i + 1, body, rs, p, Place(b, s, s.value));
    }
  }

  /** A node given as the value of the `k`-th input fails the assertion
      once the stream-valued inputs before it have been requested. */
  lemma {:induction false} ResolveRefusesNode(specs: seq<InputSpec>, i: nat, body: (map<string, Value>, seq<Value>) -> Option<Value>,
                                              rs: seq<Value>, p: nat, b: Buckets, k: nat)
    requires i <= k < |specs| && specs[k].value.NodeRef?
    requires forall j :: i <= j < k ==> !specs[j].value.NodeRef?
    requires p + |HandleRequests(specs[..k], i)| <= |rs|
    ensures ResolveRun(specs, i, body, rs, p, b) == Run(HandleRequests(specs[..k], i), Failed(BareNodeInput(specs[k].name)))
    decreases k - i
  {
    if i < k {
      var s := specs[i];
      assert specs[..k][i] == s;
      if s.value.Stream? {
        ResolveRefusesNode(specs, i + 1, body, rs, p + 1, Place(b, s, rs[p]), k);
      } else {
        ResolveRefusesNode(specs, i + 1, body, rs, p, Place(b, s, s.value), k);
      }
    }
  }

  /** Some foreach input makes one of the foreach buckets non-empty. */
  lemma {:induction false} KindsOfForeach(specs: seq<InputSpec>, i: nat)
    requires i <= |specs|
    ensures (forall k :: i <= k < |specs| ==> !specs[k].foreach) <==>
            OfKind(specs, i, ForeachPlain) == [] && OfKind(specs, i, ForeachStream) == []
    decreases |specs| - i
  {
    if i < |specs| {
      KindsOfForeach(specs, i + 1);
    }
  }

  // -------------------------------------------------------------- protocol

  lemma FanoutAnswered(b: Buckets, rs: seq<Value>, p: nat)
    requires p <= |rs|
    ensures Answered(Fanout(b, rs, p), |rs| - p)
  {
    var axes := Axes(b.plain);
    if axes.Ok? {
      var cross := Cross.Product(axes.value);
      if b.streams == [] {
        PlainForksTrace(cross, 0, b.common, rs, p);
      } else if |b.streams| == 1 {
        StreamRunExact(cross, b.common, b.streams[0].0, b.streams[0].1, rs, p, 0);
      }
    }
  }

  lemma AfterResolveAnswered(body: (map<string, Value>, seq<Value>) -> Option<Value>, b: Buckets, rs: seq<Value>, p: nat)
    requires p <= |rs|
    ensures Answered(AfterResolve(body, b, rs, p), |rs| - p)
  {
    if b.plain == [] && b.streams == [] {
      RelayOnlyRelays(body, Cross.Dict(b.common), rs, p, p);
    } else if p < |rs| {
      FanoutAnswered(b, rs, p + 1);
    }
  }

  lemma {:induction false} ResolveAnswered(specs: seq<InputSpec>, i: nat, body: (map<string, Value>, seq<Value>) -> Option<Value>,
                                           rs: seq<Value>, p: nat, b: Buckets)
    requires i <= |specs| && p <= |rs|
    ensures Answered(ResolveRun(specs, i, body, rs, p, b), |rs| - p)
    decreases |specs| - i
  {
    if i == |specs| {
      AfterResolveAnswered(body, b, rs, p);
    } else {
      var s := specs[i];
      if s.value.Stream? && p < |rs| {
        ResolveAnswered(specs, i + 1, body, rs, p + 1, Place(b, s, rs[p]));
      } else if !s.value.NodeRef? && !s.value.Stream? {
        ResolveAnswered(specs, i + 1, body, rs, p, Place(b, s, s.value));
      }
    }
  }

  /** The driver protocol: every request `invoke` yields receives exactly
      one response before the next is yielded, so a suspended invocation
      has yielded one request more than the responses it was given, and a
      finished or failed one has used at most those. */
  lemma InvokeAnswered(specs: seq<InputSpec>, body: (map<string, Value>, seq<Value>) -> Option<Value>,
                       inputs: Option<map<string, Value>>, rs: seq<Value>)
    ensures Answered(InvokeRun(specs, body, inputs, rs), |rs|)
  {
    if inputs.Some? {
      RelayOnlyRelays(body, inputs.value, rs, 0, 0);
    } else {
      ResolveAnswered(specs, 0, body, rs, 0, Buckets([], [], []));
    }
  }

  // ------------------------------------------------------- whole invocations

  /** With no node given as a value, `invoke()` first requests the handle
      of each stream-valued input, in declaration order, then goes on with
      the resolved inputs. */
  lemma InvokeResolvesFirst(specs: seq<InputSpec>, body: (map<string, Value>, seq<Value>) -> Option<Value>, rs: seq<Value>)
    requires forall k :: 0 <= k < |specs| ==> !specs[k].value.NodeRef?
    requires |HandleRequests(specs, 0)| <= |rs|
    ensures InvokeRun(specs, body, None, rs)
         == Then(HandleRequests(specs, 0),
                 AfterResolve(body, Resolved(specs, 0, rs, 0, Buckets([], [], [])), rs, |HandleRequests(specs, 0)|))
  {
    ResolveSplits(specs, 0, body, rs, 0, Buckets([], [], []));
  }

  /** Some foreach input leaves a plain or a stream foreach bucket
      non-empty after resolution. */
  lemma ForeachFillsBuckets(specs: seq<InputSpec>, rs: seq<Value>)
    requires |HandleRequests(specs, 0)| <= |rs|
    requires exists k :: 0 <= k < |specs| && specs[k].foreach
    ensures var b := Resolved(specs, 0, rs, 0, Buckets([], [], []));
            b.plain != [] || b.streams != []
  {
    var b := Resolved(specs, 0, rs, 0, Buckets([], [], []));
    ResolvedPlain(specs, 0, rs, 0, Buckets([], [], []));
    ResolvedNames(specs, 0, rs, 0, Buckets([], [], []), ForeachStream);
    KindsOfForeach(specs, 0);
    assert |Bindings(OfKind(specs, 0, ForeachPlain))| == |OfKind(specs, 0, ForeachPlain)|;
    assert |BoundNames(b.streams)| == |b.streams|;
  }

  /** Without inputs and without bare nodes, an invocation that has fewer
      responses than handle requests waits on the first handle without a
      response; one that has exactly the handles' responses and some foreach
      input waits on the logger. */
  lemma InvokeWaits(specs: seq<InputSpec>, body: (map<string, Value>, seq<Value>) -> Option<Value>, rs: seq<Value>)
    requires forall k :: 0 <= k < |specs| ==> !specs[k].value.NodeRef?
    requires |rs| <= |HandleRequests(specs, 0)|
    ensures |rs| < |HandleRequests(specs, 0)| ==>
              InvokeRun(specs, body, None, rs) == Run(HandleRequests(specs, 0)[..|rs| + 1], Suspended)
    ensures |rs| == |HandleRequests(specs, 0)| && (exists k :: 0 <= k < |specs| && specs[k].foreach) ==>
              InvokeRun(specs, body, None, rs) == Run(HandleRequests(specs, 0) + [GetLogger], Suspended)
  {
    var h := HandleRequests(specs, 0);
    if |rs| < |h| {
      ResolveWaits(specs, 0, body, rs, 0, Buckets([], [], []));
    } else if exists k :: 0 <= k < |specs| && specs[k].foreach {
      ForeachFillsBuckets(specs, rs);
      ResolveSplits(specs, 0, body, rs, 0, Buckets([], [], []));
    }
  }

  /** An input whose value is a node, not a stream, fails the assertion
      after the handles of the stream-valued inputs declared before it. */
  lemma InvokeRefusesNode(specs: seq<InputSpec>, body: (map<string, Value>, seq<Value>) -> Option<Value>,
                          rs: seq<Value>, k: nat)
    requires k < |specs| && specs[k].value.NodeRef?
    requires forall j :: 0 <= j < k ==> !specs[j].value.NodeRef?
    requires |HandleRequests(specs[..k], 0)| <= |rs|
    ensures InvokeRun(specs, body, None, rs) == Run(HandleRequests(specs[..k], 0), Failed(BareNodeInput(specs[k].name)))
  {
    ResolveRefusesNode(specs, 0, body, rs, 0, Buckets([], [], []), k);
  }

  /** Without foreach inputs `invoke()` never forks: after the handles it
      runs the routine on the resolved inputs and relays its requests. */
  lemma InvokeWithoutForeachRelays(specs: seq<InputSpec>, body: (map<string, Value>, seq<Value>) -> Option<Value>,
                                   rs: seq<Value>)
    requires forall k :: 0 <= k < |specs| ==> !specs[k].value.NodeRef? && !specs[k].foreach
    requires |HandleRequests(specs, 0)| <= |rs|
    ensures var m := |HandleRequests(specs, 0)|;
            var common := Resolved(specs, 0, rs, 0, Buckets([], [], [])).common;
            && common == BoundOfKind(specs, rs, 0, Common)
            && InvokeRun(specs, body, None, rs) == Then(HandleRequests(specs, 0), RelayFrom(body, Cross.Dict(common), rs, m, m))
    ensures forall q :: q in InvokeRun(specs, body, None, rs).trace ==> q.GetStream? || q.Relayed?
  {
    ResolvedFromStart(specs, rs);
    var m := |HandleRequests(specs, 0)|;
    var b := Resolved(specs, 0, rs, 0, Buckets([], [], []));
    ResolveSplits(specs, 0, body, rs, 0, Buckets([], [], []));
    ResolvedBuckets(specs, 0, rs, 0, Buckets([], [], []));
    KindsOfForeach(specs, 0);
    assert |BoundNames(b.streams)| == 0;
    RelayOnlyRelays(body, Cross.Dict(b.common), rs, m, m);
  }

  /** The forks yielded in front of the fan-out: none. */
  lemma ForksOfResolution(specs: seq<InputSpec>)
    ensures Forks(HandleRequests(specs, 0) + [GetLogger]) == []
    ensures PullCount(HandleRequests(specs, 0) + [GetLogger]) == 0
  {
    NoForksNoPulls(HandleRequests(specs, 0) + [GetLogger]);
  }

  lemma {:induction false} NoForksNoPulls(t: seq<Request>)
    requires forall q :: q in t ==> q.GetStream? || q.GetLogger?
    ensures Forks(t) == [] && PullCount(t) == 0
  {
    if t != [] {
      assert t[0] in t;
      assert forall q :: q in t[1..] ==> q in t;
      NoForksNoPulls(t[1..]);
    }
  }

  /** After the handles, foreach inputs make `invoke()` request the logger
      and fan out over the resolved buckets. */
  lemma InvokeFansOut(specs: seq<InputSpec>, body: (map<string, Value>, seq<Value>) -> Option<Value>, rs: seq<Value>)
    requires forall k :: 0 <= k < |specs| ==> !specs[k].value.NodeRef?
    requires exists k :: 0 <= k < |specs| && specs[k].foreach
    requires |HandleRequests(specs, 0)| < |rs|
    ensures var m := |HandleRequests(specs, 0)|;
            var b := Resolved(specs, 0, rs, 0, Buckets([], [], []));
            && b.plain == Bindings(OfKind(specs, 0, ForeachPlain))
            && |b.streams| == |OfKind(specs, 0, ForeachStream)|
            && InvokeRun(specs, body, None, rs) == Then(HandleRequests(specs, 0) + [GetLogger], Fanout(b, rs, m + 1))
  {
    var h := HandleRequests(specs, 0);
    var e := Buckets([], [], []);
    var b := Resolved(specs, 0, rs, 0, e);
    ResolvedPlain(specs, 0, rs, 0, e);
    ResolvedNames(specs, 0, rs, 0, e, ForeachStream);
    assert |BoundNames(b.streams)| == |b.streams|;
    ForeachFillsBuckets(specs, rs);
    ResolveSplits(specs, 0, body, rs, 0, e);
    var f := Fanout(b, rs, |h| + 1);
    assert AfterResolve(body, b, rs, |h|) == Then([GetLogger], f);
    ThenThen(h, [GetLogger], f);
  }

  /** Plain fan-out of a whole invocation: the handles, exactly one logger
      request, then exactly one fork per combination of the foreach values,
      labelled "0", "1", ... in product order, and the invocation returns. */
  lemma InvokePlainFanout(specs: seq<InputSpec>, body: (map<string, Value>, seq<Value>) -> Option<Value>, rs: seq<Value>)
    requires forall k :: 0 <= k < |specs| ==> !specs[k].value.NodeRef?
    requires OfKind(specs, 0, ForeachStream) == [] && OfKind(specs, 0, ForeachPlain) != []
    requires Axes(Bindings(OfKind(specs, 0, ForeachPlain))).Ok?
    requires |HandleRequests(specs, 0)| + 1 + Cross.Size(Axes(Bindings(OfKind(specs, 0, ForeachPlain))).value) <= |rs|
    ensures var axes := Axes(Bindings(OfKind(specs, 0, ForeachPlain))).value;
            var common := Resolved(specs, 0, rs, 0, Buckets([], [], [])).common;
            var forks := PlainForkRequests(Cross.Product(axes), common);
            && common == BoundOfKind(specs, rs, 0, Common)
            && InvokeRun(specs, body, None, rs) == Run(HandleRequests(specs, 0) + [GetLogger] + forks, Finished)
  {
    ResolvedFromStart(specs, rs);
    var b := Resolved(specs, 0, rs, 0, Buckets([], [], []));
    KindsOfForeach(specs, 0);
    InvokeFansOut(specs, body, rs);
    PlainFanout(b, rs, |HandleRequests(specs, 0)| + 1);
  }

  /** Two or more foreach streams fail the assertion right after the
      logger request. */
  lemma InvokeRefusesSecondStream(specs: seq<InputSpec>, body: (map<string, Value>, seq<Value>) -> Option<Value>, rs: seq<Value>)
    requires forall k :: 0 <= k < |specs| ==> !specs[k].value.NodeRef?
    requires |OfKind(specs, 0, ForeachStream)| >= 2
    requires Axes(Bindings(OfKind(specs, 0, ForeachPlain))).Ok?
    requires |HandleRequests(specs, 0)| < |rs|
    ensures InvokeRun(specs, body, None, rs)
         == Run(HandleRequests(specs, 0) + [GetLogger], Failed(StreamCount(|OfKind(specs, 0, ForeachStream)|)))
  {
    KindsOfForeach(specs, 0);
    InvokeFansOut(specs, body, rs);
  }

  /** A plain foreach value that cannot be iterated fails right after the
      logger request, naming the first such input. */
  lemma InvokeRefusesNonIterable(specs: seq<InputSpec>, body: (map<string, Value>, seq<Value>) -> Option<Value>, rs: seq<Value>)
    requires forall k :: 0 <= k < |specs| ==> !specs[k].value.NodeRef?
    requires Axes(Bindings(OfKind(specs, 0, ForeachPlain))).Err?
    requires |HandleRequests(specs, 0)| < |rs|
    ensures InvokeRun(specs, body, None, rs)
         == Run(HandleRequests(specs, 0) + [GetLogger], Failed(Axes(Bindings(OfKind(specs, 0, ForeachPlain))).error))
    ensures Axes(Bindings(OfKind(specs, 0, ForeachPlain))).error.NotIterable?
  {
    var plain := OfKind(specs, 0, ForeachPlain);
    assert Bindings(plain) != [];
    assert plain != [] && plain[0] in plain;
    KindsOfForeach(specs, 0);
    InvokeFansOut(specs, body, rs);
  }

  /** Stream fan-out of a whole invocation with exactly one foreach stream:
      after the handles and the logger request comes the stream loop on the
      handle the driver gave for that input. Its requests are pulls of that
      handle and forks; the forks are a prefix of those owed for the values
      pulled (every `|cross| + 1`-th response up to None): for each value in
      turn one fork per combination of the plain foreach values, labelled by
      one counter from "0", binding the stream input to the value on top of
      the combination and the common inputs; once None has been pulled they
      are all of them. The requests of the loop are exactly those of the
      closed-form trace, each value's pull followed by its forks, as far as
      the responses reach. The invocation does not fail. */
  lemma InvokeStreamFanout(specs: seq<InputSpec>, body: (map<string, Value>, seq<Value>) -> Option<Value>, rs: seq<Value>)
    requires forall k :: 0 <= k < |specs| ==> !specs[k].value.NodeRef?
    requires |OfKind(specs, 0, ForeachStream)| == 1
    requires Axes(Bindings(OfKind(specs, 0, ForeachPlain))).Ok?
    requires |HandleRequests(specs, 0)| < |rs|
    ensures var m := |HandleRequests(specs, 0)|;
            var b := Resolved(specs, 0, rs, 0, Buckets([], [], []));
            var cross := Cross.Product(Axes(Bindings(OfKind(specs, 0, ForeachPlain))).value);
            var r := InvokeRun(specs, body, None, rs);
            && b.plain == Bindings(OfKind(specs, 0, ForeachPlain))
            && |b.streams| == 1 && b.streams[0].0 == OfKind(specs, 0, ForeachStream)[0].name
            && b.common == BoundOfKind(specs, rs, 0, Common) && b.streams == BoundOfKind(specs, rs, 0, ForeachStream)
            && var s := StreamRun(cross, b.common, b.streams[0].0, b.streams[0].1, rs, m + 1, 0);
               && r == Then(HandleRequests(specs, 0) + [GetLogger], s)
               && Forks(r.trace) == Forks(s.trace)
               && StreamExact(s, StreamTrace(cross, b.common, b.streams[0].0, b.streams[0].1, Pulled(rs, m + 1, |cross| + 1), 0),
                              |rs| - (m + 1))
               && StreamPromise(s, StreamForkRequests(cross, b.common, b.streams[0].0, Pulled(rs, m + 1, |cross| + 1), 0),
                                b.streams[0].1, |rs| - (m + 1))
  {
    var m := |HandleRequests(specs, 0)|;
    var b := Resolved(specs, 0, rs, 0, Buckets([], [], []));
    assert OfKind(specs, 0, ForeachStream)[0] in OfKind(specs, 0, ForeachStream);
    KindsOfForeach(specs, 0);
    InvokeFansOut(specs, body, rs);
    ResolvedBuckets(specs, 0, rs, 0, Buckets([], [], []));
    assert BoundNames(b.streams)[0] == b.streams[0].0;
    StreamFanout(b, rs, m + 1);
    var s := Fanout(b, rs, m + 1);
    ForksOfResolution(specs);
    ForksConcat(HandleRequests(specs, 0) + [GetLogger], s.trace);
  }

  /** With one foreach stream the fan-out is the pull loop on that stream,
      and it keeps the stream promise. */
  lemma StreamFanout(b: Buckets, rs: seq<Value>, p: nat)
    requires |b.streams| == 1 && Axes(b.plain).Ok? && p <= |rs|
    ensures var cross := Cross.Product(Axes(b.plain).value);
            var s := StreamRun(cross, b.common, b.streams[0].0, b.streams[0].1, rs, p, 0);
            && Fanout(b, rs, p) == s
            && StreamExact(s, StreamTrace(cross, b.common, b.streams[0].0, b.streams[0].1, Pulled(rs, p, |cross| + 1), 0),
                           |rs| - p)
            && StreamPromise(s, StreamForkRequests(cross, b.common, b.streams[0].0, Pulled(rs, p, |cross| + 1), 0),
                             b.streams[0].1, |rs| - p)
  {
    var cross := Cross.Product(Axes(b.plain).value);
    var vs := Pulled(rs, p, |cross| + 1);
    StreamRunExact(cross, b.common, b.streams[0].0, b.streams[0].1, rs, p, 0);
    ExactKeepsPromise(cross, b.common, b.streams[0].0, b.streams[0].1, vs, 0,
                      StreamRun(cross, b.common, b.streams[0].0, b.streams[0].1, rs, p, 0), |rs| - p);
  }

  /** With a foreach stream and no plain foreach input the cross product
      has a single, empty combination: the `i`-th pulled value (every
      other response) gives the fork labelled `i`, whose inputs are the
      common ones with the stream input bound to that value; once None has
      been pulled there is one fork per value. */
  lemma OneForkPerValue(common: seq<(string, Value)>, name: string, stream: Value, rs: seq<Value>, p: nat)
    requires p <= |rs|
    ensures var r := StreamRun(Cross.Product<string, Value>([]), common, name, stream, rs, p, 0);
            var vs := Pulled(rs, p, 2);
            && Forks(r.trace) <= seq(|vs|, i requires 0 <= i < |vs| => Fork(Text.Decimal(i), Cross.Dict(common)[name := vs[i]], false))
            && (r.status.Finished? ==> |Forks(r.trace)| == |vs|)
  {
    var cross := Cross.Product<string, Value>([]);
    assert cross == [[]];
    var vs := Pulled(rs, p, 2);
    var want := seq(|vs|, i requires 0 <= i < |vs| => Fork(Text.Decimal(i), Cross.Dict(common)[name := vs[i]], false));
    StreamRunExact(cross, common, name, stream, rs, p, 0);
    ExactKeepsPromise(cross, common, name, stream, vs, 0, StreamRun(cross, common, name, stream, rs, p, 0), |rs| - p);
    StreamForkRequestsLength(cross, common, name, vs, 0);
    assert ForkInputs([], common) == Cross.Dict(common) by {
      assert Cross.Dict<string, Value>([]) == map[];
    }
    forall i | 0 <= i < |vs| ensures StreamForkRequests(cross, common, name, vs, 0)[i] == want[i] {
      StreamForkRequestsAt(cross, common, name, vs, 0, i, 0);
      assert i * |cross| + 0 == i;
    }
    assert StreamForkRequests(cross, common, name, vs, 0) == want;
  }
}
