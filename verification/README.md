# marv node engine, modelled in Dafny

This project models the node engine of marv (`marv_node/node.py`). A
*node* wraps a generator function that consumes inputs and produces
streams. The engine has four parts, each modelled here:

- **Input declaration.** `input(name, default, foreach)` attaches one input
  specification per name to a function. A value that is a node is wrapped
  into a reference to that node's default stream.
- **Identity.** `InputSpec.key`, `StreamSpec.key`, `Node.genhash`,
  `Node.key` and `Node.abbrev`. The hash is taken over the sorted spec keys.
  Two nodes without an explicit `_key`, with the same full name and the
  same input specifications in any order, get the same key.
- **Graph construction.** `Node.__init__` derives `deps` from the
  stream-valued inputs and `alldeps` as their transitive union. It then
  registers the new node in the `consumers` set of every direct dependency
  and in the `dependent` set of every direct or indirect one. An assertion
  refuses a registration that is already present.
- **Invocation.** `Node.invoke` is a generator that talks to an external
  driver by yielding requests and receiving responses:
  - it requests the handles of its input streams;
  - it sorts the inputs into common, foreach-plain and foreach-stream;
  - it yields fork requests over the cross product of the foreach-plain
    values, or over each value pulled from the one foreach stream times
    that product;
  - without foreach inputs, it runs the node's routine and relays its
    requests and responses.

Modules, one file each:

| file | module | contents |
|---|---|---|
| `optional.dfy` | `Optional` | `Option`, `Result`, `Outcome` (pass or an exception) |
| `text.dfy` | `Text` | Python string order, `'{}'.format(i)` for labels, `', '.join`, `s[:n]` |
| `sorting.dfy` | `Sorting` | `sorted` of key texts, and that it depends only on the multiset |
| `cross.dfy` | `Cross` | `itertools.product`, `dict(pairs)` and `dict.update(pairs)` |
| `identity.dfy` | `Identity` | spec keys, their canonical text, the hash over the sorted texts |
| `node.dfy` | `MarvNode` | values, `StreamSpec`, `InputSpec`, the input table of `input`, class `Node` with construction, registration and `clone` |
| `invoke.dfy` | `Invocation` | the requests, the run of `invoke` as functions of the driver's responses, and the method `Invoke` that mirrors the generator's loops |
| `invoke_props.dfy` | `InvocationProperties` | what `invoke` promises: resolution first, plain and stream fan-out, relay, one response per request |

The model has three parts:

- **`Node` is a class.** Its construction-time fields are constants.
  `consumers` and `dependent` are mutable sets that the registration loops
  update on *other* nodes.
- **The input table** that `input` fills is a class with a sequence field.
- **`invoke` takes the driver's responses as input.** It is a method over a
  sequence of responses and returns the requests it yields, plus whether it
  is waiting for a response, finished, or stopped by an exception. The
  method is proved equal to a recursive specification (`InvokeRun`), and
  the properties are proved about that specification.

The routine of a node is a function from its inputs and the values sent
into it so far to the next request it yields, or None when it returns.

Two points of the code decide how the model ends an invocation:

- **The relay ends with the routine.** In `node.py:236-241` (Python 2) the
  inner loop sends each response into the routine's generator. When the
  routine returns, `gen.send` raises `StopIteration`, which leaves `invoke`
  itself. The outer loop never starts the routine a second time, so the
  model ends the invocation there (`Finished`).
- **The foreach-stream count is checked at invocation.** `node.py:208`
  asserts that there is exactly one foreach stream inside `invoke`, after
  the logger request (`node.py:205`) and after the cross product is built
  (`node.py:206`). Construction (`node.py:149-181`) does not check it. The
  model fails the invocation at the same point.

## Model

| member | source | states |
|---|---|---|
| `MarvNode.MakeSpec` | code/marv/marv_node/node.py:46-50 | default and foreach together are refused; the stored foreach flag is true exactly when a foreach value was given; the stored value is the foreach value if given, else the default, and is never a bare node (a node becomes a stream reference) |
| `MarvNode.InputTable.constructor` | code/marv/marv_node/node.py:53 | a function starts with an empty, duplicate-free input table |
| `MarvNode.InputTable.Add` | code/marv/marv_node/node.py:53-56 | a name already declared raises `InputNameCollision` and leaves the table unchanged; otherwise exactly that spec is appended under its name; names stay distinct |
| `MarvNode.Input` | code/marv/marv_node/node.py:24-58 | `input(...)` applied to a function: the assertion error, the collision error with the table unchanged, or the new spec appended |
| `MarvNode.ValueKey` | code/marv/marv_node/node.py:107 | a stream value is keyed by its stream key, made of its node's key and its stream name; a bare node by the node key of its node's key; only those two values have those kinds of key |
| `MarvNode.ValueKeysAgree` | code/marv/marv_node/node.py:107 | two values have the same model key (compared by kind and `repr`, not by Python `==`) exactly when both are stream references to nodes with one key and the same stream name, or both are nodes with one key, or neither is a stream or a node and they are equal: such a value is its own key |
| `MarvNode.PlainValueChangesKey` | code/marv/marv_node/node.py:105-108 | rebinding an input from a value without a key of its own to a different such value changes the input's model key |
| `MarvNode.NodeKeyTextIsKeyString` | code/marv/marv_node/node.py:105-108 | an input bound to a bare node and one bound to that node's key string have different model keys but one canonical key text, so the hash treats them alike, as Python's equal keys do |
| `MarvNode.Wrap` | code/marv/marv_node/node.py:48 | the result is never a bare node: a node becomes a reference to its default stream (no stream name), any other value is kept |
| `MarvNode.SpecKeysAgree` | code/marv/marv_node/node.py:105-108 | two input specifications have equal keys exactly when they agree on name, foreach flag and the key of their value |
| `MarvNode.StreamKeysSeparate` | code/marv/marv_node/node.py:120-126 | a wrapped node has the key of its default stream; that key, and its canonical text, differ from the key of a named stream of the same node and from the key of the bare node; equal default-stream key texts mean equal node keys |
| `MarvNode.InputSpec.Clone` | code/marv/marv_node/node.py:110-113 | a cloned spec keeps name and foreach and takes the new value, wrapping a node into a reference to its default stream |
| `MarvNode.Genhash` | code/marv/marv_node/node.py:144-147 | the specs hash is 52 characters long |
| `MarvNode.GenhashIgnoresOrder` | code/marv/marv_node/node.py:146 | declaring the same specs in another order gives the same hash |
| `MarvNode.SameInputsSameKey` | code/marv/marv_node/node.py:133-147 | two nodes without explicit key whose specs' key texts are the same multiset, with the same full name, have the same key, even where the specs themselves differ |
| `MarvNode.KeyDeterminesHashAndName` | code/marv/marv_node/node.py:133-138 | without an explicit key, two nodes have equal keys exactly when their hashes and full names are equal |
| `MarvNode.FullName` | code/marv/marv_node/node.py:158 | with an empty namespace the full name is the name; otherwise it is the namespace, a colon and the name |
| `MarvNode.Node.Key` | code/marv/marv_node/node.py:133-138 | an explicit key is the key; otherwise the key is the specs hash, a dash and the full name |
| `MarvNode.Node.Abbrev` | code/marv/marv_node/node.py:140-142 | the abbreviation is the name and a dot followed by a prefix of the specs hash of at most ten characters |
| `MarvNode.DepsOfMembers` | code/marv/marv_node/node.py:167-168 | a node is a direct dependency exactly when some input's value is a stream of that node |
| `MarvNode.AbbrevShape` | code/marv/marv_node/node.py:140-142 | the abbreviation is the name, a dot and the first ten characters of the hash |
| `MarvNode.Node.constructor` | code/marv/marv_node/node.py:149-171 | name and namespace default to the function's; full name is `namespace:name` or `name` when the namespace is empty; hash over the specs; group defaults to "some spec is foreach"; deps are exactly the nodes referenced by stream-valued specs; alldeps is deps joined with every dep's alldeps; the node is not in its own alldeps; consumers and dependent start empty |
| `MarvNode.Node.AddAsConsumer` | code/marv/marv_node/node.py:173-176 | succeeds exactly when no direct dependency already has a consumer with this key; then this node is added to every direct dependency's consumers; dependent sets are untouched |
| `MarvNode.Node.AddAsDependent` | code/marv/marv_node/node.py:178-181 | succeeds exactly when no dependency already has a dependent with this key; then this node is added to every dependency's dependent set; consumer sets are untouched |
| `MarvNode.Node.Register` | code/marv/marv_node/node.py:173-181 | the registration succeeds exactly when no direct dependency has a consumer with this node's key and no dependency has such a dependent; a failure names the consumer loop exactly when the consumer check failed; when the consumer check holds the node is in every direct dependency's consumers; on success it is in every dependency's dependent set; a failed consumer check changes no dependent set; consumer sets of indirect dependencies never change; every other set either stays or gains the node under a key it did not hold |
| `MarvNode.Node.Create` | code/marv/marv_node/node.py:149-181 | `Node(...)`: a fresh node with the constructor's fields, registered with its dependencies with the same success, failure and unchanged-set guarantees as `Register` |
| `MarvNode.AddKeepsKeysUnique` | code/marv/marv_node/node.py:175-181 | adding a node whose key is not yet present keeps a set free of two nodes with one key |
| `MarvNode.RegisteredKeepsKeysUnique` | code/marv/marv_node/node.py:173-181 | the registration loops keep every consumer and dependent set free of two nodes with one key |
| `MarvNode.AlldepsClosed` | code/marv/marv_node/node.py:169-171 | if every direct dependency's alldeps is transitively closed, so is the new node's |
| `MarvNode.CloneSpecs` | code/marv/marv_node/node.py:244-247 | an override naming no spec is refused, naming the unknown names; otherwise every spec keeps its name and foreach flag, the non-overridden ones are unchanged, the overridden ones are cloned with the override |
| `MarvNode.CloneKeepsNames` | code/marv/marv_node/node.py:244-246 | the cloned specs have the same, distinct names |
| `MarvNode.CloneWithoutOverrides` | code/marv/marv_node/node.py:244-246 | a clone without overrides has the same specs and the same hash |
| `MarvNode.Node.Clone` | code/marv/marv_node/node.py:243-251 | unknown override names fail before any node is built; otherwise a fresh node over the same function and explicit key, with the cloned specs, default name, namespace and group, registered as `Node(...)` registers, failure and unchanged sets included |
| `Identity.Digest` | code/marv/marv_node/node.py:147 | the digest is 52 characters of the lower-case base-32 alphabet |
| `Identity.SpecsHash` | code/marv/marv_node/node.py:145-147 | the hash of the sorted key texts is 52 characters long and contains no `-`, so the key's separator is unambiguous |
| `Identity.TextsDecideHash` | code/marv/marv_node/node.py:146 | keys whose texts are the same multiset give the same hash |
| `Identity.HashIgnoresOrder` | code/marv/marv_node/node.py:146 | keys that are a permutation of each other give the same hash |
| `Identity.ApplyPermutation` | code/marv/marv_node/node.py:146 | the keys of a permutation of the specs are a permutation of the keys |
| `Sorting.Sort` | code/marv/marv_node/node.py:146 | `sorted` returns a sorted permutation of its input |
| `Sorting.SortedUnique` | code/marv/marv_node/node.py:146 | two sorted permutations of one multiset are equal |
| `Sorting.SortIgnoresOrder` | code/marv/marv_node/node.py:146 | sorting depends only on the multiset of its input |
| `Text.LeqTotal` | code/marv/marv_node/node.py:146 | the order used for sorting is total |
| `Text.LeqAntisymmetric` | code/marv/marv_node/node.py:146 | the order used for sorting is antisymmetric |
| `Text.LeqTransitive` | code/marv/marv_node/node.py:146 | the order used for sorting is transitive |
| `Text.DecimalInjective` | code/marv/marv_node/node.py:222-224 | distinct fork numbers give distinct fork names |
| `Text.Prefix` | code/marv/marv_node/node.py:142 | `s[:n]` has length `min(n, len(s))` and is a prefix of `s` |
| `Cross.ProductCount` | code/marv/marv_node/node.py:206 | the cross product has as many combinations as the product of the axis lengths |
| `Cross.ProductMembers` | code/marv/marv_node/node.py:206 | a sequence is a combination of the product exactly when it picks one value from every axis, in axis order |
| `Cross.UpdateLookup` | code/marv/marv_node/node.py:218-219 | after `dict.update(pairs)` a key holds the value of its last pair, or its old value when no pair names it |
| `Cross.LastMember` | code/marv/marv_node/node.py:218-219 | the last pair for a key exists exactly when some pair names the key, and is one of the pairs |
| `Invocation.Elements` | code/marv/marv_node/node.py:206 | a list iterates its items in order, a string its one-character strings in order; other values cannot be iterated |
| `Invocation.Axes` | code/marv/marv_node/node.py:206 | the axes are the foreach-plain inputs with their values, in order; the first input that cannot be iterated raises the error |
| `Invocation.InvokeRun` | code/marv/marv_node/node.py:186-241 | with explicit inputs the invocation never fails; any failure is one of the three failures of `invoke`: the bare-node assertion (line 195), the `TypeError` from iterating a foreach value that cannot be iterated (line 206), the stream-count assertion (line 208) |
| `Invocation.ResolveRun` | code/marv/marv_node/node.py:193-202 | any failure from the resolution loop on is one of the three failures of `invoke`: the bare-node assertion, the `TypeError` from iterating a value that cannot be iterated, the stream-count assertion |
| `Invocation.AfterResolve` | code/marv/marv_node/node.py:204-241 | after resolution the bare-node assertion no longer fires; without foreach inputs nothing fails |
| `Invocation.Fanout` | code/marv/marv_node/node.py:205-208 | a failed fan-out yields nothing more; it fails only on a foreach value that cannot be iterated or on a count of foreach streams above one |
| `Invocation.PlainForks` | code/marv/marv_node/node.py:226-231 | the plain fork loop never fails and yields at most one fork per remaining combination, each with group flag False |
| `Invocation.StreamRun` | code/marv/marv_node/node.py:211-224 | the pull loop never fails, first pulls from the stream, and yields only pulls of that stream and forks with group flag False |
| `Invocation.StreamForks` | code/marv/marv_node/node.py:217-224 | the inner fork loop never fails and yields only forks with group flag False and pulls of the stream |
| `Invocation.RelayFrom` | code/marv/marv_node/node.py:236-241 | the relay never fails and yields only relayed requests of the routine |
| `Invocation.Invoke` | code/marv/marv_node/node.py:186-241 | the loops of the generator yield exactly the requests, and end in exactly the state, of the specification `InvokeRun` |
| `Invocation.Resolve` | code/marv/marv_node/node.py:190-202 | the resolution loop: it stops where the specification stops, or ends with the buckets the specification continues with |
| `Invocation.Relay` | code/marv/marv_node/node.py:233-241 | the relay loop yields what the specification's relay yields |
| `Invocation.ForkLoop` | code/marv/marv_node/node.py:206-232 | the fan-out refuses values that cannot be iterated and more than one foreach stream, and then yields what the specification's fan-out yields |
| `Invocation.PlainForkLoop` | code/marv/marv_node/node.py:226-231 | the plain fork loop yields what the specification's plain forks yield |
| `Invocation.PullLoop` | code/marv/marv_node/node.py:209-224 | the pull loop with its inner fork loop yields what the specification's stream loop yields |
| `InvocationProperties.InvokeAnswered` | code/marv/marv_node/node.py:186-241 | each yielded request gets exactly one response before the next is yielded: a waiting invocation has yielded one request more than the responses it got, a finished or failed one at most that many |
| `InvocationProperties.ExplicitInputsOnlyRelay` | code/marv/marv_node/node.py:193 | with explicit inputs, no handle is requested and nothing is forked: every request comes from the routine |
| `InvocationProperties.RelayOnlyRelays` | code/marv/marv_node/node.py:236-241 | the relay's `k`-th request is the request the routine yields once sent the responses before it; one response per request; unless it waits for a response the relay has finished, and then the routine has returned |
| `InvocationProperties.InvokeResolvesFirst` | code/marv/marv_node/node.py:193-202 | without inputs and without bare nodes, the first requests are one handle request per stream-valued input, in declaration order, before any fork or relay |
| `InvocationProperties.ResolveWaits` | code/marv/marv_node/node.py:193-199 | with fewer responses than the remaining stream-valued inputs and no bare node, resolution has made exactly the handle requests up to the first one without a response, and waits |
| `InvocationProperties.InvokeWaits` | code/marv/marv_node/node.py:193-205 | without inputs and bare nodes, fewer responses than handle requests leave the run waiting after the handle requests up to the first unanswered one; exactly as many responses with some foreach input leave it waiting on the logger request |
| `InvocationProperties.ResolveSplits` | code/marv/marv_node/node.py:194-202 | resolution from any input on yields the handle requests of the remaining stream-valued inputs and then continues with the resolved buckets |
| `InvocationProperties.HandleRequests` | code/marv/marv_node/node.py:196-197 | resolution yields only handle requests |
| `InvocationProperties.ResolvedBuckets` | code/marv/marv_node/node.py:194-202 | every input lands in the bucket of its kind, in declaration order; a foreach-plain input keeps its own value; when resolution starts with the responses used so far, a common or foreach-stream input is bound to the response to its own `get_stream` if it is stream-valued and to its own value otherwise |
| `InvocationProperties.HandleSuffix` | code/marv/marv_node/node.py:194-197 | the handle requests of the inputs from the `k`-th on are those of all inputs after one per stream-valued input before the `k`-th |
| `InvocationProperties.OwnHandleRequest` | code/marv/marv_node/node.py:196-197 | the response a stream-valued input takes, the one after the responses of the stream-valued inputs before it, answers that input's own `get_stream` request |
| `InvocationProperties.ResolvedValues` | code/marv/marv_node/node.py:194-202 | each bucket receives the inputs of its kind in declaration order, each bound to the response to its own `get_stream` or to its own value |
| `InvocationProperties.ResolvedFromStart` | code/marv/marv_node/node.py:190-202 | resolution from the first input gives common inputs and foreach streams bound to their responses or own values and foreach-plain inputs bound to their own values, each in declaration order |
| `InvocationProperties.KindsOfForeach` | code/marv/marv_node/node.py:204 | no input is foreach exactly when both foreach buckets stay empty |
| `InvocationProperties.InvokeRefusesNode` | code/marv/marv_node/node.py:195 | a bare node as an input value fails the assertion, after the handle requests of the inputs before it |
| `InvocationProperties.InvokeWithoutForeachRelays` | code/marv/marv_node/node.py:233-241 | without foreach inputs the routine runs on `dict(common)`, whose entries are the inputs bound to the responses to their own `get_stream` or to their own values, and the invocation never forks: only handle and relayed requests |
| `InvocationProperties.InvokeFansOut` | code/marv/marv_node/node.py:204-205 | with some foreach input, exactly one logger request follows the handle requests, then the fan-out over the resolved buckets |
| `InvocationProperties.InvokePlainFanout` | code/marv/marv_node/node.py:204-231 | foreach-plain only: handle requests, one logger request, then exactly one fork per combination in product order over the common inputs bound to their responses or own values, then the invocation returns |
| `InvocationProperties.PlainFanout` | code/marv/marv_node/node.py:206-231 | the plain forks number the product of the axis lengths, cover every combination, have distinct names "0", "1", ..., group flag False, inputs the combination merged with the common inputs; with too few responses the invocation waits after a prefix of them |
| `InvocationProperties.PlainForksTrace` | code/marv/marv_node/node.py:226-231 | the plain fork loop yields the forks in order, one per response, and returns after the last |
| `InvocationProperties.ForkInputsContent` | code/marv/marv_node/node.py:218-219 | a fork's inputs bind exactly the names of the combination and of the common inputs, and a common binding wins |
| `InvocationProperties.InvokeRefusesSecondStream` | code/marv/marv_node/node.py:207-208 | two or more foreach streams fail the assertion right after the logger request |
| `InvocationProperties.InvokeRefusesNonIterable` | code/marv/marv_node/node.py:206 | a foreach value that cannot be iterated fails right after the logger request |
| `InvocationProperties.InvokeStreamFanout` | code/marv/marv_node/node.py:207-224 | one foreach stream: handle requests, one logger request, then the pull loop on the response to the foreach stream's own `get_stream`, over the common inputs bound to their responses or own values; it never fails; its requests are a prefix of the closed-form trace (each pulled value's pull, then that value's forks, then the pull that receives None), one more than the responses while it waits, and all of the trace once it returns, which it does exactly when the response to the trace's last pull is there; so its forks are a prefix of the closed-form fork list, all of it once it returns |
| `InvocationProperties.StreamFanout` | code/marv/marv_node/node.py:207-224 | with exactly one foreach stream the fan-out is the pull loop on that stream's handle with the counter at 0; it follows the closed-form trace of the values it pulls and keeps the promise about their forks |
| `InvocationProperties.StreamForkRequestsAt` | code/marv/marv_node/node.py:217-224 | in the closed-form fork list, the fork of the `i`-th pulled value and the `j`-th combination is at index `i * len(cross) + j`, is named by the counter value at that index, binds the combination merged with the common inputs, the stream input bound to the `i`-th value, group flag False |
| `InvocationProperties.PulledAt` | code/marv/marv_node/node.py:212-214 | the `i`-th pulled value is the response `i` strides after the first pull, and it is not None |
| `InvocationProperties.PulledEnd` | code/marv/marv_node/node.py:212-216 | pulling stops at the first None or when the responses run out |
| `InvocationProperties.StreamRunExact` | code/marv/marv_node/node.py:211-224 | the pull loop, from any response and counter value, yields a prefix of the closed-form trace of the values it pulls (every `len(cross) + 1`-th response up to None): one request more than the responses while it waits; it returns exactly when the response to the trace's last pull is there, and has then yielded all of it; it never fails |
| `InvocationProperties.StreamForksExact` | code/marv/marv_node/node.py:217-224 | the inner fork loop yields, in the same sense, the forks of the remaining combinations for this value and then the closed-form trace of the values pulled after it |
| `InvocationProperties.StreamTraceLength` | code/marv/marv_node/node.py:211-224 | the closed-form trace has one pull and one fork per combination for each pulled value, and the last pull |
| `InvocationProperties.StreamTraceForks` | code/marv/marv_node/node.py:217-224 | the forks of the closed-form trace are the closed-form fork list, and every other request of it pulls the stream |
| `InvocationProperties.StreamRunEnds` | code/marv/marv_node/node.py:212-216 | the pull loop returns exactly when the response just after the last pulled value's forks is there, and that response is None; it has then yielded one pull and one fork per combination for each value and the last pull; otherwise it waits, with one request more than the responses |
| `InvocationProperties.StepKeepsExact` | code/marv/marv_node/node.py:213-224 | a pull or a fork in front of a run, with its response, keeps the run to the trace that starts with that request |
| `InvocationProperties.ExactKeepsPromise` | code/marv/marv_node/node.py:211-224 | a run that follows the closed-form trace does not fail, has forks that are a prefix of the closed-form fork list, all of it once it returns, and otherwise only pulls the stream |
| `InvocationProperties.OneForkPerValue` | code/marv/marv_node/node.py:206-224 | with no foreach-plain input, the `i`-th fork is named `i` and binds the common inputs with the stream input set to the `i`-th pulled value; once the loop returns there is exactly one fork per pulled value |

## Left out

- `MarvNode.ValueKeysAgree`: model keys compare by kind and by `repr`, not by Python 2 `==`. A bare node and its key string, or `1` and `True`, or `u'a'` and `'a'`, have equal Python keys but different model keys. The hash, which reads only the key texts, is unaffected where the texts agree (`MarvNode.NodeKeyTextIsKeyString`).
- `MarvNode.PlainValueChangesKey`: rebinding to a value that Python's `==` calls equal but whose `repr` differs (`1` to `True`) leaves the Python key unchanged; the lemma says the model key changes, which follows the `repr` and so the hash.
- `Identity.Digest`: SHA-256 and `b32encode` are replaced by a 256-bit checksum written in 52 base-32 characters. The model proves only what does not depend on the digest (fixed length, alphabet, no `-`, order independence). So it does not prove that different spec sets get different hashes, and it does not prove that a clone with a changed value gets a different key.
- `Identity.TupleText`: the canonical text follows Python's `repr` of the key tuple for the tuple shapes. String escapes and the `repr` of arbitrary objects are not modelled; plain values are lists, strings, or scalars given with their `repr`.
- The `Keyed` mixin (`marv_node/mixins.py`) is not part of this model. Specs are sorted by the canonical text of their keys (a total order, proved). Nodes compare by key in the registration assertions (`HasKey`). The `deps`/`alldeps` sets hold node references, so two distinct nodes with the same key are both kept, where key-based set equality would keep one.
- `MarvNode.Node.Clone`: the cloned specs keep declaration order. In the source they pass through a plain Python 2 `dict`, whose order is arbitrary. That order decides the order of the clone's handle requests and fork bindings, not its hash.
- The `node()` decorator (`node.py:61-100`) is not modelled: its generator-function check, its double-conversion `TypeError`, `functools.update_wrapper`, and the `schema`, `header_schema` and `version` fields have no behaviour here. `Node.Create` takes the specs that `node()` would pass.
- The group assertion at `node.py:163` holds by construction: `Group` has exactly the allowed values.
- `log.noisy`, `__call__`, `__repr__`, `__str__` and the deprecated `__getitem__` (`node.py:183-184`, `253-264`) are left out; they have no effect on requests or graph state.
- The restart loop at `node.py:236-237` is not modelled, because it is unreachable: a routine that returns ends `invoke`.
- The routine is a total function: exceptions raised inside it, and its use of the objects it receives, are not modelled. Driver responses are arbitrary values; the request constructors of `marv_node/io.py` (not part of this model) are datatype constructors.
- Concurrency: the driver may run many invocations in parallel. `invoke` writes no shared state, so each invocation is modelled alone.
- `code/marv-robotics/setup.py` is packaging metadata and not part of this model.
