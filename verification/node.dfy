/** The declarations and the static graph of the node engine: input
    specifications and stream references, the input table that `input`
    fills on a function, and `Node` with its content-derived identity, its
    dependency sets and `clone`. */
module MarvNode {
  import opened Optional
  import Identity
  import Text

  /** A Python value as the engine sees it. */
  datatype Value =
    | Nil                          // None
    | Plain(data: Identity.Data)   // any plain object
    | Stream(spec: StreamSpec)     // a reference to another node's output
    | NodeRef(node: Node)          // a node itself
    | Handle(id: nat)              // an object made by the driver: stream handle, logger, message

  /** Reference to the default output of `node` (`name` is None) or to its output `name`. */
  datatype StreamSpec = StreamSpec(node: Node, name: Option<string>) {
    /** `(node.key,)` without a stream name, `(node.key, name)` with one. */
    function Key(): (k: Identity.ValueKey)
      ensures k.StreamKey? && k.node == node.Key() && k.stream == name
    {
      Identity.StreamKey(node.Key(), name)
    }
  }

  /** One declared input: its name, its default or foreach value, and
      whether it drives a fan-out. */
  datatype InputSpec = InputSpec(name: string, value: Value, foreach: bool) {
    /** `(name, value.key or value, foreach)`. */
    function Key(): (k: Identity.SpecKey)
      ensures k.name == name && k.foreach == foreach && k.value == ValueKey(value)
    {
      Identity.SpecKey(name, ValueKey(value), foreach)
    }

    /** The same input bound to another value; a node is wrapped into a
        reference to its default stream. */
    function Clone(v: Value): (r: InputSpec)
      ensures r.name == name && r.foreach == foreach && !r.value.NodeRef?
      ensures v.NodeRef? ==> r.value == Stream(StreamSpec(v.node, None))
      ensures !v.NodeRef? ==> r.value == v
    {
      InputSpec(name, Wrap(v), foreach)
    }
  }

  /** `value.key` when the value has a key, else the value itself. */
  function ValueKey(v: Value): (k: Identity.ValueKey)
    ensures k.StreamKey? <==> v.Stream?
    ensures k.NodeKey? <==> v.NodeRef?
    ensures v.Stream? ==> k.node == v.spec.node.Key() && k.stream == v.spec.name
    ensures v.NodeRef? ==> k == Identity.NodeKey(v.node.Key())
  {
    match v
    case Nil => Identity.NoneKey
    case Plain(d) => Identity.DataKey(d)
    case Handle(id) => Identity.HandleKey(id)
    case Stream(s) => s.Key()
    case NodeRef(n) => Identity.NodeKey(n.Key())
  }

  /** Two values have the same model key exactly when they are stream
      references to nodes with one key and the same stream name, nodes with
      one key, or otherwise equal values: a value without a key of its own
      is its own key. Model keys compare by kind and `repr`, not by Python's
      `==` (see `NodeKeyTextIsKeyString`). */
  lemma ValueKeysAgree(a: Value, b: Value)
    ensures ValueKey(a) == ValueKey(b) <==>
      if a.Stream? || b.Stream? then
        a.Stream? && b.Stream? && a.spec.node.Key() == b.spec.node.Key() && a.spec.name == b.spec.name
      else if a.NodeRef? || b.NodeRef? then a.NodeRef? && b.NodeRef? && a.node.Key() == b.node.Key()
      else a == b
  {
  }

  /** Rebinding an input to a different value that has no key of its own
      changes the input's model key. */
  lemma PlainValueChangesKey(s: InputSpec, v: Value)
    requires !s.value.Stream? && !s.value.NodeRef? && !v.Stream? && !v.NodeRef? && v != s.value
    ensures InputSpec(s.name, v, s.foreach).Key() != s.Key()
  {
    ValueKeysAgree(s.value, v);
  }

  /** A bare node is keyed by its key string: the model key tags it as a
      node, but an input bound to the node and one bound to the node's key
      string have one canonical text, so `genhash` does not tell them apart,
      as Python's equal keys do not. */
  lemma NodeKeyTextIsKeyString(name: string, n: Node, foreach: bool)
    ensures InputSpec(name, NodeRef(n), foreach).Key() != InputSpec(name, Plain(Identity.Str(n.Key())), foreach).Key()
    ensures Identity.KeyText(InputSpec(name, NodeRef(n), foreach).Key())
         == Identity.KeyText(InputSpec(name, Plain(Identity.Str(n.Key())), foreach).Key())
  {
  }

  /** `StreamSpec(value) if isinstance(value, Node) else value`. */
  function Wrap(v: Value): (r: Value)
    ensures !r.NodeRef?
    ensures v.NodeRef? ==> r.Stream? && r.spec.node == v.node && r.spec.name.None?
    ensures !v.NodeRef? ==> r == v
  {
    if v.NodeRef? then Stream(StreamSpec(v.node, None)) else v
  }

  /** Two input specifications have the same key exactly when they agree
      on name, foreach flag and value key. */
  lemma SpecKeysAgree(a: InputSpec, b: InputSpec)
    ensures a.Key() == b.Key() <==> a.name == b.name && a.foreach == b.foreach && ValueKey(a.value) == ValueKey(b.value)
  {
  }

  /** A node bound as a value is keyed as its default stream, `(node.key,)`:
      that key differs from the bare node's key and from the key of any
      named stream of the node, as does its text, and it determines the
      node's key. */
  lemma StreamKeysSeparate(n: Node, s: string, m: Node)
    ensures ValueKey(Wrap(NodeRef(n))) == StreamSpec(n, None).Key()
    ensures StreamSpec(n, None).Key() != StreamSpec(n, Some(s)).Key()
    ensures StreamSpec(n, None).Key() != ValueKey(NodeRef(n))
    ensures Identity.ValueKeyText(StreamSpec(n, None).Key()) != Identity.ValueKeyText(StreamSpec(n, Some(s)).Key())
    ensures Identity.ValueKeyText(StreamSpec(n, None).Key()) != Identity.ValueKeyText(ValueKey(NodeRef(n)))
    ensures Identity.ValueKeyText(StreamSpec(n, None).Key()) == Identity.ValueKeyText(StreamSpec(m, None).Key())
            ==> n.Key() == m.Key()
  {
    Identity.StreamKeyTextsDiffer(n.Key(), s, m.Key());
  }

  /** The exceptions the core raises. */
  datatype Error =
    | InputNameCollision(name: string)      // an input declared twice on one function
    | DefaultAndForeach(name: string)       // both a default and a foreach value given
    | UnknownOverrides(names: set<string>)  // clone overrides naming no input
    | AlreadyConsumer(dep: string)          // a consumer with this key is registered already
    | AlreadyDependent(dep: string)         // a dependent with this key is registered already
    | BareNodeInput(name: string)           // an input bound to a node instead of a stream
    | NotIterable(name: string)             // a foreach value that cannot be iterated
    | StreamCount(count: nat)               // more than one foreach stream

  predicate NamesDistinct(specs: seq<InputSpec>)
  {
    forall i, j :: 0 <= i < j < |specs| ==> specs[i].name != specs[j].name
  }

  function Names(specs: seq<InputSpec>): set<string>
  {
    set s | s in specs :: s.name
  }

  /** The specification `input(name, default, foreach)` attaches. */
  function MakeSpec(name: string, default: Value, foreach: Value): (r: Result<InputSpec, Error>)
    ensures r.Err? <==> !default.Nil? && !foreach.Nil?
    ensures r.Err? ==> r.error == DefaultAndForeach(name)
    ensures r.Ok? ==> r.value.name == name && r.value.foreach == !foreach.Nil?
    ensures r.Ok? ==> !r.value.value.NodeRef?
    ensures r.Ok? && !foreach.Nil? ==> r.value.value == Wrap(foreach)
    ensures r.Ok? && foreach.Nil? ==> r.value.value == Wrap(default)
  {
    if !default.Nil? && !foreach.Nil? then Err(DefaultAndForeach(name))
    else
      var value := if !foreach.Nil? then foreach else default;
      Ok(InputSpec(name, Wrap(value), !foreach.Nil?))
  }

  /** The ordered table of input specifications kept on a function until it
      is turned into a node. */
  class InputTable {
    var specs: seq<InputSpec>

    ghost predicate Valid()
      reads this
    {
      NamesDistinct(specs)
    }

    constructor ()
      ensures Valid() && specs == []
    {
      specs := [];
    }

    predicate Declares(name: string)
      reads this
    {
      exists i :: 0 <= i < |specs| && specs[i].name == name
    }

    /** Adds `spec` under its name, or raises on a name already taken. */
    method Add(spec: InputSpec) returns (o: Outcome<Error>)
      requires Valid()
      modifies this
      ensures Valid()
      ensures old(Declares(spec.name)) ==> o == Fail(InputNameCollision(spec.name)) && specs == old(specs)
      ensures !old(Declares(spec.name)) ==> o == Pass && specs == old(specs) + [spec]
    {
      if Declares(spec.name) {
        return Fail(InputNameCollision(spec.name));
      }
      specs := specs + [spec];
      o := Pass;
    }
  }

  /** `input(name, default, foreach)` applied to the function owning `table`. */
  method Input(table: InputTable, name: string, default: Value, foreach: Value) returns (o: Outcome<Error>)
    requires table.Valid()
    modifies table
    ensures table.Valid()
    ensures MakeSpec(name, default, foreach).Err? ==>
      o == Fail(DefaultAndForeach(name)) && table.specs == old(table.specs)
    ensures MakeSpec(name, default, foreach).Ok? && old(table.Declares(name)) ==>
      o == Fail(InputNameCollision(name)) && table.specs == old(table.specs)
    ensures MakeSpec(name, default, foreach).Ok? && !old(table.Declares(name)) ==>
      o == Pass && table.specs == old(table.specs) + [MakeSpec(name, default, foreach).value]
  {
    var spec := MakeSpec(name, default, foreach);
    if spec.Err? {
      return Fail(spec.error);
    }
    o := table.Add(spec.value);
  }

  /** The `group` marker of a node's default output. */
  datatype Group = NotGroup | IsGroup | OnDemand

  /** A node's generator function: its name, its module, and what it does:
      given its inputs and the values sent into it so far, the request it
      yields next, or None once it has returned. */
  datatype Func = Func(name: string, modname: string, body: (map<string, Value>, seq<Value>) -> Option<Value>)

  /** `namespace:name`, or `name` alone when the namespace is empty. */
  function FullName(namespace: string, name: string): (r: string)
    ensures namespace == "" ==> r == name
    ensures namespace != "" ==> |r| == |namespace| + 1 + |name| && r[..|namespace|] == namespace
                                && r[|namespace|] == ':' && r[|namespace| + 1..] == name
  {
    if namespace == "" then name else namespace + ":" + name
  }

  /** The keys of the specifications, in their order. */
  function Keys(specs: seq<InputSpec>): seq<Identity.SpecKey>
  {
    Identity.Apply((s: InputSpec) => s.Key(), specs)
  }

  /** `Node.genhash(specs)`. */
  function Genhash(specs: seq<InputSpec>): (h: string)
    ensures |h| == Identity.HashLength
  {
    Identity.SpecsHash(Keys(specs))
  }

  /** Declaring the same inputs in another order gives the same hash. */
  lemma GenhashIgnoresOrder(a: seq<InputSpec>, b: seq<InputSpec>)
    requires multiset(a) == multiset(b)
    ensures Genhash(a) == Genhash(b)
  {
    Identity.ApplyPermutation((s: InputSpec) => s.Key(), a, b);
    Identity.HashIgnoresOrder(Keys(a), Keys(b));
  }

  /** The nodes referenced by stream-valued inputs. */
  function DepsOf(specs: seq<InputSpec>): set<Node>
  {
    set s | s in specs && s.value.Stream? :: s.value.spec.node
  }

  /** A node is a direct dependency exactly when some input is bound to one
      of its streams. */
  lemma DepsOfMembers(specs: seq<InputSpec>, d: Node)
    ensures d in DepsOf(specs) <==> exists i :: 0 <= i < |specs| && specs[i].value.Stream? && specs[i].value.spec.node == d
  {
    if d in DepsOf(specs) {
      var s :| s in specs && s.value.Stream? && s.value.spec.node == d;
      var i :| 0 <= i < |specs| && specs[i] == s;
    }
  }

  /** Everything the given nodes depend on, directly or not. */
  function Inherited(deps: set<Node>): set<Node>
  {
    set d, x | d in deps && x in d.alldeps :: x
  }

  /** The dependencies of a node built from `specs`, direct and indirect. */
  function AllDepsOf(specs: seq<InputSpec>): set<Node>
  {
    DepsOf(specs) + Inherited(DepsOf(specs))
  }

  /** `x in s` for sets of nodes, which compare by key. */
  predicate HasKey(s: set<Node>, k: string)
  {
    exists n :: n in s && n.Key() == k
  }

  /** No two members of `s` share a key: each node is recorded once. */
  predicate UniqueKeys(s: set<Node>)
  {
    forall a, b :: a in s && b in s && a.Key() == b.Key() ==> a == b
  }

  class Node {
    const func: Func
    const name: string
    const namespace: string
    const fullname: string
    const specs: seq<InputSpec>
    const specsHash: string
    const explicitKey: string   // `_key`; the empty string stands for None
    const group: Group
    const deps: set<Node>
    const alldeps: set<Node>
    var consumers: set<Node>
    var dependent: set<Node>

    /** What construction establishes between the (constant) fields. */
    ghost predicate Valid()
    {
      && NamesDistinct(specs)
      && fullname == FullName(namespace, name)
      && specsHash == Genhash(specs)
      && deps == DepsOf(specs)
      && alldeps == deps + Inherited(deps)
      && this !in alldeps
    }

    /** The explicit key if set, else `specs_hash-fullname`. */
    function Key(): (k: string)
      ensures explicitKey != "" ==> k == explicitKey
      ensures explicitKey == "" ==> |k| == |specsHash| + 1 + |fullname| && k[..|specsHash|] == specsHash
                                    && k[|specsHash|] == '-' && k[|specsHash| + 1..] == fullname
    {
      if explicitKey != "" then explicitKey else specsHash + "-" + fullname
    }

    /** `name.` followed by the first ten characters of the hash. */
    function Abbrev(): (a: string)
      ensures |a| == |name| + 1 + (if |specsHash| < 10 then |specsHash| else 10)
      ensures a[..|name| + 1] == name + "." && a[|name| + 1..] <= specsHash
    {
      name + "." + Text.Prefix(specsHash, 10)
    }

    /** Fields of `Node.__init__` up to the two registration loops. */
    constructor (func: Func, specs: seq<InputSpec>, name: Option<string>, namespace: Option<string>,
                 group: Option<Group>, explicitKey: string)
      requires NamesDistinct(specs)
      ensures Valid()
      ensures this.func == func && this.specs == specs && this.explicitKey == explicitKey
      ensures this.name == if name.Some? then name.value else func.name
      ensures this.namespace == if namespace.Some? then namespace.value else func.modname
      ensures this.group == if group.Some? then group.value
                            else if exists i :: 0 <= i < |specs| && specs[i].foreach then IsGroup
                            else NotGroup
      ensures consumers == {} && dependent == {}
    {
      this.func := func;
      this.explicitKey := explicitKey;
      var n := if name.Some? then name.value else func.name;
      var ns := if namespace.Some? then namespace.value else func.modname;
      this.name := n;
      this.namespace := ns;
      this.fullname := FullName(ns, n);
      this.specsHash := Genhash(specs);
      this.specs := specs;
      this.group := if group.Some? then group.value
                    else if exists i :: 0 <= i < |specs| && specs[i].foreach then IsGroup
                    else NotGroup;
      var deps := DepsOf(specs);
      this.deps := deps;
      this.alldeps := deps + Inherited(deps);
      this.consumers := {};
      this.dependent := {};
    }

    /** No direct dependency has a consumer with this node's key. */
    predicate FreeAsConsumer()
      reads deps
    {
      forall d :: d in deps ==> !HasKey(d.consumers, Key())
    }

    /** No dependency has a dependent with this node's key. */
    predicate FreeAsDependent()
      reads alldeps
    {
      forall d :: d in alldeps ==> !HasKey(d.dependent, Key())
    }

    /** The first registration loop of `Node.__init__`: this node becomes a
        consumer of each direct dependency, unless one of them already has a
        consumer with this key. */
    method AddAsConsumer() returns (o: Outcome<Error>)
      requires Valid()
      modifies deps
      ensures o.Pass? <==> old(FreeAsConsumer())
      ensures o.Fail? ==> o.error.AlreadyConsumer?
      ensures o.Pass? ==> forall d :: d in deps ==> d.consumers == old(d.consumers) + {this}
      ensures forall d :: d in deps ==>
                d.consumers == old(d.consumers) || (!HasKey(old(d.consumers), Key()) && d.consumers == old(d.consumers) + {this})
      ensures forall d :: d in deps ==> d.dependent == old(d.dependent)
    {
      var todo := deps;
      while todo != {}
        invariant todo <= deps
        invariant forall d :: d in deps - todo ==> !HasKey(old(d.consumers), Key()) && d.consumers == old(d.consumers) + {this}
        invariant forall d :: d in todo ==> d.consumers == old(d.consumers)
        invariant forall d :: d in deps ==> d.dependent == old(d.dependent)
        decreases todo
      {
        var d :| d in todo;
        if HasKey(d.consumers, Key()) {
          return Fail(AlreadyConsumer(d.Key()));
        }
        d.consumers := d.consumers + {this};
        todo := todo - {d};
      }
      o := Pass;
    }

    /** The second registration loop: this node becomes a dependent of each
        direct or indirect dependency, unless one of them already has a
        dependent with this key. */
    method AddAsDependent() returns (o: Outcome<Error>)
      requires Valid()
      modifies alldeps
      ensures o.Pass? <==> old(FreeAsDependent())
      ensures o.Fail? ==> o.error.AlreadyDependent?
      ensures o.Pass? ==> forall d :: d in alldeps ==> d.dependent == old(d.dependent) + {this}
      ensures forall d :: d in alldeps ==>
                d.dependent == old(d.dependent) || (!HasKey(old(d.dependent), Key()) && d.dependent == old(d.dependent) + {this})
      ensures forall d :: d in alldeps ==> d.consumers == old(d.consumers)
    {
      var todo := alldeps;
      while todo != {}
        invariant todo <= alldeps
        invariant forall d :: d in alldeps - todo ==> !HasKey(old(d.dependent), Key()) && d.dependent == old(d.dependent) + {this}
        invariant forall d :: d in todo ==> d.dependent == old(d.dependent)
        invariant forall d :: d in alldeps ==> d.consumers == old(d.consumers)
        decreases todo
      {
        var d :| d in todo;
        if HasKey(d.dependent, Key()) {
          return Fail(AlreadyDependent(d.Key()));
        }
        d.dependent := d.dependent + {this};
        todo := todo - {d};
      }
      o := Pass;
    }

    /** Both registration loops; a failed assertion stops the construction
        and the registrations made before it stay. */
    method Register() returns (o: Outcome<Error>)
      requires Valid()
      modifies alldeps
      ensures Registered(deps, alldeps, this, o)
    {
      ghost var free := FreeAsDependent();
      o := AddAsConsumer();
      if o.Fail? {
        return;
      }
      assert FreeAsDependent() == free;
      o := AddAsDependent();
    }

    /** `Node(func, name=..., namespace=..., specs=..., group=...)`: the
        fields, then the registrations with the dependencies. */
    static method Create(func: Func, specs: seq<InputSpec>, name: Option<string>, namespace: Option<string>,
                         group: Option<Group>, explicitKey: string) returns (n: Node, o: Outcome<Error>)
      requires NamesDistinct(specs)
      modifies AllDepsOf(specs)
      ensures fresh(n) && n.Valid()
      ensures n.func == func && n.specs == specs && n.explicitKey == explicitKey
      ensures n.name == if name.Some? then name.value else func.name
      ensures n.namespace == if namespace.Some? then namespace.value else func.modname
      ensures n.group == if group.Some? then group.value
                         else if exists i :: 0 <= i < |specs| && specs[i].foreach then IsGroup
                         else NotGroup
      ensures n.consumers == {} && n.dependent == {}
      ensures Registered(DepsOf(specs), AllDepsOf(specs), n, o)
    {
      n := new Node(func, specs, name, namespace, group, explicitKey);
      label Built:
      assert forall d :: d in AllDepsOf(specs) ==>
        old@Built(d.consumers) == old(d.consumers) && old@Built(d.dependent) == old(d.dependent);
      o := n.Register();
    }

    /** `clone(**kw)`: a new node over the same function whose inputs named
        in `overrides` are rebound; name, namespace and group take their
        defaults again, the explicit key is kept. */
    method Clone(overrides: map<string, Value>) returns (n: Node?, o: Outcome<Error>)
      requires Valid()
      modifies if CloneSpecs(specs, overrides).Ok? then AllDepsOf(CloneSpecs(specs, overrides).value) else {}
      ensures n == null <==> CloneSpecs(specs, overrides).Err?
      ensures n == null ==> o == Fail(UnknownOverrides(overrides.Keys - Names(specs)))
      ensures n != null ==> fresh(n) && n.Valid() && n.specs == CloneSpecs(specs, overrides).value
      ensures n != null ==> n.func == func && n.explicitKey == explicitKey
      ensures n != null ==> n.name == func.name && n.namespace == func.modname
      ensures n != null ==> n.group == if exists i :: 0 <= i < |specs| && specs[i].foreach then IsGroup else NotGroup
      ensures n != null ==> n.consumers == {} && n.dependent == {}
      ensures n != null ==> var cloned := CloneSpecs(specs, overrides).value;
                            Registered(DepsOf(cloned), AllDepsOf(cloned), n, o)
    {
      var cloned := CloneSpecs(specs, overrides);
      if cloned.Err? {
        return null, Fail(cloned.error);
      }
      var c;
      c, o := Create(func, cloned.value, None, None, None, explicitKey);
      n := c;
    }
  }

  /** What the two registration loops of `Node.__init__` leave behind for
      node `n` with direct dependencies `deps`, all dependencies `alldeps`
      and outcome `o`, against the sets before them:
      - they pass exactly when no direct dependency has a consumer with
        `n`'s key and no dependency has such a dependent; a failure names
        the first loop exactly when the consumer check failed;
      - when the consumer check holds, `n` is a consumer of every direct
        dependency; on success it is a dependent of every dependency, and
        when the consumer check fails no dependent set changes;
      - consumer sets of indirect dependencies never change, and every
        other set either stays or gains `n` under a key it did not hold. */
  twostate predicate Registered(deps: set<Node>, alldeps: set<Node>, new n: Node, new o: Outcome<Error>)
    reads deps, alldeps
  {
    var freeC := forall d :: d in deps ==> !HasKey(old(d.consumers), n.Key());
    var freeD := forall d :: d in alldeps ==> !HasKey(old(d.dependent), n.Key());
    && (o.Pass? <==> freeC && freeD)
    && (o.Fail? ==> (o.error.AlreadyConsumer? <==> !freeC) && (o.error.AlreadyConsumer? || o.error.AlreadyDependent?))
    && (freeC ==> forall d :: d in deps ==> d.consumers == old(d.consumers) + {n})
    && (o.Pass? ==> forall d :: d in alldeps ==> d.dependent == old(d.dependent) + {n})
    && (!freeC ==> forall d :: d in alldeps ==> d.dependent == old(d.dependent))
    && (forall d :: d in alldeps - deps ==> d.consumers == old(d.consumers))
    && (forall d :: d in deps ==>
          d.consumers == old(d.consumers) || (!HasKey(old(d.consumers), n.Key()) && d.consumers == old(d.consumers) + {n}))
    && (forall d :: d in alldeps ==>
          d.dependent == old(d.dependent) || (!HasKey(old(d.dependent), n.Key()) && d.dependent == old(d.dependent) + {n}))
  }

  /** Registration keeps every consumer and dependent set free of two nodes
      with one key: it adds `n` only where its key is absent. */
  twostate lemma RegisteredKeepsKeysUnique(deps: set<Node>, alldeps: set<Node>, new n: Node, new o: Outcome<Error>)
    requires Registered(deps, alldeps, n, o)
    ensures forall d :: d in deps && UniqueKeys(old(d.consumers)) ==> UniqueKeys(d.consumers)
    ensures forall d :: d in alldeps && UniqueKeys(old(d.dependent)) ==> UniqueKeys(d.dependent)
  {
    forall d | d in deps && UniqueKeys(old(d.consumers)) ensures UniqueKeys(d.consumers) {
      if d.consumers != old(d.consumers) { AddKeepsKeysUnique(old(d.consumers), n); }
    }
    forall d | d in alldeps && UniqueKeys(old(d.dependent)) ensures UniqueKeys(d.dependent) {
      if d.dependent != old(d.dependent) { AddKeepsKeysUnique(old(d.dependent), n); }
    }
  }

  /** The inputs of `clone(**kw)`: each input named in `overrides` is
      rebound to the override, the others are kept; an override naming no
      input is an error. */
  function CloneSpecs(specs: seq<InputSpec>, overrides: map<string, Value>): (r: Result<seq<InputSpec>, Error>)
    ensures r.Err? <==> !(overrides.Keys <= Names(specs))
    ensures r.Err? ==> r.error == UnknownOverrides(overrides.Keys - Names(specs))
    ensures r.Ok? ==> |r.value| == |specs|
    ensures r.Ok? ==> forall i :: 0 <= i < |specs| ==>
      r.value[i].name == specs[i].name && r.value[i].foreach == specs[i].foreach
    ensures r.Ok? ==> forall i :: 0 <= i < |specs| && specs[i].name !in overrides ==> r.value[i] == specs[i]
    ensures r.Ok? ==> forall i :: 0 <= i < |specs| && specs[i].name in overrides ==>
      r.value[i] == specs[i].Clone(overrides[specs[i].name])
  {
    if !(overrides.Keys <= Names(specs)) then Err(UnknownOverrides(overrides.Keys - Names(specs)))
    else Ok(seq(|specs|, i requires 0 <= i < |specs| =>
                          if specs[i].name in overrides then specs[i].Clone(overrides[specs[i].name]) else specs[i]))
  }

  /** Cloning keeps the declared names, so the clone is constructible. */
  lemma CloneKeepsNames(specs: seq<InputSpec>, overrides: map<string, Value>)
    requires NamesDistinct(specs) && CloneSpecs(specs, overrides).Ok?
    ensures NamesDistinct(CloneSpecs(specs, overrides).value)
    ensures Names(CloneSpecs(specs, overrides).value) == Names(specs)
  {
    var r := CloneSpecs(specs, overrides).value;
    forall x | x in Names(r) ensures x in Names(specs) {
      var s :| s in r && s.name == x;
      var i :| 0 <= i < |r| && r[i] == s;
      assert specs[i] in specs;
    }
    forall x | x in Names(specs) ensures x in Names(r) {
      var s :| s in specs && s.name == x;
      var i :| 0 <= i < |specs| && specs[i] == s;
      assert r[i] in r;
    }
  }

  /** A clone without overrides has the same inputs, hence the same hash. */
  lemma CloneWithoutOverrides(specs: seq<InputSpec>)
    ensures CloneSpecs(specs, map[]) == Ok(specs)
    ensures Genhash(CloneSpecs(specs, map[]).value) == Genhash(specs)
  {
    assert CloneSpecs(specs, map[]).value == specs;
  }

  /** Without an explicit key, two valid nodes have the same key exactly when
      they have the same specification hash and the same full name: the hash
      has a fixed length, so the `-` after it is always at the same place. */
  lemma KeyDeterminesHashAndName(a: Node, b: Node)
    requires a.Valid() && b.Valid()
    requires a.explicitKey == "" && b.explicitKey == ""
    ensures a.Key() == b.Key() <==> a.specsHash == b.specsHash && a.fullname == b.fullname
  {
    if a.Key() == b.Key() {
      var n := Identity.HashLength;
      assert a.specsHash == a.Key()[..n] == b.Key()[..n] == b.specsHash;
      assert a.fullname == a.Key()[n + 1..] == b.Key()[n + 1..] == b.fullname;
    }
  }

  /** The abbreviation is the name, a dot and the first ten characters of
      the hash. */
  lemma AbbrevShape(n: Node)
    requires n.Valid()
    ensures |n.Abbrev()| == |n.name| + 11
    ensures n.Abbrev() == n.name + "." + n.specsHash[..10]
  {
  }

  /** Every node of `n.alldeps` has its own dependencies in `n.alldeps`,
      provided the direct dependencies have that property: so nodes built
      one after another have transitively closed dependency sets. */
  lemma AlldepsClosed(n: Node)
    requires n.Valid()
    requires forall d, x :: d in n.deps && x in d.alldeps ==> x.alldeps <= d.alldeps
    ensures forall x :: x in n.alldeps ==> x.alldeps <= n.alldeps
  {
  }

  /** The registration assertions keep consumer and dependent sets free of
      two nodes with one key: a node is added only when no member has its
      key. */
  lemma AddKeepsKeysUnique(s: set<Node>, n: Node)
    requires UniqueKeys(s) && !HasKey(s, n.Key())
    ensures UniqueKeys(s + {n}) && HasKey(s + {n}, n.Key())
  {
  }

  /** Two nodes whose inputs have the same key texts, declared in any
      order, over functions of the same full name, have the same key: the
      specifications themselves may differ (a node bound as it is and its key
      string, say) wherever their canonical texts agree. */
  lemma SameInputsSameKey(a: Node, b: Node)
    requires a.Valid() && b.Valid()
    requires a.explicitKey == "" && b.explicitKey == ""
    requires multiset(Identity.KeyTexts(Keys(a.specs))) == multiset(Identity.KeyTexts(Keys(b.specs)))
    requires a.fullname == b.fullname
    ensures a.Key() == b.Key()
  {
    Identity.TextsDecideHash(Keys(a.specs), Keys(b.specs));
  }
}
