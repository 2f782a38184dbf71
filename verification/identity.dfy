/** Content-derived identity of a node: the key of every input
    specification, their canonical text, and the hash over the sorted texts
    (`Node.genhash`). */
module Identity {
  import opened Optional
  import Text
  import Sorting

  /** A plain Python value bound to an input: a scalar shown by its `repr`,
      a string, or a list of plain values. */
  datatype Data = Atom(repr: string) | Str(text: string) | Items(elems: seq<Data>)

  /** The middle component of `InputSpec.key`: `value.key` when the value
      has a key (a stream reference or a node), else the value itself. */
  datatype ValueKey =
    | NoneKey                                  // the value None
    | DataKey(data: Data)                      // a plain value
    | HandleKey(id: nat)                       // an object made by the driver
    | StreamKey(node: string, stream: Option<string>)  // `(node.key,)` or `(node.key, name)`
    | NodeKey(node: string)                    // a bare node's key

  /** `InputSpec.key`: `(name, value key, foreach)`. */
  datatype SpecKey = SpecKey(name: string, value: ValueKey, foreach: bool)

  function Quote(s: string): string
  {
    "'" + s + "'"
  }

  function DataText(d: Data): string
    decreases d
  {
    match d
    case Atom(r) => r
    case Str(s) => Quote(s)
    case Items(es) => "[" + Text.Join(seq(|es|, i requires 0 <= i < |es| => DataText(es[i]))) + "]"
  }

  function ValueKeyText(v: ValueKey): string
  {
    match v
    case NoneKey => "None"
    case DataKey(d) => DataText(d)
    case HandleKey(id) => "<handle " + Text.Decimal(id) + ">"
    case StreamKey(node, None) => TupleText([Quote(node)])
    case StreamKey(node, Some(name)) => TupleText([Quote(node), Quote(name)])
    case NodeKey(node) => Quote(node)
  }

  /** The canonical text of a key, after Python's `repr` of the key tuple;
      keys are ordered by this text. */
  function KeyText(k: SpecKey): string
  {
    TupleText([Quote(k.name), ValueKeyText(k.value), if k.foreach then "True" else "False"])
  }

  /** The texts of a node's default-stream key, of one of its named-stream
      keys and of the bare node's key differ pairwise, and the default-stream
      text gives back the node's key: the hash input tells them apart. */
  lemma StreamKeyTextsDiffer(k: string, s: string, k': string)
    ensures ValueKeyText(StreamKey(k, None)) != ValueKeyText(StreamKey(k, Some(s)))
    ensures ValueKeyText(StreamKey(k, None)) != ValueKeyText(NodeKey(k))
    ensures ValueKeyText(StreamKey(k, Some(s))) != ValueKeyText(NodeKey(k))
    ensures ValueKeyText(StreamKey(k, None)) == ValueKeyText(StreamKey(k', None)) ==> k == k'
  {
    var a := ValueKeyText(StreamKey(k, None));
    var b := ValueKeyText(StreamKey(k, Some(s)));
    var c := ValueKeyText(NodeKey(k));
    assert a == "('" + k + "',)";
    assert Text.Join([Quote(k), Quote(s)]) == Quote(k) + ", " + Quote(s);
    assert |b| == |k| + |s| + 8;
    assert a[0] == b[0] == '(' && c[0] == '\'';
    var a' := ValueKeyText(StreamKey(k', None));
    assert a' == "('" + k' + "',)";
    if a == a' {
      assert k == a[2..|a| - 3] == a'[2..|a'| - 3] == k';
    }
  }

  /** `repr` of a tuple whose items have these texts: `()`, `(a,)`, `(a, b)`. */
  function TupleText(items: seq<string>): string
  {
    if |items| == 1 then "(" + items[0] + ",)" else "(" + Text.Join(items) + ")"
  }

  function KeyTexts(keys: seq<SpecKey>): (r: seq<string>)
    ensures |r| == |keys|
  {
    Apply(KeyText, keys)
  }

  /** `[f(x) for x in s]`. */
  function Apply<T, U>(f: T -> U, s: seq<T>): (r: seq<U>)
    ensures |r| == |s|
  {
    seq(|s|, i requires 0 <= i < |s| => f(s[i]))
  }

  /** Length of `b32encode(sha256 digest).lower()[:-4]`: 32 bytes give 56
      base-32 characters, the last four of which are padding. */
  const HashLength: nat := 52

  const Base32Alphabet: string := "abcdefghijklmnopqrstuvwxyz234567"

  const Modulus: nat := 0x1_0000_0000_0000_0000_0000_0000_0000_0000_0000_0000_0000_0000_0000_0000_0000_0000

  /** A 256-bit checksum standing in for SHA-256: nothing in this model
      depends on which function of the text it is. */
  function Checksum(s: string): nat
  {
    if s == [] then 0 else (Checksum(s[..|s| - 1]) * 257 + s[|s| - 1] as int) % Modulus
  }

  /** The `count` lowest base-32 digits of `n`, most significant first. */
  function Base32Digits(n: nat, count: nat): (r: string)
    ensures |r| == count
    ensures forall i :: 0 <= i < |r| ==> r[i] in Base32Alphabet
  {
    if count == 0 then [] else Base32Digits(n / 32, count - 1) + [Base32Alphabet[n % 32]]
  }

  /** Stand-in for `b32encode(sha256(text).digest()).lower()[:-4]`: a fixed
      length string over the lower-case base-32 alphabet. */
  function Digest(text: string): (h: string)
    ensures |h| == HashLength
    ensures forall i :: 0 <= i < |h| ==> h[i] in Base32Alphabet
  {
    Base32Digits(Checksum(text), HashLength)
  }

  /** `Node.genhash`: the digest of the keys' texts, sorted. */
  function SpecsHash(keys: seq<SpecKey>): (h: string)
    ensures |h| == HashLength
    ensures '-' !in h
  {
    Digest(TupleText(Sorting.Sort(KeyTexts(keys))))
  }

  lemma ApplyConcat<T, U>(f: T -> U, s: seq<T>, t: seq<T>)
    ensures Apply(f, s + t) == Apply(f, s) + Apply(f, t)
  {
  }
  lemma RemoveAt<T>(s: seq<T>, k: nat)
    requires k < |s|
    ensures multiset(s[..k] + s[k + 1..]) == multiset(s) - multiset{s[k]}
  {
    assert s == s[..k] + [s[k]] + s[k + 1..];
  }
  /** Applying `f` around an element taken out of the middle. */
  lemma ApplySplit<T, U>(f: T -> U, b: seq<T>, k: nat)
    requires k < |b|
    ensures multiset(Apply(f, b)) == multiset{f(b[k])} + multiset(Apply(f, b[..k] + b[k + 1..]))
  {
    var pre, post := b[..k], b[k + 1..];
    assert b == pre + [b[k]] + post;
    ApplyConcat(f, pre, [b[k]]);
    ApplyConcat(f, pre + [b[k]], post);
    ApplyConcat(f, pre, post);
    var p, q := Apply(f, pre), Apply(f, post);
    assert Apply(f, b) == p + [f(b[k])] + q;
    assert multiset(p + [f(b[k])] + q) == multiset(p) + multiset{f(b[k])} + multiset(q);
  }
  /** Taking one occurrence of `a[0]` out of `b` leaves the elements of `a[1..]`. */
  lemma RemoveMatch<T>(a: seq<T>, b: seq<T>, k: nat)
    requires a != [] && k < |b| && b[k] == a[0]
    requires multiset(a) == multiset(b)
    ensures multiset(a[1..]) == multiset(b[..k] + b[k + 1..])
  {
    RemoveAt(b, k);
    assert multiset(a[1..]) == multiset(a) - multiset{a[0]} by {
      assert a == [a[0]] + a[1..];
      assert multiset(a) == multiset{a[0]} + multiset(a[1..]);
    }
  }

  /** Mapping over two sequences holding the same elements gives two
      sequences holding the same elements. */
  lemma {:induction false} ApplyPermutation<T, U>(f: T -> U, a: seq<T>, b: seq<T>)
    requires multiset(a) == multiset(b)
    ensures multiset(Apply(f, a)) == multiset(Apply(f, b))
  {
    if a == [] {
      assert |b| == 0 by { assert |multiset(b)| == 0; }
    } else {
      assert a[0] in b by { assert a[0] in multiset(b); }
      var k :| 0 <= k < |b| && b[k] == a[0];
      var ta, tb := a[1..], b[..k] + b[k + 1..];
      RemoveMatch(a, b, k);
      ApplyPermutation(f, ta, tb);
      ApplySplit(f, a, 0);
      assert a[..0] + a[1..] == ta;
      ApplySplit(f, b, k);
    }
  }

  /** The hash depends only on the multiset of the keys' texts. */
  lemma TextsDecideHash(a: seq<SpecKey>, b: seq<SpecKey>)
    requires multiset(KeyTexts(a)) == multiset(KeyTexts(b))
    ensures SpecsHash(a) == SpecsHash(b)
  {
    Sorting.SortIgnoresOrder(KeyTexts(a), KeyTexts(b));
  }

  /** The hash depends on the multiset of keys only: declaring the same
      inputs in another order gives the same hash. */
  lemma HashIgnoresOrder(a: seq<SpecKey>, b: seq<SpecKey>)
    requires multiset(a) == multiset(b)
    ensures SpecsHash(a) == SpecsHash(b)
  {
    ApplyPermutation(KeyText, a, b);
    TextsDecideHash(a, b);
  }
}
