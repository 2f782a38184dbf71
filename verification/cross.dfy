/** The collection helpers the fan-out is built from: `itertools.product`
    over the foreach axes, and `dict(pairs)` / `dict.update(pairs)` that
    turn a combination and the common bindings into fork inputs. */
module Cross {
  import opened Optional

  /** `product(*[[(k, x) for x in v] for k, v in axes])`: one combination per
      choice of a value on every axis, the first axis varying slowest. */
  function Product<K, V>(axes: seq<(K, seq<V>)>): seq<seq<(K, V)>>
  {
    if axes == [] then [[]] else Extend(axes[0].0, axes[0].1, Product(axes[1..]))
  }

  /** Each value of one axis, in order, put in front of each combination of the rest. */
  function Extend<K, V>(k: K, vs: seq<V>, rest: seq<seq<(K, V)>>): seq<seq<(K, V)>>
  {
    if vs == [] then []
    else seq(|rest|, j requires 0 <= j < |rest| => [(k, vs[0])] + rest[j]) + Extend(k, vs[1..], rest)
  }

  /** The product of the axis lengths. */
  function Size<K, V>(axes: seq<(K, seq<V>)>): nat
  {
    if axes == [] then 1 else |axes[0].1| * Size(axes[1..])
  }

  /** `c` picks one value of every axis, keyed by that axis, in axis order. */
  predicate IsCombination<K(==), V(==)>(c: seq<(K, V)>, axes: seq<(K, seq<V>)>)
  {
    |c| == |axes| && forall i :: 0 <= i < |c| ==> c[i].0 == axes[i].0 && c[i].1 in axes[i].1
  }

  lemma {:induction false} ExtendCount<K, V>(k: K, vs: seq<V>, rest: seq<seq<(K, V)>>)
    ensures |Extend(k, vs, rest)| == |vs| * |rest|
  {
    if vs != [] {
      ExtendCount(k, vs[1..], rest);
      assert |vs| * |rest| == |rest| + (|vs| - 1) * |rest|;
    }
  }

  /** The number of combinations is the product of the axis lengths. */
  lemma {:induction false} ProductCount<K, V>(axes: seq<(K, seq<V>)>)
    ensures |Product(axes)| == Size(axes)
  {
    if axes != [] {
      ProductCount(axes[1..]);
      ExtendCount(axes[0].0, axes[0].1, Product(axes[1..]));
    }
  }

  lemma {:induction false} ExtendMembers<K, V>(k: K, vs: seq<V>, rest: seq<seq<(K, V)>>, c: seq<(K, V)>)
    ensures c in Extend(k, vs, rest) <==> |c| > 0 && c[0].0 == k && c[0].1 in vs && c[1..] in rest
  {
    if vs != [] {
      ExtendMembers(k, vs[1..], rest, c);
      var head := seq(|rest|, j requires 0 <= j < |rest| => [(k, vs[0])] + rest[j]);
      assert Extend(k, vs, rest) == head + Extend(k, vs[1..], rest);
      if |c| > 0 && c[0] == (k, vs[0]) && c[1..] in rest {
        var j :| 0 <= j < |rest| && rest[j] == c[1..];
        assert head[j] == c;
      }
      if c in head {
        var j :| 0 <= j < |head| && head[j] == c;
        assert c[1..] == rest[j];
      }
      if |c| > 0 {
        assert c[0].1 in vs <==> c[0].1 == vs[0] || c[0].1 in vs[1..] by {
          assert vs == [vs[0]] + vs[1..];
        }
      }
    }
  }

  /** A sequence is a combination of the product exactly when it picks one
      value of every axis, in axis order. */
  lemma {:induction false} ProductMembers<K, V>(axes: seq<(K, seq<V>)>, c: seq<(K, V)>)
    ensures c in Product(axes) <==> IsCombination(c, axes)
  {
    if axes != [] {
      ExtendMembers(axes[0].0, axes[0].1, Product(axes[1..]), c);
      if |c| > 0 {
        ProductMembers(axes[1..], c[1..]);
        if IsCombination(c[1..], axes[1..]) && c[0].0 == axes[0].0 && c[0].1 in axes[0].1 {
          forall i | 0 <= i < |c| ensures c[i].0 == axes[i].0 && c[i].1 in axes[i].1 {
            if i > 0 { assert c[1..][i - 1] == c[i]; }
          }
        }
        if IsCombination(c, axes) {
          forall i | 0 <= i < |c| - 1 ensures c[1..][i].0 == axes[1..][i].0 && c[1..][i].1 in axes[1..][i].1 {
            assert c[1..][i] == c[i + 1];
          }
        }
      }
    }
  }

  /** `d.update(pairs)` for a dict `d` given as a map: pairs are stored in order. */
  function Update<K, V>(m: map<K, V>, ps: seq<(K, V)>): map<K, V>
    decreases |ps|
  {
    if ps == [] then m else Update(m[ps[0].0 := ps[0].1], ps[1..])
  }

  /** `dict(pairs)`. */
  function Dict<K, V>(ps: seq<(K, V)>): map<K, V>
  {
    Update(map[], ps)
  }

  /** The value of the last pair keyed `k`, if any. */
  function Last<K(==), V>(ps: seq<(K, V)>, k: K): Option<V>
  {
    if ps == [] then None
    else if Last(ps[1..], k).Some? then Last(ps[1..], k)
    else if ps[0].0 == k then Some(ps[0].1)
    else None
  }

  /** After an update, a key holds the value of its last pair, or its old
      value when no pair names it. */
  lemma {:induction false} UpdateLookup<K, V>(m: map<K, V>, ps: seq<(K, V)>, k: K)
    ensures k in Update(m, ps) <==> k in m || Last(ps, k).Some?
    ensures Last(ps, k).Some? ==> Update(m, ps)[k] == Last(ps, k).value
    ensures Last(ps, k).None? && k in m ==> Update(m, ps)[k] == m[k]
    decreases |ps|
  {
    if ps != [] {
      UpdateLookup(m[ps[0].0 := ps[0].1], ps[1..], k);
    }
  }

  /** The last pair keyed `k` is a pair of `ps`, and one exists when some pair is keyed `k`. */
  lemma {:induction false} LastMember<K, V>(ps: seq<(K, V)>, k: K)
    ensures Last(ps, k).Some? ==> (k, Last(ps, k).value) in ps
    ensures Last(ps, k).Some? <==> exists i :: 0 <= i < |ps| && ps[i].0 == k
  {
    if ps != [] {
      LastMember(ps[1..], k);
      if exists i :: 0 <= i < |ps[1..]| && ps[1..][i].0 == k {
        var i :| 0 <= i < |ps[1..]| && ps[1..][i].0 == k;
        assert ps[i + 1].0 == k;
      }
      if exists i :: 0 <= i < |ps| && ps[i].0 == k {
        var i :| 0 <= i < |ps| && ps[i].0 == k;
        if i > 0 { assert ps[1..][i - 1].0 == k; }
      }
    }
  }
}
