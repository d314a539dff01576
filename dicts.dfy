/**
 * Python's `dict`, which remembers insertion order: the keys in the order they were
 * first inserted, and the value of each. Assigning to a present key keeps its
 * position; `del` removes the key and leaves the others in order.
 */
module Dicts {

  datatype Dict<K(==), V> = Dict(keys: seq<K>, values: map<K, V>) {

    /** Each key appears once, and exactly the listed keys have a value. */
    ghost predicate Valid() {
      NoDuplicates(keys)
      && (forall k :: k in values ==> k in keys)
      && (forall i :: 0 <= i < |keys| ==> keys[i] in values)
    }

    /** A key has a value exactly when it is listed. */
    lemma KeyListed(k: K)
      requires Valid()
      ensures k in values <==> k in keys
    {
      if k in keys {
        var i :| 0 <= i < |keys| && keys[i] == k;
      }
    }

    /** `d[k] = v` */
    function Put(k: K, v: V): (d: Dict<K, V>)
      requires Valid()
      ensures d.Valid()
      ensures d.values == values[k := v]
      ensures k in values ==> d.keys == keys
      ensures k !in values ==> d.keys == keys + [k]
    {
      if k in values then Dict(keys, values[k := v]) else Dict(keys + [k], values[k := v])
    }

    /** `del d[k]` */
    function Remove(k: K): (d: Dict<K, V>)
      requires Valid()
      ensures d.Valid()
      ensures d.values == values - {k}
      ensures d.keys == Without(keys, k)
    {
      WithoutKeepsDistinct(keys, k);
      var r := Without(keys, k);
      assert forall i :: 0 <= i < |r| ==> r[i] in r;
      Dict(Without(keys, k), values - {k})
    }
  }

  predicate NoDuplicates<T(==)>(xs: seq<T>) {
    forall i, j :: 0 <= i < j < |xs| ==> xs[i] != xs[j]
  }

  function Empty<K, V>(): (d: Dict<K, V>)
    ensures d.Valid() && d.keys == []
  {
    Dict([], map[])
  }

  /** `xs` with every occurrence of `x` taken out, the rest in order. */
  function Without<T(==)>(xs: seq<T>, x: T): (r: seq<T>)
    ensures x !in r
    ensures forall y :: y in r ==> y in xs
    ensures forall y :: y in xs && y != x ==> y in r
    ensures x !in xs ==> r == xs
  {
    if xs == [] then []
    else (if xs[0] == x then [] else [xs[0]]) + Without(xs[1..], x)
  }

  lemma {:induction false} WithoutKeepsDistinct<T>(xs: seq<T>, x: T)
    requires NoDuplicates(xs)
    ensures NoDuplicates(Without(xs, x))
  {
    if xs != [] {
      var rest := Without(xs[1..], x);
      assert NoDuplicates(xs[1..]) by {
        forall i, j | 0 <= i < j < |xs| - 1 ensures xs[1..][i] != xs[1..][j] {
          assert xs[1..][i] == xs[i + 1] && xs[1..][j] == xs[j + 1];
        }
      }
      WithoutKeepsDistinct(xs[1..], x);
      if xs[0] != x {
        assert xs[0] !in xs[1..];
        assert xs[0] !in rest;
        var r := [xs[0]] + rest;
        forall i, j | 0 <= i < j < |r| ensures r[i] != r[j] {
          if i == 0 {
            assert r[j] == rest[j - 1] && rest[j - 1] in rest;
          } else {
            assert r[i] == rest[i - 1] && r[j] == rest[j - 1];
          }
        }
      } else {
        assert [] + rest == rest;
      }
    }
  }

  /** Taking out the first of distinct keys leaves the others in order. */
  lemma WithoutFirst<T>(xs: seq<T>)
    requires |xs| >= 1 && NoDuplicates(xs)
    ensures Without(xs, xs[0]) == xs[1..]
  {
    assert xs[0] !in xs[1..];
  }
}
