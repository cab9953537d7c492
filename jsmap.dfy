/**
 * A JavaScript `Map`: a key keeps the position of its first `set`, and a
 * later `set` of the same key replaces the value in place.  The class is the
 * mutable map the source fills in loops; the functions over a sequence of
 * `(key, value)` calls say what such a map holds afterwards.
 */
module JsMap {
  import opened Wrappers
  import opened Seqs

  /** The keys of a sequence of `set(key, value)` calls, in call order. */
  function Keys<K, V>(ps: seq<(K, V)>): (ks: seq<K>)
    ensures |ks| == |ps|
    ensures forall i :: 0 <= i < |ps| ==> ks[i] == ps[i].0
  {
    if ps == [] then [] else Keys(ps[..|ps| - 1]) + [ps[|ps| - 1].0]
  }

  lemma KeysSnoc<K, V>(ps: seq<(K, V)>, p: (K, V))
    ensures Keys(ps + [p]) == Keys(ps) + [p.0]
  {
    assert (ps + [p])[..|ps|] == ps;
  }

  /** The last call that set key `k`. */
  function LastIndex<K(==), V>(ps: seq<(K, V)>, k: K): (i: nat)
    requires k in Keys(ps)
    ensures i < |ps| && ps[i].0 == k
    ensures forall j :: i < j < |ps| ==> ps[j].0 != k
  {
    if ps[|ps| - 1].0 == k then |ps| - 1 else LastIndex(ps[..|ps| - 1], k)
  }

  /** The value a map holds for `k` after the calls `ps`: the last one written. */
  function LastValue<K(==), V>(ps: seq<(K, V)>, k: K): V
    requires k in Keys(ps)
  {
    ps[LastIndex(ps, k)].1
  }

  lemma LastValueSnoc<K, V>(ps: seq<(K, V)>, p: (K, V), k: K)
    requires k in Keys(ps + [p])
    ensures p.0 != k ==> k in Keys(ps)
    ensures LastValue(ps + [p], k) == if p.0 == k then p.1 else LastValue(ps, k)
  {
    KeysSnoc(ps, p);
    assert (ps + [p])[..|ps|] == ps;
  }

  /** With distinct keys every call's value survives. */
  lemma {:induction false} LastValueOfDistinct<K, V>(ps: seq<(K, V)>, i: nat)
    requires NoDup(Keys(ps)) && i < |ps|
    ensures ps[i].0 in Keys(ps) && LastValue(ps, ps[i].0) == ps[i].1
  {
    var p, q := ps[..|ps| - 1], ps[|ps| - 1];
    assert ps == p + [q];
    KeysSnoc(p, q);
    LastValueSnoc(p, q, ps[i].0);
    if i < |ps| - 1 {
      var ks := Keys(ps);
      assert ks[i] == ps[i].0 && ks[|ps| - 1] == q.0;
      assert Keys(p) == ks[..|ps| - 1];
      LastValueOfDistinct(p, i);
    }
  }

  function ValuesAt<K(==), V>(ps: seq<(K, V)>, ks: seq<K>): (vs: seq<V>)
    requires forall i :: 0 <= i < |ks| ==> ks[i] in Keys(ps)
    ensures |vs| == |ks|
    ensures forall i :: 0 <= i < |ks| ==> vs[i] == LastValue(ps, ks[i])
  {
    seq(|ks|, i requires 0 <= i < |ks| => LastValue(ps, ks[i]))
  }

  /**
   * `Array.from(m.values())` for a fresh map `m` after `m.set(k, v)` for each
   * pair of `ps` in order.
   */
  function MapValues<K(==,!new), V>(ps: seq<(K, V)>): seq<V>
  {
    ValuesAt(ps, Dedup(Keys(ps)))
  }

  /** With distinct keys a map keeps every value, in call order. */
  lemma MapValuesOfDistinct<K(!new), V>(ps: seq<(K, V)>)
    requires NoDup(Keys(ps))
    ensures |MapValues(ps)| == |ps|
    ensures forall i :: 0 <= i < |ps| ==> MapValues(ps)[i] == ps[i].1
  {
    DedupOfNoDup(Keys(ps));
    forall i | 0 <= i < |ps|
      ensures MapValues(ps)[i] == ps[i].1
    {
      LastValueOfDistinct(ps, i);
    }
  }

  /** The keys are in first-set order and each value is the last one set. */
  ghost predicate Models<K(!new), V>(keys: seq<K>, values: map<K, V>, ps: seq<(K, V)>)
  {
    && keys == Dedup(Keys(ps))
    && (forall k :: k in values <==> k in keys)
    && (forall k :: k in values ==> k in Keys(ps) && values[k] == LastValue(ps, k))
  }

  /** One more `set(k, v)` call keeps the map in step with the calls made so far. */
  lemma ModelsSnoc<K(!new), V>(keys: seq<K>, values: map<K, V>, ps: seq<(K, V)>, k: K, v: V)
    requires Models(keys, values, ps)
    ensures Models(if k in keys then keys else keys + [k], values[k := v], ps + [(k, v)])
  {
    var ps', values' := ps + [(k, v)], values[k := v];
    var keys' := if k in keys then keys else keys + [k];
    KeysSnoc(ps, (k, v));
    DedupSnoc(Keys(ps), k);
    assert keys' == Dedup(Keys(ps'));
    forall k' | k' in values'
      ensures k' in Keys(ps') && values'[k'] == LastValue(ps', k')
    {
      LastValueSnoc(ps, (k, v), k');
    }
    assert values'.Keys == values.Keys + {k};
    forall k' ensures k' in values' <==> k' in keys' {
      if k' == k {
      } else {
        assert k' in values' <==> k' in values;
        assert k' in keys' <==> k' in keys;
      }
    }
    assert Models(keys', values', ps');
  }

  /** The values stored under `keys`, in the order of `keys`. */
  function ListValues<K, V>(keys: seq<K>, values: map<K, V>): seq<V>
  {
    if keys == [] then []
    else
      var k := keys[|keys| - 1];
      ListValues(keys[..|keys| - 1], values) + (if k in values then [values[k]] else [])
  }

  lemma {:induction false} ListValuesAt<K, V>(keys: seq<K>, values: map<K, V>)
    requires forall i :: 0 <= i < |keys| ==> keys[i] in values
    ensures |ListValues(keys, values)| == |keys|
    ensures forall i :: 0 <= i < |keys| ==> ListValues(keys, values)[i] == values[keys[i]]
  {
    if keys != [] {
      ListValuesAt(keys[..|keys| - 1], values);
    }
  }

  /** The keys and values a fresh map holds after the calls `ps`. */
  function MapState<K, V>(ps: seq<(K, V)>): (st: (seq<K>, map<K, V>))
  {
    if ps == [] then ([], map[])
    else
      var (keys, values) := MapState(ps[..|ps| - 1]);
      var k := ps[|ps| - 1].0;
      (if k in keys then keys else keys + [k], values[k := ps[|ps| - 1].1])
  }

  lemma MapStateSnoc<K, V>(ps: seq<(K, V)>, k: K, v: V)
    ensures MapState(ps + [(k, v)]) ==
      (if k in MapState(ps).0 then MapState(ps).0 else MapState(ps).0 + [k], MapState(ps).1[k := v])
  {
    assert (ps + [(k, v)])[..|ps|] == ps;
  }

  /** The state after the calls `ps` is the one the calls model. */
  lemma {:induction false} MapStateModels<K(!new), V>(ps: seq<(K, V)>)
    ensures Models(MapState(ps).0, MapState(ps).1, ps)
  {
    if ps != [] {
      var q, p := ps[..|ps| - 1], ps[|ps| - 1];
      assert ps == q + [p];
      MapStateModels(q);
      ModelsSnoc(MapState(q).0, MapState(q).1, q, p.0, p.1);
      MapStateSnoc(q, p.0, p.1);
    }
  }

  /** Listing the state after the calls `ps` gives `MapValues(ps)`. */
  lemma MapStateValues<K(!new), V>(ps: seq<(K, V)>)
    ensures forall i :: 0 <= i < |MapState(ps).0| ==> MapState(ps).0[i] in MapState(ps).1
    ensures ListValues(MapState(ps).0, MapState(ps).1) == MapValues(ps)
  {
    MapStateModels(ps);
    var (keys, values) := MapState(ps);
    ListValuesAt(keys, values);
  }

  class OrderedMap<K(==,!new), V> {
    var keys: seq<K>
    var values: map<K, V>

    ghost predicate Valid()
      reads this
    {
      NoDup(keys) && forall k :: k in values <==> k in keys
    }

    /** `new Map()`. */
    constructor ()
      ensures Valid() && keys == [] && values == map[]
      ensures Models(keys, values, [])
    {
      keys, values := [], map[];
    }

    /** `map.get(k)`: `undefined` for a missing key. */
    function Get(k: K): (r: Option<V>)
      reads this
      ensures r.Some? <==> k in values
      ensures r.Some? ==> r.value == values[k]
    {
      if k in values then Some(values[k]) else None
    }

    /** `map.set(k, v)`: a new key goes last, an existing key keeps its place. */
    method Set(k: K, v: V)
      requires Valid()
      modifies this
      ensures Valid()
      ensures values == old(values)[k := v]
      ensures keys == if k in old(keys) then old(keys) else old(keys) + [k]
    {
      if k !in values {
        keys := keys + [k];
      }
      values := values[k := v];
    }

    /** `Array.from(map.values())`. */
    function Values(): (vs: seq<V>)
      reads this
      requires Valid()
      ensures vs == ListValues(keys, values)
      ensures |vs| == |keys|
      ensures forall i :: 0 <= i < |keys| ==> vs[i] == values[keys[i]]
    {
      ListValuesAt(keys, values);
      ListValues(keys, values)
    }
  }
}
