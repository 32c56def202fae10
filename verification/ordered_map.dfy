/**
 * The JavaScript `Map` the note store keeps its notes in, with string keys:
 * lookup by key, and iteration (`values()`) in insertion order. Setting a key
 * that is already present replaces its value and keeps its position; setting
 * a new key appends it; deleting a key removes it from the order.
 */
module OrderedMaps {
  import opened Wrappers

  /** Position of `k` in `ks`, which holds it. */
  function Find(ks: seq<string>, k: string): (i: nat)
    requires k in ks
    ensures i < |ks| && ks[i] == k
    ensures forall j :: 0 <= j < i ==> ks[j] != k
  {
    if ks[0] == k then 0 else 1 + Find(ks[1..], k)
  }

  /** No key occurs twice. */
  ghost predicate Distinct(ks: seq<string>) {
    forall i, j :: 0 <= i < j < |ks| ==> ks[i] != ks[j]
  }

  /** A sequence without repetitions has as many elements as its set. */
  lemma {:induction false} DistinctCard(ks: seq<string>)
    requires Distinct(ks)
    ensures |set k | k in ks| == |ks|
  {
    if ks != [] {
      var rest := ks[1..];
      assert Distinct(rest);
      DistinctCard(rest);
      assert (set k | k in ks) == (set k | k in rest) + {ks[0]};
      assert ks[0] !in rest;
    }
  }

  datatype OrderedMap<V> = OrderedMap(keys: seq<string>, vals: map<string, V>) {

    /** `keys` lists every key of `vals` exactly once, in insertion order. */
    ghost predicate Valid() {
      && Distinct(keys)
      && (forall i :: 0 <= i < |keys| ==> keys[i] in vals)
      && (forall k :: k in vals ==> k in keys)
    }

    /** `Map.prototype.get`: the value under `k`, or nothing. */
    function Get(k: string): (r: Option<V>)
      ensures r.Some? <==> k in vals
      ensures r.Some? ==> r.value == vals[k]
    {
      if k in vals then Some(vals[k]) else None
    }

    /** Position of the present key `k` in iteration order. */
    function IndexOf(k: string): (i: nat)
      requires Valid() && k in vals
      ensures i < |keys| && keys[i] == k
    {
      Find(keys, k)
    }

    /** `Array.from(map.values())`: the values in insertion order. */
    function Values(): (r: seq<V>)
      requires Valid()
      ensures |r| == |keys| == |vals|
      ensures forall i :: 0 <= i < |keys| ==> r[i] == vals[keys[i]]
    {
      assert vals.Keys == set k | k in keys;
      DistinctCard(keys);
      seq(|keys|, i requires 0 <= i < |keys| => vals[keys[i]])
    }

    /** `Map.prototype.set`. */
    function Set(k: string, v: V): (r: OrderedMap<V>)
      requires Valid()
      ensures r.Valid()
      ensures r.Get(k) == Some(v)
      ensures forall j :: j != k ==> r.Get(j) == Get(j)
      ensures keys <= r.keys
      ensures k in vals ==> r.keys == keys
    {
      if k in vals then OrderedMap(keys, vals[k := v])
      else OrderedMap(keys + [k], vals[k := v])
    }

    /** `Map.prototype.delete`. */
    function Delete(k: string): (r: OrderedMap<V>)
      requires Valid()
      ensures r.Valid()
      ensures r.Get(k) == None
      ensures r.vals == vals - {k}
      ensures k in vals ==> |r.vals| == |vals| - 1
      ensures k !in vals ==> r == this
    {
      if k in vals then
        var i := IndexOf(k);
        RemoveAt(this, i);
        OrderedMap(keys[..i] + keys[i + 1..], vals - {k})
      else this
    }
  }

  /** Setting a present key replaces its value in place; setting a new key appends its value. */
  lemma SetValues<V>(m: OrderedMap<V>, k: string, v: V)
    requires m.Valid()
    ensures k in m.vals ==> m.Set(k, v).Values() == m.Values()[m.IndexOf(k) := v]
    ensures k !in m.vals ==> m.Set(k, v).Values() == m.Values() + [v]
  {
    var r := m.Set(k, v);
    var vs := m.Values();
    if k in m.vals {
      var i := m.IndexOf(k);
      assert r == OrderedMap(m.keys, m.vals[k := v]);
      forall j | 0 <= j < |m.keys| ensures r.Values()[j] == vs[i := v][j] {
        if j != i {
          assert m.keys[j] != k;
        }
      }
    } else {
      assert r == OrderedMap(m.keys + [k], m.vals[k := v]);
      forall j | 0 <= j < |r.keys| ensures r.Values()[j] == (vs + [v])[j] {
        if j < |m.keys| {
          assert r.keys[j] == m.keys[j] != k;
        }
      }
    }
  }

  /** Every stored value occurs in the iteration. */
  lemma ValuesContainAll<V>(m: OrderedMap<V>)
    requires m.Valid()
    ensures forall k :: k in m.vals ==> m.vals[k] in m.Values()
  {
    forall k | k in m.vals ensures m.vals[k] in m.Values() {
      assert m.Values()[m.IndexOf(k)] == m.vals[k];
    }
  }

  /** Deleting a present key drops its value from the iteration and keeps the others in order. */
  lemma DeleteValues<V>(m: OrderedMap<V>, k: string)
    requires m.Valid() && k in m.vals
    ensures m.Delete(k).Values() == m.Values()[..m.IndexOf(k)] + m.Values()[m.IndexOf(k) + 1..]
  {
    var i := m.IndexOf(k);
    RemoveAt(m, i);
    assert m.Delete(k) == OrderedMap(m.keys[..i] + m.keys[i + 1..], m.vals - {m.keys[i]});
  }

  /** Dropping position `i` of a repetition-free sequence drops exactly the key there. */
  lemma RemoveAtKeys(ks: seq<string>, i: nat)
    requires Distinct(ks) && i < |ks|
    ensures Distinct(ks[..i] + ks[i + 1..])
    ensures forall k :: k in ks[..i] + ks[i + 1..] <==> k in ks && k != ks[i]
  {
    var rs := ks[..i] + ks[i + 1..];
    forall j | 0 <= j < |rs| ensures rs[j] == if j < i then ks[j] else ks[j + 1] { }
    forall k | k in ks && k != ks[i] ensures k in rs {
      var j :| 0 <= j < |ks| && ks[j] == k;
      if j < i { assert rs[j] == k; } else { assert rs[j - 1] == k; }
    }
  }

  /** Removing the key at position `i` keeps the map well formed and drops exactly that value. */
  lemma RemoveAt<V>(m: OrderedMap<V>, i: nat)
    requires m.Valid() && i < |m.keys|
    ensures var r := OrderedMap(m.keys[..i] + m.keys[i + 1..], m.vals - {m.keys[i]});
      && r.Valid()
      && r.Values() == m.Values()[..i] + m.Values()[i + 1..]
  {
    var ks := m.keys;
    var rks := ks[..i] + ks[i + 1..];
    var rvals := m.vals - {ks[i]};
    RemoveAtKeys(ks, i);
    assert forall k :: k in rvals <==> k in m.vals && k != ks[i];
    var r := OrderedMap(rks, rvals);
    assert r.Valid();
    var vs := m.Values();
    var ws := vs[..i] + vs[i + 1..];
    var rvs := r.Values();
    assert |rvs| == |ws|;
    forall j | 0 <= j < |rks| ensures rvs[j] == ws[j] {
      if j < i {
        assert rks[j] == ks[j];
      } else {
        assert rks[j] == ks[j + 1];
      }
    }
  }

  /** `new Map()`. */
  function Empty<V>(): (m: OrderedMap<V>)
    ensures m.Valid() && m.Values() == []
    ensures forall k :: m.Get(k) == None
  {
    OrderedMap([], map[])
  }
}
