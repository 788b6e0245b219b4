/**
 * The insertion-ordered dictionary the store keeps each table in (a
 * JavaScript `Map<number, V>`): `entries` answers `get`, `keys` remembers the
 * order in which keys were first set, which is the order `values()` yields.
 * Setting a present key keeps its position; setting an absent key appends it;
 * deleting removes it from both.
 */
module OrderedMaps {
  import opened Wrappers

  datatype OrderedMap<V> = OrderedMap(keys: seq<int>, entries: map<int, V>)

  predicate Distinct(ks: seq<int>) {
    forall i, j :: 0 <= i < j < |ks| ==> ks[i] != ks[j]
  }

  predicate Increasing(ks: seq<int>) {
    forall i, j :: 0 <= i < j < |ks| ==> ks[i] < ks[j]
  }

  /** The order lists every present key exactly once. */
  predicate Valid<V>(m: OrderedMap<V>) {
    Distinct(m.keys) &&
    (forall k :: k in m.keys ==> k in m.entries) &&
    (forall k :: k in m.entries ==> k in m.keys)
  }

  function Empty<V>(): (m: OrderedMap<V>)
    ensures Valid(m) && Values(m) == []
    ensures forall k :: Get(m, k) == None
  {
    OrderedMap([], map[])
  }

  /** `map.get(k)`. */
  function Get<V>(m: OrderedMap<V>, k: int): Option<V> {
    if k in m.entries then Some(m.entries[k]) else None
  }

  /** `map.set(k, v)`. */
  function Put<V>(m: OrderedMap<V>, k: int, v: V): (r: OrderedMap<V>)
    ensures Get(r, k) == Some(v)
    ensures forall j :: j != k ==> Get(r, j) == Get(m, j)
    ensures Valid(m) ==> Valid(r)
    ensures Increasing(m.keys) && (forall j :: j in m.keys ==> j < k) ==> Increasing(r.keys)
    ensures Increasing(m.keys) && k in m.entries ==> Increasing(r.keys)
  {
    var keys := if k in m.entries then m.keys else m.keys + [k];
    assert Increasing(m.keys) && (forall j :: j in m.keys ==> j < k) ==> Increasing(keys) by {
      if Increasing(m.keys) && (forall j :: j in m.keys ==> j < k) { AppendIncreasing(m.keys, k); }
    }
    OrderedMap(keys, m.entries[k := v])
  }

  lemma AppendIncreasing(ks: seq<int>, k: int)
    requires Increasing(ks) && forall j :: j in ks ==> j < k
    ensures Increasing(ks + [k])
  {
    var r := ks + [k];
    forall i, j | 0 <= i < j < |r| ensures r[i] < r[j] {
      if j == |ks| {
        assert r[i] in ks;
      }
    }
  }

  /** `map.delete(k)`: a no-op when `k` is absent. */
  function Delete<V>(m: OrderedMap<V>, k: int): (r: OrderedMap<V>)
    ensures Get(r, k) == None
    ensures forall j :: j != k ==> Get(r, j) == Get(m, j)
    ensures Valid(m) ==> Valid(r)
    ensures Increasing(m.keys) ==> Increasing(r.keys)
    ensures forall j :: j in r.keys ==> j in m.keys
  {
    WithoutKeepsOrder(m.keys, k);
    OrderedMap(Without(m.keys, k), m.entries - {k})
  }

  /** The order with every occurrence of `k` dropped, the rest kept in place. */
  function Without(ks: seq<int>, k: int): (r: seq<int>)
    ensures |r| <= |ks|
    ensures forall x :: x in r <==> x in ks && x != k
    ensures k !in ks ==> r == ks
  {
    if ks == [] then []
    else
      var pre, last := ks[..|ks| - 1], ks[|ks| - 1];
      assert ks == pre + [last];
      if last == k then Without(pre, k) else Without(pre, k) + [last]
  }

  /** Dropping keys keeps a duplicate-free order duplicate-free and a sorted order sorted. */
  lemma {:induction false} WithoutKeepsOrder(ks: seq<int>, k: int)
    ensures Distinct(ks) ==> Distinct(Without(ks, k))
    ensures Increasing(ks) ==> Increasing(Without(ks, k))
  {
    if ks != [] {
      var pre, last := ks[..|ks| - 1], ks[|ks| - 1];
      assert ks == pre + [last];
      WithoutKeepsOrder(pre, k);
      var init := Without(pre, k);
      if last != k {
        var r := init + [last];
        if Distinct(ks) {
          assert Distinct(pre) && last !in pre;
          assert last !in init;
          forall i, j | 0 <= i < j < |r| ensures r[i] != r[j] {
            if j == |init| { assert r[i] in init; }
          }
        }
        if Increasing(ks) {
          assert Increasing(pre);
          assert forall x :: x in pre ==> x < last;
          AppendIncreasing(init, last);
        }
      }
    }
  }

  /** `Array.from(map.values())`. */
  function Values<V>(m: OrderedMap<V>): (r: seq<V>)
    ensures (forall k :: k in m.keys ==> k in m.entries) ==>
              |r| == |m.keys| && forall i :: 0 <= i < |r| ==> m.keys[i] in m.entries && r[i] == m.entries[m.keys[i]]
  {
    ValuesOf(m.keys, m.entries)
  }

  /** The entries of `ks`, in the order of `ks` (keys without an entry are skipped). */
  function ValuesOf<V>(ks: seq<int>, entries: map<int, V>): (r: seq<V>)
    ensures |r| <= |ks|
    ensures (forall k :: k in ks ==> k in entries) ==>
              |r| == |ks| && forall i :: 0 <= i < |r| ==> ks[i] in entries && r[i] == entries[ks[i]]
  {
    if ks == [] then []
    else
      var last := ks[|ks| - 1];
      assert forall x :: x in ks[..|ks| - 1] ==> x in ks;
      ValuesOf(ks[..|ks| - 1], entries) + (if last in entries then [entries[last]] else [])
  }

  /** Every value listed is stored under some key, and every stored value is listed. */
  lemma ValuesMember<V>(m: OrderedMap<V>, v: V)
    requires Valid(m)
    ensures v in Values(m) <==> exists k :: k in m.entries && m.entries[k] == v
  {
    var vs := Values(m);
    if v in vs {
      var i :| 0 <= i < |vs| && vs[i] == v;
      assert m.keys[i] in m.entries && m.entries[m.keys[i]] == v;
    }
    if k :| k in m.entries && m.entries[k] == v {
      assert k in m.keys;
      var i :| 0 <= i < |m.keys| && m.keys[i] == k;
      assert vs[i] == v;
    }
  }

  /** Setting an absent key appends its value to the scan. */
  lemma ValuesPutNew<V>(m: OrderedMap<V>, k: int, v: V)
    requires Valid(m) && k !in m.entries
    ensures Values(Put(m, k, v)) == Values(m) + [v]
  {
    var r := Put(m, k, v);
    assert forall j :: j in r.keys ==> j in r.entries;
    var a, b := Values(r), Values(m) + [v];
    assert |a| == |b|;
    forall i | 0 <= i < |a| ensures a[i] == b[i] {
      if i < |m.keys| {
        assert m.keys[i] != k;
      }
    }
  }

  /** Setting a present key replaces its value in place: the scan keeps its length and order. */
  lemma ValuesPutExisting<V>(m: OrderedMap<V>, k: int, v: V)
    requires Valid(m) && k in m.entries
    ensures Put(m, k, v).keys == m.keys
    ensures |Values(Put(m, k, v))| == |Values(m)|
    ensures forall i :: 0 <= i < |m.keys| ==>
              Values(Put(m, k, v))[i] == if m.keys[i] == k then v else Values(m)[i]
  {
  }

  /** Deleting twice is deleting once. */
  lemma DeleteIdempotent<V>(m: OrderedMap<V>, k: int)
    ensures Delete(Delete(m, k), k) == Delete(m, k)
  {
    var once := Delete(m, k);
    assert k !in once.keys;
    assert once.entries - {k} == once.entries;
  }
}
