/** Python's `defaultdict(list)` filled by `d[k].append(v)`: the keys in
    the order they were first seen, each with its values in the order they
    were appended. */
module Grouping {
  import opened Wrappers

  datatype Entry<K, V> = Entry(key: K, items: seq<V>)

  /** The position of key `k`, if present. */
  function Find<K(==), V>(d: seq<Entry<K, V>>, k: K): (r: Option<nat>)
    ensures r.Some? ==> r.value < |d| && d[r.value].key == k
    ensures r == None ==> forall i :: 0 <= i < |d| ==> d[i].key != k
  {
    if d == [] then None
    else if d[|d| - 1].key == k then Some(|d| - 1)
    else Find(d[..|d| - 1], k)
  }

  /** `d[k].append(v)`. */
  function Add<K(==), V>(d: seq<Entry<K, V>>, k: K, v: V): seq<Entry<K, V>> {
    match Find(d, k)
    case None => d + [Entry(k, [v])]
    case Some(i) => d[i := Entry(k, d[i].items + [v])]
  }

  /** The dict after appending every pair in order. */
  function GroupBy<K(==), V>(kvs: seq<(K, V)>): seq<Entry<K, V>> {
    if kvs == [] then [] else Add(GroupBy(kvs[..|kvs| - 1]), kvs[|kvs| - 1].0, kvs[|kvs| - 1].1)
  }

  lemma GroupBySnoc<K, V>(kvs: seq<(K, V)>, kv: (K, V))
    ensures GroupBy(kvs + [kv]) == Add(GroupBy(kvs), kv.0, kv.1)
  {
    assert (kvs + [kv])[..|kvs|] == kvs;
  }

  /** The values paired with `k`, in order. */
  function Filter<K(==), V>(kvs: seq<(K, V)>, k: K): seq<V> {
    if kvs == [] then []
    else if kvs[|kvs| - 1].0 == k then Filter(kvs[..|kvs| - 1], k) + [kvs[|kvs| - 1].1]
    else Filter(kvs[..|kvs| - 1], k)
  }

  predicate Distinct<K(==), V>(d: seq<Entry<K, V>>) {
    forall i, j :: 0 <= i < j < |d| ==> d[i].key != d[j].key
  }

  /** No key is listed twice. */
  lemma {:induction false} GroupByDistinct<K, V>(kvs: seq<(K, V)>)
    ensures Distinct(GroupBy(kvs))
  {
    if kvs != [] {
      GroupByDistinct(kvs[..|kvs| - 1]);
    }
  }

  /** Each key holds exactly the values paired with it, in their order. */
  lemma {:induction false} GroupByItems<K, V>(kvs: seq<(K, V)>)
    ensures forall i :: 0 <= i < |GroupBy(kvs)| ==> GroupBy(kvs)[i].items == Filter(kvs, GroupBy(kvs)[i].key)
  {
    if kvs != [] {
      var init := kvs[..|kvs| - 1];
      GroupByItems(init);
      GroupByDistinct(init);
      var d := GroupBy(init);
      var (k, v) := kvs[|kvs| - 1];
      match Find(d, k)
      case None =>
        assert Filter(kvs, k) == [] + [v] by {
          if Filter(init, k) != [] { FilterKey(init, k); }
        }
      case Some(j) =>
    }
  }

  /** A key with values is listed. */
  lemma {:induction false} FilterKey<K, V>(kvs: seq<(K, V)>, k: K)
    requires Filter(kvs, k) != []
    ensures Find(GroupBy(kvs), k).Some?
  {
    var init := kvs[..|kvs| - 1];
    if kvs[|kvs| - 1].0 != k {
      FilterKey(init, k);
      var d := GroupBy(init);
      var j := Find(d, k).value;
      match Find(d, kvs[|kvs| - 1].0)
      case None => assert GroupBy(kvs)[j] == d[j];
      case Some(i) => assert GroupBy(kvs)[j].key == k;
    } else {
      match Find(GroupBy(init), k)
      case None => assert GroupBy(kvs)[|GroupBy(init)|].key == k;
      case Some(i) => assert GroupBy(kvs)[i].key == k;
    }
  }

  /** Every key that occurs is listed, with at least one value. */
  lemma {:induction false} GroupByKeys<K, V>(kvs: seq<(K, V)>)
    ensures forall j :: 0 <= j < |kvs| ==> Find(GroupBy(kvs), kvs[j].0).Some?
    ensures forall i :: 0 <= i < |GroupBy(kvs)| ==> GroupBy(kvs)[i].items != []
  {
    forall j | 0 <= j < |kvs| ensures Find(GroupBy(kvs), kvs[j].0).Some? {
      FilterHas(kvs, j);
      FilterKey(kvs, kvs[j].0);
    }
    if kvs != [] {
      GroupByKeys(kvs[..|kvs| - 1]);
    }
  }

  lemma {:induction false} FilterHas<K, V>(kvs: seq<(K, V)>, j: int)
    requires 0 <= j < |kvs|
    ensures Filter(kvs, kvs[j].0) != []
  {
    if j < |kvs| - 1 {
      FilterHas(kvs[..|kvs| - 1], j);
    }
  }
}
