/**
 * A Python `dict` with insertion order: a sequence of (key, value) pairs with
 * distinct keys. Assigning to an existing key keeps its position; a new key goes
 * to the end.
 */
module Dict {
  import opened Wrappers

  type Dict<K(==,!new), V> = seq<(K, V)>

  predicate DistinctKeys<K(==,!new), V>(d: Dict<K, V>)
  {
    forall i, j :: 0 <= i < j < |d| ==> d[i].0 != d[j].0
  }

  /** `d.get(k)`. */
  function Get<K(==,!new), V>(d: Dict<K, V>, k: K): (r: Option<V>)
    ensures r.Some? <==> exists i :: 0 <= i < |d| && d[i].0 == k
    ensures r.Some? ==> exists i :: 0 <= i < |d| && d[i] == (k, r.value)
  {
    if d == [] then None
    else if d[0].0 == k then Some(d[0].1)
    else
      var r := Get(d[1..], k);
      assert r.Some? ==> exists i :: 0 <= i < |d[1..]| && d[1..][i] == (k, r.value);
      r
  }

  /** `d[k] = v`. */
  function Put<K(==,!new), V>(d: Dict<K, V>, k: K, v: V): (r: Dict<K, V>)
    requires DistinctKeys(d)
    ensures DistinctKeys(r)
    ensures Get(r, k) == Some(v)
    ensures forall k' :: k' != k ==> Get(r, k') == Get(d, k')
    ensures |r| == if Get(d, k).Some? then |d| else |d| + 1
  {
    if d == [] then [(k, v)]
    else if d[0].0 == k then
      assert Get(d[1..], k).None?;
      [(k, v)] + d[1..]
    else
      var t := Put(d[1..], k, v);
      assert Get(d[1..], d[0].0).None?;
      [d[0]] + t
  }

  /** Assigning a key that is not present appends it at the end. */
  lemma {:induction false} PutNew<K(!new), V>(d: Dict<K, V>, k: K, v: V)
    requires DistinctKeys(d) && Get(d, k).None?
    ensures Put(d, k, v) == d + [(k, v)]
  {
    if d != [] {
      var tail := d[1..];
      assert Get(tail, k).None?;
      PutNew(tail, k, v);
      PutCons(d, k, v);
      AppendAssoc([d[0]], tail, [(k, v)]);
      assert [d[0]] + tail == d;
    }
  }

  lemma AppendAssoc<T>(a: seq<T>, b: seq<T>, c: seq<T>)
    ensures a + (b + c) == (a + b) + c
  {
  }

  /** Assigning a key other than the first leaves the first entry in front. */
  lemma PutCons<K(!new), V>(d: Dict<K, V>, k: K, v: V)
    requires DistinctKeys(d) && d != [] && d[0].0 != k
    ensures DistinctKeys(d[1..]) && Put(d, k, v) == [d[0]] + Put(d[1..], k, v)
  {
  }

  /** Every entry of a dict is what `get` finds under its key. */
  lemma {:induction false} GetOfEntry<K(!new), V>(d: Dict<K, V>, i: nat)
    requires DistinctKeys(d) && i < |d|
    ensures Get(d, d[i].0) == Some(d[i].1)
  {
    if i > 0 {
      GetOfEntry(d[1..], i - 1);
    }
  }

  /** `d.values()`, in insertion order. */
  function Values<K(==,!new), V>(d: Dict<K, V>): (r: seq<V>)
    ensures |r| == |d|
    ensures forall i :: 0 <= i < |d| ==> r[i] == d[i].1
  {
    seq(|d|, i requires 0 <= i < |d| => d[i].1)
  }
}
