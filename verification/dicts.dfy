/**
 A Python dict as the helpers use it: key/value entries in insertion
 order. Every dict the source builds has distinct keys; the operations are
 defined on any entry sequence and keep keys distinct when they already are.
 */
module Dicts {

  type Dict<K, V> = seq<(K, V)>

  /** The keys, in insertion (iteration) order. */
  function Keys<K, V>(d: Dict<K, V>): seq<K>
  {
    seq(|d|, i requires 0 <= i < |d| => d[i].0)
  }

  predicate DistinctKeys<K(==), V>(d: Dict<K, V>)
  {
    forall i, j :: 0 <= i < j < |d| ==> d[i].0 != d[j].0
  }

  /** `d.get(k, default)`: the value of the first entry with key `k`. */
  function Get<K(==), V>(d: Dict<K, V>, k: K, default: V): V
  {
    if d == [] then default
    else if d[0].0 == k then d[0].1
    else Get(d[1..], k, default)
  }

  /** `d[k] = v`: overwrite the entry in place, or append a new one at the end. */
  function Put<K(==,!new), V(!new)>(d: Dict<K, V>, k: K, v: V): (r: Dict<K, V>)
    ensures k in Keys(d) ==> Keys(r) == Keys(d)
    ensures k !in Keys(d) ==> Keys(r) == Keys(d) + [k]
    ensures forall x :: Get(r, k, x) == v
    ensures forall k', x :: k' != k ==> Get(r, k', x) == Get(d, k', x)
    ensures DistinctKeys(d) ==> DistinctKeys(r)
  {
    if d == [] then [(k, v)]
    else
      KeysCons(d);
      if d[0].0 == k then
        var r := [(k, v)] + d[1..];
        KeysCons(r);
        r
      else
        var t := Put(d[1..], k, v);
        var r := [d[0]] + t;
        KeysCons(r);
        assert DistinctKeys(d) ==> d[0].0 !in Keys(t);
        assert DistinctKeys(d) ==> DistinctKeys(r) by {
          if DistinctKeys(d) {
            forall i, j | 0 <= i < j < |r|
              ensures r[i].0 != r[j].0
            {
              if i == 0 {
                assert r[j].0 == Keys(t)[j - 1];
              }
            }
          }
        }
        r
  }

  lemma KeysCons<K, V>(d: Dict<K, V>)
    requires d != []
    ensures Keys(d) == [d[0].0] + Keys(d[1..])
  {
  }

  lemma KeysSnoc<K, V>(d: Dict<K, V>)
    requires d != []
    ensures Keys(d) == Keys(d[..|d| - 1]) + [d[|d| - 1].0]
  {
  }

  /** The sum of the values: `sum(d.values())`. */
  function Sum<K>(d: Dict<K, int>): int
  {
    if d == [] then 0 else d[0].1 + Sum(d[1..])
  }

  lemma {:induction false} PutSum<K(!new)>(d: Dict<K, int>, k: K, v: int)
    ensures Sum(Put(d, k, v)) == Sum(d) - Get(d, k, 0) + v
  {
    if d != [] && d[0].0 != k {
      PutSum(d[1..], k, v);
      assert Put(d, k, v)[1..] == Put(d[1..], k, v);
    }
  }

  /**
   `if k not in d: d[k] = 0` followed by `d[k] += n`: the source's counting idiom.
   */
  function Bump<K(==,!new)>(d: Dict<K, int>, k: K, n: int): (r: Dict<K, int>)
    ensures Get(r, k, 0) == Get(d, k, 0) + n
    ensures forall k' :: k' != k ==> Get(r, k', 0) == Get(d, k', 0)
    ensures forall k' :: k' in Keys(r) <==> k' == k || k' in Keys(d)
    ensures Sum(r) == Sum(d) + n
    ensures DistinctKeys(d) ==> DistinctKeys(r)
  {
    var v := Get(d, k, 0) + n;
    var r := Put(d, k, v);
    assert Sum(r) == Sum(d) + n by {
      PutSum(d, k, v);
    }
    r
  }
}
