/**
 * collections.Counter over a stream of keys, read back as dict(counter):
 * one bucket per distinct key, in the order keys were first seen.
 */
module Counter {

  datatype Bucket<K> = Bucket(key: K, count: nat)

  function Keys<K>(d: seq<Bucket<K>>): (ks: seq<K>)
    ensures |ks| == |d|
  {
    if d == [] then [] else [d[0].key] + Keys(d[1..])
  }

  /** The sum of all bucket counts. */
  function Total<K>(d: seq<Bucket<K>>): nat
  {
    if d == [] then 0 else d[0].count + Total(d[1..])
  }

  predicate HasKey<K(==)>(d: seq<Bucket<K>>, k: K)
  {
    d != [] && (d[0].key == k || HasKey(d[1..], k))
  }

  /** The count filed under k, or 0 when k has no bucket (Counter's default). */
  function CountOf<K(==)>(d: seq<Bucket<K>>, k: K): nat
  {
    if d == [] then 0
    else if d[0].key == k then d[0].count
    else CountOf(d[1..], k)
  }

  /** No key has two buckets. */
  predicate DistinctKeys<K(==)>(d: seq<Bucket<K>>)
  {
    d == [] || (!HasKey(d[1..], d[0].key) && DistinctKeys(d[1..]))
  }

  /** Every bucket counts at least one occurrence. */
  predicate PositiveCounts<K>(d: seq<Bucket<K>>)
  {
    d == [] || (d[0].count > 0 && PositiveCounts(d[1..]))
  }

  /**
   * counter[k] += 1: bump k's bucket, or open a new one after all others;
   * the order of the existing keys is kept.
   */
  function Bump<K(==, !new)>(d: seq<Bucket<K>>, k: K): (e: seq<Bucket<K>>)
    ensures Total(e) == Total(d) + 1
    ensures forall j :: CountOf(e, j) == CountOf(d, j) + (if j == k then 1 else 0)
    ensures forall j :: HasKey(e, j) <==> HasKey(d, j) || j == k
    ensures Keys(e) == if HasKey(d, k) then Keys(d) else Keys(d) + [k]
    ensures DistinctKeys(d) ==> DistinctKeys(e)
    ensures PositiveCounts(d) ==> PositiveCounts(e)
  {
    if d == [] then [Bucket(k, 1)]
    else if d[0].key == k then
      var e := [Bucket(k, d[0].count + 1)] + d[1..];
      assert e[1..] == d[1..];
      e
    else
      var rest := Bump(d[1..], k);
      var e := [d[0]] + rest;
      assert e[1..] == rest;
      e
  }

  /**
   * Counter(ks): every key of ks has exactly one bucket, holding the number
   * of times it occurs; no other key has one; the counts are positive and add
   * up to |ks|.
   */
  function Tally<K(==, !new)>(ks: seq<K>): (d: seq<Bucket<K>>)
    ensures Total(d) == |ks|
    ensures forall j :: CountOf(d, j) == multiset(ks)[j]
    ensures forall j :: HasKey(d, j) <==> j in ks
    ensures DistinctKeys(d)
    ensures PositiveCounts(d)
  {
    if ks == [] then []
    else
      var init := ks[..|ks| - 1];
      assert ks == init + [ks[|ks| - 1]];
      Bump(Tally(init), ks[|ks| - 1])
  }
}
