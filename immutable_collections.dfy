/**
 The immutable map snapshot the descriptor keeps of each annotation map
 (Guava's `ImmutableMap.copyOf`): the caller's entries in their iteration
 order, at most one entry per key. Lookups answer `null` for a missing key.
 */
module ImmutableCollections {
  import opened JavaLang

  /** No key occurs in two entries. */
  predicate DistinctKeys<K(==), V>(entries: seq<(K, V)>) {
    forall i, j | 0 <= i < j < |entries| :: entries[i].0 != entries[j].0
  }

  /** A Java map as its entries in iteration order; `java.util.Map` never holds a key twice. */
  type ImmutableMap<K(==), V> = entries: seq<(K, V)> | DistinctKeys(entries) witness []

  /** The key set of a map. */
  function Keys<K(==), V>(m: ImmutableMap<K, V>): set<K> {
    set i | 0 <= i < |m| :: m[i].0
  }

  /** The entries after the first one, which again form a map. */
  function Rest<K(==), V>(m: ImmutableMap<K, V>): (r: ImmutableMap<K, V>)
    requires |m| > 0
    ensures |r| == |m| - 1 && forall i | 0 <= i < |r| :: r[i] == m[i + 1]
  {
    m[1..]
  }

  /** `Map.get`: the value stored under `k`, `null` when `k` is not a key. */
  function Get<K(==), V>(m: ImmutableMap<K, V>, k: K): (r: Nullable<V>)
    ensures r.NonNull? <==> k in Keys(m)
    ensures forall i | 0 <= i < |m| && m[i].0 == k :: r == NonNull(m[i].1)
    decreases |m|
  {
    if |m| == 0 then Null
    else if m[0].0 == k then NonNull(m[0].1)
    else
      var r := Get(Rest(m), k);
      assert Keys(m) == {m[0].0} + Keys(Rest(m)) by {
        forall x | x in Keys(m) ensures x == m[0].0 || x in Keys(Rest(m)) {
          var i :| 0 <= i < |m| && m[i].0 == x;
          if i > 0 { assert Rest(m)[i - 1].0 == x; }
        }
      }
      r
  }

  /** `Map.containsKey`, which an immutable map answers as `get(key) != null`. */
  function ContainsKey<K(==), V>(m: ImmutableMap<K, V>, k: K): bool {
    Get(m, k).NonNull?
  }

  /** `Map.values()`: the values in entry order. */
  function Values<K(==), V>(m: ImmutableMap<K, V>): (vs: seq<V>)
    ensures |vs| == |m|
    ensures forall i | 0 <= i < |m| :: vs[i] == m[i].1
    decreases |m|
  {
    if |m| == 0 then [] else [m[0].1] + Values(Rest(m))
  }

  /** Every value `Get` answers is listed by `Values`. */
  lemma LookupsAreValues<K, V>(m: ImmutableMap<K, V>, k: K)
    requires ContainsKey(m, k)
    ensures Get(m, k).value in Values(m)
  {
  }

  /** Every value listed by `Values` is what `Get` answers for the key of its entry. */
  lemma ValuesAreLookups<K, V>(m: ImmutableMap<K, V>, i: nat)
    requires i < |Values(m)|
    ensures Get(m, m[i].0) == NonNull(Values(m)[i])
  {
  }
}
