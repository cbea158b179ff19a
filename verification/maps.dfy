/** Facts about finite maps used when the tree moves entries between buckets
    and subdivisions. */
module Maps {

  /** An entry of a non-empty map: the one a traversal of an
      `unordered_map` would reach first, in an order the model leaves open. */
  ghost function Pick<K, T>(m: map<K, T>): (k: K)
    requires |m| > 0
    ensures k in m
  {
    assert m.Keys != {};
    var k :| k in m;
    k
  }

  /** A member of a non-empty set: the key a traversal reaches first
      among those it has not visited yet. */
  ghost function Choose<K>(s: set<K>): (k: K)
    requires s != {}
    ensures k in s
  {
    var k :| k in s;
    k
  }

  /** Removing a key and then setting it is setting it. */
  lemma RemoveThenSet<K, T>(m: map<K, T>, k: K, v: T)
    ensures (m - {k})[k := v] == m[k := v]
  {
  }

  /** The size of a union of maps with disjoint keys. */
  lemma {:induction false} UnionSize<K, T>(a: map<K, T>, b: map<K, T>)
    requires a.Keys !! b.Keys
    ensures |a + b| == |a| + |b|
  {
    assert (a + b).Keys == a.Keys + b.Keys;
    assert |(a + b).Keys| == |a.Keys| + |b.Keys|;
  }

  /** Inserting a new key grows a map by one. */
  lemma InsertSize<K, T>(a: map<K, T>, k: K, v: T)
    requires k !in a
    ensures |a[k := v]| == |a| + 1
  {
    assert a[k := v].Keys == a.Keys + {k};
  }

  /** Removing a present key shrinks a map by one. */
  lemma RemoveSize<K, T>(a: map<K, T>, k: K)
    requires k in a
    ensures |a - {k}| == |a| - 1
  {
    assert (a - {k}).Keys == a.Keys - {k};
  }
}
