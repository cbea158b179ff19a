/** The queries of a node: `Node::FindIntersected(box, inter)`, the values
    whose boxes meet a query box, and `Node::FindIntersected(inter)`, the
    pairs of values whose boxes meet.

    Neither query prunes by area: every bucket of the subtree is visited.
    The pair scan compares each bucket entry with the entries after it in
    the bucket, then with the whole subdivision (through the box query), and
    then recurses into the subdivision. Entries in different orthants are
    never compared; they cannot meet, because a centre plane separates them.

    The source's bucket is an `unordered_map`, so the order of the pair scan,
    and with it the orientation of the pairs it reports, is left open; the
    pairs are a multiset of ordered pairs, and the theorems count each
    unordered pair in both orientations together. */
module NodeQuery {
  import opened Wrappers
  import opened Points
  import opened Boxes
  import opened Nodes
  import Maps

  /** Two looked-up boxes that exist and meet. */
  predicate Overlap(a: Option<Box>, b: Option<Box>) {
    a.Some? && b.Some? && SameDim(a.value, b.value) && Intersect(a.value, b.value)
  }

  /** `Overlap` does not depend on the order of its arguments. */
  lemma OverlapSymmetric(a: Option<Box>, b: Option<Box>)
    ensures Overlap(a, b) <==> Overlap(b, a)
  {
    if a.Some? && b.Some? && SameDim(a.value, b.value) {
      IntersectSymmetricReflexive(a.value, b.value);
    }
  }

  // ---------------------------------------------------------------------------
  // The values meeting a box

  /** `Node::FindIntersected(box, inter)`: the bucket values whose boxes meet
      `q`, and those found in the subdivision. When no value is stored
      twice, these are exactly the values stored in the subtree whose boxes
      meet `q`. */
  function FindInBox<V(==,!new)>(c: Config, n: Node<V>, q: Box): (r: set<V>)
    requires NodeShape(c, n) && SameDim(q, n.area)
    ensures NodeDistinct(n) ==> forall w :: w in r <==> Overlap(Some(q), Lookup(n, w))
    decreases n, 1
  {
    var here := set w | w in n.bucket && Intersect(q, n.bucket[w]);
    if n.sub.None? then here
    else here + SecFindInBox(c, n.sub.value, c.dim, n.area, n.level + 1, q)
  }

  /** `BiSection::FindIntersected(box, inter)`: both halves. */
  function SecFindInBox<V(==,!new)>(c: Config, s: Sec<V>, x: nat, region: Box, level: nat, q: Box): (r: set<V>)
    requires SecShape(c, s, x, region, level) && SameDim(q, region)
    ensures SecDistinct(s) ==> forall w :: w in r <==> Overlap(Some(q), SecLookup(s, w))
    decreases s, 0
  {
    match s
    case Split(l, h) =>
      SecFindInBox(c, l, x - 1, LowHalf(region, x - 1), level, q)
        + SecFindInBox(c, h, x - 1, HighHalf(region, x - 1), level, q)
    case Leaves(l, h) =>
      FindInBox(c, l, q) + FindInBox(c, h, q)
  }

  // ---------------------------------------------------------------------------
  // The pairs of values that meet

  /** The pairs of the bucket entry `k` with each entry the scan visits
      after it whose box meets `k`'s: the inner loop of the pair scan. */
  function InnerPairs<V(==,!new)>(k: V, rest: set<V>, m: map<V, Box>): set<(V, V)>
    requires k in m && rest <= m.Keys
  {
    set w | w in rest && Overlap(Some(m[k]), Some(m[w])) :: (k, w)
  }

  /** The inner loop of the pair scan, visiting the later entries one at a
      time in an order left open: it reports the entry `k` paired with each
      later entry whose box meets `k`'s, once each, and nothing else. */
  method InnerScan<V(==,!new)>(k: V, rest: set<V>, m: map<V, Box>) returns (r: seq<(V, V)>)
    requires k in m && rest <= m.Keys
    requires forall w | w in rest :: SameDim(m[k], m[w])
    ensures multiset(r) == multiset(InnerPairs(k, rest, m))
    ensures forall w :: (k, w) in r <==> w in rest && Intersect(m[k], m[w])
  {
    r := [];
    var todo := rest;
    while todo != {}
      invariant todo <= rest
      invariant multiset(r) == multiset(InnerPairs(k, rest - todo, m))
      decreases |todo|
    {
      var w :| w in todo;
      InnerPairsStep(k, rest - todo, w, m);
      assert (rest - todo) + {w} == rest - (todo - {w});
      if Intersect(m[k], m[w]) {
        r := r + [(k, w)];
      }
      todo := todo - {w};
    }
    assert rest - todo == rest;
    forall w
      ensures (k, w) in r <==> w in rest && Intersect(m[k], m[w])
    {
      assert (k, w) in r <==> (k, w) in multiset(r);
      if w in rest && Intersect(m[k], m[w]) {
        assert (k, w) in InnerPairs(k, rest, m);
      }
    }
  }

  /** Visiting one more entry `w` adds the pair `(k, w)` exactly when the
      boxes meet. */
  lemma InnerPairsStep<V(!new)>(k: V, done: set<V>, w: V, m: map<V, Box>)
    requires k in m && done <= m.Keys && w in m && w !in done
    ensures multiset(InnerPairs(k, done + {w}, m)) ==
      multiset(InnerPairs(k, done, m)) + (if Overlap(Some(m[k]), Some(m[w])) then multiset{(k, w)} else multiset{})
  {
    var before, after := InnerPairs(k, done, m), InnerPairs(k, done + {w}, m);
    assert (k, w) !in before;
    if Overlap(Some(m[k]), Some(m[w])) {
      assert after == before + {(k, w)};
    } else {
      assert after == before;
    }
  }

  /** The pairs of the bucket entry `k` with each value of the subdivision
      that the box query finds for `k`'s box. */
  function CrossPairs<V(==,!new)>(c: Config, k: V, m: map<V, Box>, sub: Option<Sec<V>>,
                                  area: Box, level: nat): (r: set<(V, V)>)
    requires k in m && Fits(area, m[k])
    requires sub.Some? ==> SecShape(c, sub.value, c.dim, area, level)
    ensures sub.Some? && SecDistinct(sub.value) ==>
      forall w :: (k, w) in r <==> Overlap(Some(m[k]), SecLookup(sub.value, w))
    ensures sub.None? ==> r == {}
    ensures forall p | p in r :: p.0 == k
  {
    if sub.None? then {}
    else set w | w in SecFindInBox(c, sub.value, c.dim, area, level, m[k]) :: (k, w)
  }

  /** The pairs the bucket scan reports for the entry `k` it visits, given
      the entries `rest` it has not visited yet. */
  function ScanHead<V(==,!new)>(c: Config, k: V, rest: set<V>, m: map<V, Box>, sub: Option<Sec<V>>,
                                area: Box, level: nat): multiset<(V, V)>
    requires k in m && rest <= m.Keys && Fits(area, m[k])
    requires sub.Some? ==> SecShape(c, sub.value, c.dim, area, level)
  {
    multiset(InnerPairs(k, rest, m)) + multiset(CrossPairs(c, k, m, sub, area, level))
  }

  /** The pairs a node reports for the bucket entries `ks` not visited yet:
      those of the entry visited next, then those of the others. The order
      of an `unordered_map` is left open: the next entry is `Maps.Choose`. */
  ghost function BucketScan<V(!new)>(c: Config, ks: set<V>, m: map<V, Box>, sub: Option<Sec<V>>,
                                     area: Box, level: nat): multiset<(V, V)>
    requires ks <= m.Keys
    requires forall k | k in m :: Fits(area, m[k])
    requires sub.Some? ==> SecShape(c, sub.value, c.dim, area, level)
    decreases |ks|
  {
    if ks == {} then multiset{}
    else
      var k := Maps.Choose(ks);
      ScanHead(c, k, ks - {k}, m, sub, area, level) + BucketScan(c, ks - {k}, m, sub, area, level)
  }

  /** `Node::FindIntersected(inter)`: the bucket scan in the bucket's
      traversal order, then the pairs of the subdivision. */
  ghost function NodePairs<V(!new)>(c: Config, n: Node<V>): multiset<(V, V)>
    requires NodeShape(c, n)
    decreases n, 2
  {
    NodeScan(c, n) + NodeBelow(c, n)
  }

  /** The pairs the bucket scan of a node reports. */
  ghost function NodeScan<V(!new)>(c: Config, n: Node<V>): multiset<(V, V)>
    requires NodeShape(c, n)
  {
    BucketScan(c, n.bucket.Keys, n.bucket, n.sub, n.area, n.level + 1)
  }

  /** The pairs reported by the subdivision of a node. */
  ghost function NodeBelow<V(!new)>(c: Config, n: Node<V>): multiset<(V, V)>
    requires NodeShape(c, n)
    decreases n, 1
  {
    if n.sub.None? then multiset{} else SecPairs(c, n.sub.value, c.dim, n.area, n.level + 1)
  }

  /** `BiSection::FindIntersected(inter)`: both halves. */
  ghost function SecPairs<V(!new)>(c: Config, s: Sec<V>, x: nat, region: Box, level: nat): multiset<(V, V)>
    requires SecShape(c, s, x, region, level)
    decreases s, 0
  {
    match s
    case Split(l, h) =>
      SecPairs(c, l, x - 1, LowHalf(region, x - 1), level) + SecPairs(c, h, x - 1, HighHalf(region, x - 1), level)
    case Leaves(l, h) =>
      NodePairs(c, l) + NodePairs(c, h)
  }

  /** How often a multiset of pairs holds `a` and `b`, in either orientation. */
  function Both<V(==)>(p: multiset<(V, V)>, a: V, b: V): nat {
    p[(a, b)] + p[(b, a)]
  }

  /** 1 when `a` and `b` are two values the lookups find with boxes that
      meet, 0 otherwise: how often a pair scan should report them. */
  function Expected<V(==)>(a: V, b: V, la: Option<Box>, lb: Option<Box>): nat {
    if a != b && Overlap(la, lb) then 1 else 0
  }

  /** The bucket scan reports each pair of entries of `ks` whose boxes meet
      once, and each entry of `ks` with each value below whose box meets it
      once, in some orientation; nothing else. */
  lemma {:induction false} BucketScanCount<V(!new)>(c: Config, ks: set<V>, m: map<V, Box>, sub: Option<Sec<V>>,
                                                    area: Box, level: nat, a: V, b: V)
    requires ks <= m.Keys
    requires forall k | k in m :: Fits(area, m[k])
    requires sub.Some? ==> SecShape(c, sub.value, c.dim, area, level) && SecDistinct(sub.value)
    requires sub.Some? ==> forall k | k in ks :: SecLookup(sub.value, k).None?
    ensures Both(BucketScan(c, ks, m, sub, area, level), a, b) ==
      (if a in ks && b in ks then Expected(a, b, Some(m[a]), Some(m[b])) else 0)
      + (if a in ks && sub.Some? && Overlap(Some(m[a]), SecLookup(sub.value, b)) then 1 else 0)
      + (if b in ks && sub.Some? && Overlap(Some(m[b]), SecLookup(sub.value, a)) then 1 else 0)
    decreases |ks|
  {
    if ks != {} {
      var k := Maps.Choose(ks);
      var rest := ks - {k};
      BucketScanCount(c, rest, m, sub, area, level, a, b);
      ScanHeadCount(c, k, rest, m, sub, area, level, a, b);
      if a in ks && b in ks {
        OverlapSymmetric(Some(m[a]), Some(m[b]));
      }
    }
  }

  /** The visited entry's pairs hold `a` and `b` when one of them is that
      entry and the other is visited later with a box that meets it, or is
      found below. */
  lemma ScanHeadCount<V(!new)>(c: Config, k: V, rest: set<V>, m: map<V, Box>, sub: Option<Sec<V>>,
                               area: Box, level: nat, a: V, b: V)
    requires k in m && rest <= m.Keys && Fits(area, m[k])
    requires sub.Some? ==> SecShape(c, sub.value, c.dim, area, level) && SecDistinct(sub.value)
    ensures Both(ScanHead(c, k, rest, m, sub, area, level), a, b) ==
      (if a == k && b in rest && Overlap(Some(m[k]), Some(m[b])) then 1 else 0)
      + (if b == k && a in rest && Overlap(Some(m[k]), Some(m[a])) then 1 else 0)
      + (if a == k && sub.Some? && Overlap(Some(m[k]), SecLookup(sub.value, b)) then 1 else 0)
      + (if b == k && sub.Some? && Overlap(Some(m[k]), SecLookup(sub.value, a)) then 1 else 0)
  {
    var inner, cross := InnerPairs(k, rest, m), CrossPairs(c, k, m, sub, area, level);
    assert (a, b) in inner <==> a == k && b in rest && Overlap(Some(m[k]), Some(m[b]));
    assert (b, a) in inner <==> b == k && a in rest && Overlap(Some(m[k]), Some(m[a]));
    assert (a, b) in cross <==> a == k && sub.Some? && Overlap(Some(m[k]), SecLookup(sub.value, b));
    assert (b, a) in cross <==> b == k && sub.Some? && Overlap(Some(m[k]), SecLookup(sub.value, a));
  }

  /** Boxes stored in the two halves of a section never meet. */
  lemma HalvesApart<V(!new)>(c: Config, s: Sec<V>, x: nat, region: Box, level: nat, a: V, b: V)
    requires SecShape(c, s, x, region, level)
    requires s.Split? ==> SecLookup(s.low, a).Some? && SecLookup(s.high, b).Some?
    requires s.Leaves? ==> Lookup(s.lowNode, a).Some? && Lookup(s.highNode, b).Some?
    ensures s.Split? ==> !Overlap(SecLookup(s.low, a), SecLookup(s.high, b))
    ensures s.Leaves? ==> !Overlap(Lookup(s.lowNode, a), Lookup(s.highNode, b))
  {
    var k := x - 1;
    match s
    case Split(l, h) =>
      SecLookupInside(c, l, k, LowHalf(region, k), level, a);
      SecLookupInside(c, h, k, HighHalf(region, k), level, b);
      HalvesInside(region, k);
      HalvesSeparate(region, k, SecLookup(l, a).value, SecLookup(h, b).value);
    case Leaves(l, h) =>
      LookupInside(c, l, a);
      LookupInside(c, h, b);
      HalvesInside(region, k);
      HalvesSeparate(region, k, Lookup(l, a).value, Lookup(h, b).value);
  }

  /** The bucket scan of a node reports the pairs of bucket entries whose
      boxes meet, and the pairs of a bucket entry with a value below whose
      box meets it, each once. */
  lemma NodeScanCount<V(!new)>(c: Config, n: Node<V>, a: V, b: V)
    requires NodeShape(c, n) && NodeDistinct(n)
    ensures Both(NodeScan(c, n), a, b) ==
      (if a in n.bucket && b in n.bucket then Expected(a, b, Some(n.bucket[a]), Some(n.bucket[b])) else 0)
      + (if a in n.bucket && n.sub.Some? && Overlap(Some(n.bucket[a]), SecLookup(n.sub.value, b)) then 1 else 0)
      + (if b in n.bucket && n.sub.Some? && Overlap(Some(n.bucket[b]), SecLookup(n.sub.value, a)) then 1 else 0)
  {
    var scan := BucketScan(c, n.bucket.Keys, n.bucket, n.sub, n.area, n.level + 1);
    assert NodeScan(c, n) == scan;
    BucketScanCount(c, n.bucket.Keys, n.bucket, n.sub, n.area, n.level + 1, a, b);
  }

  /** `Node::FindIntersected(inter)` reports every two distinct values of the
      subtree whose boxes meet exactly once, in one of the two orientations,
      and no other pair. */
  lemma {:induction false} NodePairsCount<V(!new)>(c: Config, n: Node<V>, a: V, b: V)
    requires NodeShape(c, n) && NodeDistinct(n)
    ensures Both(NodePairs(c, n), a, b) == Expected(a, b, Lookup(n, a), Lookup(n, b))
    decreases n, 2
  {
    NodeScanCount(c, n, a, b);
    NodeBelowCount(c, n, a, b);
    if n.sub.Some? && b in n.bucket {
      OverlapSymmetric(Some(n.bucket[b]), SecLookup(n.sub.value, a));
    }
  }

  /** The subdivision of a node reports the pairs of values stored below. */
  lemma {:induction false} NodeBelowCount<V(!new)>(c: Config, n: Node<V>, a: V, b: V)
    requires NodeShape(c, n) && NodeDistinct(n)
    ensures Both(NodeBelow(c, n), a, b) ==
      if n.sub.None? then 0 else Expected(a, b, SecLookup(n.sub.value, a), SecLookup(n.sub.value, b))
    decreases n, 1
  {
    if n.sub.Some? {
      SecPairsCount(c, n.sub.value, c.dim, n.area, n.level + 1, a, b);
    }
  }

  lemma {:induction false} SecPairsCount<V(!new)>(c: Config, s: Sec<V>, x: nat, region: Box, level: nat, a: V, b: V)
    requires SecShape(c, s, x, region, level) && SecDistinct(s)
    ensures Both(SecPairs(c, s, x, region, level), a, b) == Expected(a, b, SecLookup(s, a), SecLookup(s, b))
    decreases s, 0
  {
    match s
    case Split(l, h) =>
      var k := x - 1;
      SecPairsCount(c, l, k, LowHalf(region, k), level, a, b);
      SecPairsCount(c, h, k, HighHalf(region, k), level, a, b);
      if SecLookup(l, a).Some? && SecLookup(h, b).Some? {
        HalvesApart(c, s, x, region, level, a, b);
      }
      if SecLookup(l, b).Some? && SecLookup(h, a).Some? {
        HalvesApart(c, s, x, region, level, b, a);
        OverlapSymmetric(SecLookup(l, b), SecLookup(h, a));
      }
    case Leaves(l, h) =>
      NodePairsCount(c, l, a, b);
      NodePairsCount(c, h, a, b);
      if Lookup(l, a).Some? && Lookup(h, b).Some? {
        HalvesApart(c, s, x, region, level, a, b);
      }
      if Lookup(l, b).Some? && Lookup(h, a).Some? {
        HalvesApart(c, s, x, region, level, b, a);
        OverlapSymmetric(Lookup(l, b), Lookup(h, a));
      }
  }
}
