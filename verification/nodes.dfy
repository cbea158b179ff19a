/** The node structure of the tree (`orthtree::Node` and `orthtree::BiSection`),
    in the mode where every value is stored in exactly one node
    (`NODES_SHARE_VAL == false`).

    A node covers an `area`, keeps a `bucket` of values with their boxes, a
    `count` of the values in its whole subtree, and optionally a subdivision.
    The subdivision of a node is a binary tree of sections: the section for
    axis count `x` halves its region on axis `x - 1` and holds two sections
    for `x - 1`, down to `x == 1`, whose halves on axis 0 are two child nodes.
    A node of a `dim`-dimensional tree therefore has `2^dim` children, its
    orthants.

    This module holds the data, the constructors, and the invariants the
    operations keep: `NodeShape` (the geometry: where each node and each stored
    box lies), `NodeDistinct` (no value is stored twice) and `NodeSound` (the
    counters and the splitting policy). The operations are in `NodeInsert`,
    `NodeRemove` and `NodeQuery`. */
module Nodes {
  import opened Wrappers
  import opened Points
  import opened Boxes
  import Maps

  /** The template arguments `DIM` and `GROUP_COUNT`; the source requires both
      to be positive. */
  datatype Config = Config(dim: nat, groupCount: nat) {
    predicate Valid() {
      dim > 0 && groupCount > 0
    }
  }

  /** `Node`: `m_area`, `m_level`, `m_bucket`, `m_values_count` and `m_sub_nodes`. */
  datatype Node<V> = Node(area: Box, level: nat, bucket: map<V, Box>, count: nat, sub: Option<Sec<V>>)

  /** `BiSection`: either two sections for the next lower axis, or (for the
      last axis) two leaf nodes. */
  datatype Sec<V> =
    | Split(low: Sec<V>, high: Sec<V>)
    | Leaves(lowNode: Node<V>, highNode: Node<V>)

  // ---------------------------------------------------------------------------
  // Geometry of a bisection

  /** The lower half of `r` on axis `k`, built as the source builds it: from
      the low corner to the high corner moved half-way down on axis `k`. */
  function LowHalf(r: Box, k: nat): (h: Box)
    requires r.Shaped() && k < |r.lo|
    ensures h == Box(r.lo, r.hi[k := CenterCoord(r, k)])
  {
    Box(r.lo, MidTo(r.hi, r.lo, k))
  }

  /** The upper half of `r` on axis `k`: from the low corner moved half-way up
      on axis `k` to the high corner. */
  function HighHalf(r: Box, k: nat): (h: Box)
    requires r.Shaped() && k < |r.lo|
    ensures h == Box(r.lo[k := CenterCoord(r, k)], r.hi)
  {
    Box(MidTo(r.lo, r.hi, k), r.hi)
  }

  /** The two halves of a valid box are valid boxes inside it. */
  lemma HalvesInside(r: Box, k: nat)
    requires r.Valid() && k < |r.lo|
    ensures LowHalf(r, k).Valid() && HighHalf(r, k).Valid()
    ensures SameDim(LowHalf(r, k), r) && SameDim(HighHalf(r, k), r)
    ensures Contains(r, LowHalf(r, k)) && Contains(r, HighHalf(r, k))
  {
    assert r.lo[k] <= CenterCoord(r, k) <= r.hi[k];
  }

  /** The two halves cover the box and meet only on the plane through its
      centre. */
  lemma HalvesCover(r: Box, k: nat, p: Point)
    requires r.Valid() && k < |r.lo| && |p| == |r.lo| && InBox(p, r)
    ensures InBox(p, LowHalf(r, k)) || InBox(p, HighHalf(r, k))
    ensures InBox(p, LowHalf(r, k)) && InBox(p, HighHalf(r, k)) ==> p[k] == CenterCoord(r, k)
  {
    if p[k] <= CenterCoord(r, k) {
      assert InBox(p, LowHalf(r, k));
    } else {
      assert InBox(p, HighHalf(r, k));
    }
  }

  /** A box strictly inside a half lies strictly on that half's side of the
      centre plane. */
  lemma HalvesSides(r: Box, k: nat, b: Box)
    requires r.Shaped() && k < |r.lo| && SameDim(b, r)
    ensures ContainsStrict(LowHalf(r, k), b) ==> b.hi[k] < CenterCoord(r, k)
    ensures ContainsStrict(HighHalf(r, k), b) ==> CenterCoord(r, k) < b.lo[k]
  {
    if ContainsStrict(LowHalf(r, k), b) {
      assert LowHalf(r, k).hi[k] == CenterCoord(r, k);
    }
    if ContainsStrict(HighHalf(r, k), b) {
      assert HighHalf(r, k).lo[k] == CenterCoord(r, k);
    }
  }

  /** Halving on axis `k` leaves every other axis of the region alone. */
  lemma HalvesKeepOtherAxes(r: Box, k: nat, i: nat)
    requires r.Shaped() && k < |r.lo| && i < |r.lo| && i != k
    ensures LowHalf(r, k).lo[i] == r.lo[i] && LowHalf(r, k).hi[i] == r.hi[i]
    ensures HighHalf(r, k).lo[i] == r.lo[i] && HighHalf(r, k).hi[i] == r.hi[i]
  {
  }

  /** Boxes strictly inside the two halves of a region never intersect: they
      are separated by the centre plane. */
  lemma HalvesSeparate(r: Box, k: nat, a: Box, b: Box)
    requires r.Valid() && k < |r.lo| && SameDim(a, r) && SameDim(b, r)
    requires ContainsStrict(LowHalf(r, k), a) && ContainsStrict(HighHalf(r, k), b)
    ensures !Intersect(a, b) && !Intersect(b, a)
  {
    HalvesSides(r, k, a);
    HalvesSides(r, k, b);
  }

  /** `region` and `area` agree on the axes below `x`: the region of a
      section is its node's area halved on axes `x` and above only. */
  predicate AgreesBelow(region: Box, area: Box, x: nat)
    requires SameDim(region, area) && x <= |region.lo|
  {
    forall i :: 0 <= i < x ==> region.lo[i] == area.lo[i] && region.hi[i] == area.hi[i]
  }

  // ---------------------------------------------------------------------------
  // What a node stores

  /** The values stored in a node and its whole subdivision, with their boxes. */
  function Stored<V(!new)>(n: Node<V>): map<V, Box>
    decreases n, 1
  {
    if n.sub.None? then n.bucket else n.bucket + SecStored(n.sub.value)
  }

  /** The values stored below a section. */
  function SecStored<V(!new)>(s: Sec<V>): map<V, Box>
    decreases s, 0
  {
    match s
    case Split(l, h) => SecStored(l) + SecStored(h)
    case Leaves(l, h) => Stored(l) + Stored(h)
  }

  /** The number of entries in a node's bucket and in the buckets below it. */
  function Size<V(!new)>(n: Node<V>): nat
    decreases n, 1
  {
    |n.bucket| + if n.sub.None? then 0 else SecSize(n.sub.value)
  }

  /** The number of entries in the buckets below a section. */
  function SecSize<V(!new)>(s: Sec<V>): nat
    decreases s, 0
  {
    match s
    case Split(l, h) => SecSize(l) + SecSize(h)
    case Leaves(l, h) => Size(l) + Size(h)
  }

  /** The box stored for `w` in a node's subtree, if any: the bucket first,
      then the subdivision. */
  function Lookup<V(!new)>(n: Node<V>, w: V): Option<Box>
    decreases n, 1
  {
    if w in n.bucket then Some(n.bucket[w])
    else if n.sub.None? then None
    else SecLookup(n.sub.value, w)
  }

  /** The box stored for `w` below a section, if any. */
  function SecLookup<V(!new)>(s: Sec<V>, w: V): Option<Box>
    decreases s, 0
  {
    match s
    case Split(l, h) => if SecLookup(l, w).Some? then SecLookup(l, w) else SecLookup(h, w)
    case Leaves(l, h) => if Lookup(l, w).Some? then Lookup(l, w) else Lookup(h, w)
  }

  /** No value is stored in two places. */
  ghost predicate NodeDistinct<V(!new)>(n: Node<V>)
    decreases n, 1
  {
    n.sub.Some? ==>
      && (forall w | w in n.bucket :: SecLookup(n.sub.value, w).None?)
      && SecDistinct(n.sub.value)
  }

  ghost predicate SecDistinct<V(!new)>(s: Sec<V>)
    decreases s, 0
  {
    match s
    case Split(l, h) =>
      && (forall w | SecLookup(l, w).Some? :: SecLookup(h, w).None?)
      && SecDistinct(l) && SecDistinct(h)
    case Leaves(l, h) =>
      && (forall w | Lookup(l, w).Some? :: Lookup(h, w).None?)
      && NodeDistinct(l) && NodeDistinct(h)
  }

  /** When no value is stored twice, looking a value up agrees with the map
      of everything stored. */
  lemma {:induction false} LookupStored<V(!new)>(n: Node<V>, w: V)
    requires NodeDistinct(n)
    ensures Lookup(n, w) == if w in Stored(n) then Some(Stored(n)[w]) else None
    decreases n, 1
  {
    if n.sub.Some? {
      SecLookupStored(n.sub.value, w);
    }
  }

  lemma {:induction false} SecLookupStored<V(!new)>(s: Sec<V>, w: V)
    requires SecDistinct(s)
    ensures SecLookup(s, w) == if w in SecStored(s) then Some(SecStored(s)[w]) else None
    decreases s, 0
  {
    match s
    case Split(l, h) =>
      SecLookupStored(l, w);
      SecLookupStored(h, w);
    case Leaves(l, h) =>
      LookupStored(l, w);
      LookupStored(h, w);
  }

  /** A node stores `v` with `b` in place of what it stored before exactly
      when its lookups say so. */
  lemma StoredFromLookup<V(!new)>(n: Node<V>, r: Node<V>, v: V, b: Box)
    requires NodeDistinct(n) && NodeDistinct(r)
    requires forall w :: Lookup(r, w) == if w == v then Some(b) else Lookup(n, w)
    ensures Stored(r) == Stored(n)[v := b]
  {
    forall w
      ensures (w in Stored(r) <==> w in Stored(n)[v := b])
      ensures w in Stored(r) ==> Stored(r)[w] == Stored(n)[v := b][w]
    {
      LookupStored(n, w);
      LookupStored(r, w);
    }
  }

  /** A node no longer stores `v`, and stores everything else it stored,
      exactly when its lookups say so. */
  lemma StoredFromLookupRemove<V(!new)>(n: Node<V>, r: Node<V>, v: V)
    requires NodeDistinct(n) && NodeDistinct(r)
    requires forall w :: Lookup(r, w) == if w == v then None else Lookup(n, w)
    ensures Stored(r) == Stored(n) - {v}
  {
    forall w
      ensures (w in Stored(r) <==> w in Stored(n) - {v})
      ensures w in Stored(r) ==> Stored(r)[w] == Stored(n)[w]
    {
      LookupStored(n, w);
      LookupStored(r, w);
    }
  }

  /** Nodes whose lookups never both succeed have disjoint stores. */
  lemma DisjointStores<V(!new)>(n: Node<V>, m: Node<V>)
    requires NodeDistinct(n) && NodeDistinct(m)
    requires forall w | Lookup(n, w).Some? :: Lookup(m, w).None?
    ensures Stored(n).Keys !! Stored(m).Keys
  {
    forall w | w in Stored(n)
      ensures w !in Stored(m)
    {
      LookupStored(n, w);
      LookupStored(m, w);
    }
  }

  /** Sections whose lookups never both succeed have disjoint stores. */
  lemma SecDisjointStores<V(!new)>(s: Sec<V>, t: Sec<V>)
    requires SecDistinct(s) && SecDistinct(t)
    requires forall w | SecLookup(s, w).Some? :: SecLookup(t, w).None?
    ensures SecStored(s).Keys !! SecStored(t).Keys
  {
    forall w | w in SecStored(s)
      ensures w !in SecStored(t)
    {
      SecLookupStored(s, w);
      SecLookupStored(t, w);
    }
  }

  /** A bucket none of whose values is found below a section is disjoint
      from what the section stores. */
  lemma BucketDisjoint<V(!new)>(m: map<V, Box>, t: Sec<V>)
    requires SecDistinct(t)
    requires forall w | w in m :: SecLookup(t, w).None?
    ensures m.Keys !! SecStored(t).Keys
  {
    forall w | w in m
      ensures w !in SecStored(t)
    {
      SecLookupStored(t, w);
    }
  }

  /** When no value is stored twice, the entries counted are the values
      stored. */
  lemma {:induction false} SizeIsStored<V(!new)>(n: Node<V>)
    requires NodeDistinct(n)
    ensures Size(n) == |Stored(n)|
    decreases n, 1
  {
    if n.sub.Some? {
      SecSizeIsStored(n.sub.value);
      BucketDisjoint(n.bucket, n.sub.value);
      Maps.UnionSize(n.bucket, SecStored(n.sub.value));
    }
  }

  lemma {:induction false} SecSizeIsStored<V(!new)>(s: Sec<V>)
    requires SecDistinct(s)
    ensures SecSize(s) == |SecStored(s)|
    decreases s, 0
  {
    match s
    case Split(l, h) =>
      SecSizeIsStored(l);
      SecSizeIsStored(h);
      SecDisjointStores(l, h);
      Maps.UnionSize(SecStored(l), SecStored(h));
    case Leaves(l, h) =>
      SizeIsStored(l);
      SizeIsStored(h);
      DisjointStores(l, h);
      Maps.UnionSize(Stored(l), Stored(h));
  }

  // ---------------------------------------------------------------------------
  // Shape

  /** A box that `Node::Add` accepts into a node with area `area`: same
      dimension and strictly inside (the assertion of `Node::Add`). Nothing
      asks the box to be valid. */
  predicate Admits(area: Box, b: Box) {
    SameDim(area, b) && ContainsStrict(area, b)
  }

  /** A box the node with area `area` may hold: admitted, and valid. */
  predicate Fits(area: Box, b: Box) {
    SameDim(area, b) && b.Valid() && ContainsStrict(area, b)
  }

  /** `CanFallDeeper`: the box fits in one orthant of the area. */
  predicate CanFallDeeper(area: Box, b: Box) {
    SameDim(area, b) && ContainInOrthant(area, b)
  }

  /** A box that can fall deeper, valid or not, is strictly inside the
      area, so `Node::Add` admits it. */
  lemma FallDeeperAdmitted(area: Box, b: Box)
    ensures CanFallDeeper(area, b) ==> Admits(area, b)
  {
    if CanFallDeeper(area, b) {
      forall i | 0 <= i < |area.lo|
        ensures !(area.lo[i] >= b.lo[i] || area.hi[i] <= b.hi[i])
      {
        assert InOrthantAxis(area, b, i);
      }
    }
  }

  /** The geometry of a node: its area is a valid box of the tree's dimension,
      every bucket box fits in it, and its subdivision is the bisection of its
      area one level further down. */
  predicate NodeShape<V(!new)>(c: Config, n: Node<V>)
    decreases n, 1
  {
    && c.Valid()
    && n.area.Valid() && |n.area.lo| == c.dim
    && (forall k | k in n.bucket :: Fits(n.area, n.bucket[k]))
    && (n.sub.Some? ==> SecShape(c, n.sub.value, c.dim, n.area, n.level + 1))
  }

  /** The geometry of a section for `x` axes covering `region`: it halves the
      region on axis `x - 1`, and at `x == 1` its halves are the areas of its
      two leaf nodes, which sit at `level`. */
  predicate SecShape<V(!new)>(c: Config, s: Sec<V>, x: nat, region: Box, level: nat)
    decreases s, 0
  {
    && c.Valid()
    && region.Valid() && |region.lo| == c.dim
    && 1 <= x <= c.dim
    && match s
       case Split(l, h) =>
         && x > 1
         && SecShape(c, l, x - 1, LowHalf(region, x - 1), level)
         && SecShape(c, h, x - 1, HighHalf(region, x - 1), level)
       case Leaves(l, h) =>
         && x == 1
         && l.area == LowHalf(region, 0) && l.level == level
         && h.area == HighHalf(region, 0) && h.level == level
         && NodeShape(c, l) && NodeShape(c, h)
  }

  // ---------------------------------------------------------------------------
  // Soundness

  /** The counters and the policy: `count` is the number of entries in the
      subtree (by `SizeIsStored`, the number of values stored there); a node has a subdivision only while it holds more than
      `groupCount` values, and then its bucket keeps only the boxes that cannot
      fall deeper. */
  predicate NodeSound<V(!new)>(c: Config, n: Node<V>)
    decreases n, 1
  {
    && n.count == Size(n)
    && (n.sub.Some? ==>
          && n.count > c.groupCount
          && (forall k | k in n.bucket :: !CanFallDeeper(n.area, n.bucket[k]))
          && SecSound(c, n.sub.value))
  }

  predicate SecSound<V(!new)>(c: Config, s: Sec<V>)
    decreases s, 0
  {
    match s
    case Split(l, h) => SecSound(c, l) && SecSound(c, h)
    case Leaves(l, h) => NodeSound(c, l) && NodeSound(c, h)
  }

  /** The invariant every node of a tree keeps. */
  ghost predicate NodeInv<V(!new)>(c: Config, n: Node<V>) {
    NodeShape(c, n) && NodeDistinct(n) && NodeSound(c, n)
  }

  /** The invariant every section of a tree keeps. */
  ghost predicate SecInv<V(!new)>(c: Config, s: Sec<V>, x: nat, region: Box, level: nat) {
    SecShape(c, s, x, region, level) && SecDistinct(s) && SecSound(c, s)
  }

  /** The parts of a section's invariant, seen from the section. */
  lemma SecInvParts<V(!new)>(c: Config, s: Sec<V>, x: nat, region: Box, level: nat)
    requires SecInv(c, s, x, region, level)
    ensures s.Split? ==> SecInv(c, s.low, x - 1, LowHalf(region, x - 1), level)
    ensures s.Split? ==> SecInv(c, s.high, x - 1, HighHalf(region, x - 1), level)
    ensures s.Leaves? ==> NodeInv(c, s.lowNode) && NodeInv(c, s.highNode)
  {
  }

  /** The subdivision of a node meets the section invariant for the node's
      area, one level further down. */
  lemma SubInv<V(!new)>(c: Config, n: Node<V>)
    requires NodeInv(c, n) && n.sub.Some?
    ensures SecInv(c, n.sub.value, c.dim, n.area, n.level + 1)
    ensures SameDim(n.area, n.area) && AgreesBelow(n.area, n.area, c.dim)
  {
  }

  /** Adding an entry that fits keeps every entry of a bucket fitting. */
  lemma FitsAfterInsert<V(!new)>(area: Box, m: map<V, Box>, m': map<V, Box>, v: V, b: Box)
    requires forall k | k in m :: Fits(area, m[k])
    requires Fits(area, b) && m' == m[v := b]
    ensures forall k | k in m' :: Fits(area, m'[k])
  {
    forall k | k in m'
      ensures Fits(area, m'[k])
    {
      if k != v {
        assert m'[k] == m[k];
      }
    }
  }

  /** A node has its shape when its parts do. */
  lemma NodeShapeIntro<V(!new)>(c: Config, area: Box, level: nat, bucket: map<V, Box>, count: nat, sub: Option<Sec<V>>)
    requires c.Valid() && area.Valid() && |area.lo| == c.dim
    requires forall k | k in bucket :: Fits(area, bucket[k])
    requires sub.Some? ==> SecShape(c, sub.value, c.dim, area, level + 1)
    ensures NodeShape(c, Node(area, level, bucket, count, sub))
  {
  }

  /** A node meets the invariant when its parts do. */
  lemma NodeInvIntro<V(!new)>(c: Config, n: Node<V>)
    requires NodeShape(c, n) && n.count == Size(n)
    requires n.sub.Some? ==>
      && (forall w | w in n.bucket :: SecLookup(n.sub.value, w).None?)
      && SecDistinct(n.sub.value) && SecSound(c, n.sub.value)
      && n.count > c.groupCount
      && (forall k | k in n.bucket :: !CanFallDeeper(n.area, n.bucket[k]))
    ensures NodeInv(c, n)
  {
  }

  /** Two sections on the halves of a region, with disjoint contents, make a
      section of the region. */
  lemma SplitInv<V(!new)>(c: Config, l: Sec<V>, h: Sec<V>, x: nat, region: Box, level: nat)
    requires c.Valid() && region.Valid() && |region.lo| == c.dim && 1 < x <= c.dim
    requires SecInv(c, l, x - 1, LowHalf(region, x - 1), level)
    requires SecInv(c, h, x - 1, HighHalf(region, x - 1), level)
    requires forall w | SecLookup(l, w).Some? :: SecLookup(h, w).None?
    ensures SecInv(c, Split(l, h), x, region, level)
  {
  }

  /** Two nodes on the halves of a region on axis 0, with disjoint contents,
      make the last section of the region. */
  lemma LeavesInv<V(!new)>(c: Config, l: Node<V>, h: Node<V>, region: Box, level: nat)
    requires c.Valid() && region.Valid() && |region.lo| == c.dim
    requires NodeInv(c, l) && NodeInv(c, h)
    requires l.area == LowHalf(region, 0) && l.level == level
    requires h.area == HighHalf(region, 0) && h.level == level
    requires forall w | Lookup(l, w).Some? :: Lookup(h, w).None?
    ensures SecInv(c, Leaves(l, h), 1, region, level)
  {
  }

  // ---------------------------------------------------------------------------
  // Where stored boxes lie

  /** Every box stored in a node fits in the node's area. */
  lemma {:induction false} LookupInside<V(!new)>(c: Config, n: Node<V>, w: V)
    requires NodeShape(c, n) && Lookup(n, w).Some?
    ensures Fits(n.area, Lookup(n, w).value)
    decreases n, 1
  {
    if w !in n.bucket {
      SecLookupInside(c, n.sub.value, c.dim, n.area, n.level + 1, w);
    }
  }

  /** Every box stored below a section fits in the section's region. */
  lemma {:induction false} SecLookupInside<V(!new)>(c: Config, s: Sec<V>, x: nat, region: Box, level: nat, w: V)
    requires SecShape(c, s, x, region, level) && SecLookup(s, w).Some?
    ensures Fits(region, SecLookup(s, w).value)
    decreases s, 0
  {
    var b := SecLookup(s, w).value;
    match s
    case Split(l, h) =>
      HalvesInside(region, x - 1);
      if SecLookup(l, w).Some? {
        SecLookupInside(c, l, x - 1, LowHalf(region, x - 1), level, w);
        ContainsStrictProperties(region, LowHalf(region, x - 1), b);
      } else {
        SecLookupInside(c, h, x - 1, HighHalf(region, x - 1), level, w);
        ContainsStrictProperties(region, HighHalf(region, x - 1), b);
      }
    case Leaves(l, h) =>
      HalvesInside(region, 0);
      if Lookup(l, w).Some? {
        LookupInside(c, l, w);
        ContainsStrictProperties(region, l.area, b);
      } else {
        LookupInside(c, h, w);
        ContainsStrictProperties(region, h.area, b);
      }
  }

  /** A node that stores a value counts at least one entry. */
  lemma {:induction false} LookupCounted<V(!new)>(n: Node<V>, w: V)
    requires Lookup(n, w).Some?
    ensures Size(n) >= 1
    decreases n, 1
  {
    if w !in n.bucket {
      SecLookupCounted(n.sub.value, w);
    }
  }

  lemma {:induction false} SecLookupCounted<V(!new)>(s: Sec<V>, w: V)
    requires SecLookup(s, w).Some?
    ensures SecSize(s) >= 1
    decreases s, 0
  {
    match s
    case Split(l, h) =>
      if SecLookup(l, w).Some? { SecLookupCounted(l, w); } else { SecLookupCounted(h, w); }
    case Leaves(l, h) =>
      if Lookup(l, w).Some? { LookupCounted(l, w); } else { LookupCounted(h, w); }
  }

  // ---------------------------------------------------------------------------
  // Construction

  /** The `Node` constructor: an empty node. */
  function NewNode<V(!new)>(area: Box, level: nat): (n: Node<V>)
    ensures Stored(n) == map[] && n.count == 0 && n.sub.None?
    ensures forall w :: Lookup(n, w).None?
    ensures n.area == area && n.level == level
  {
    Node(area, level, map[], 0, None)
  }

  /** The `BiSection` constructor: the region halved on axis `x - 1`, each half
      bisected on the remaining axes, with empty leaf nodes at `level`. */
  function NewSec<V(!new)>(c: Config, region: Box, x: nat, level: nat): (s: Sec<V>)
    requires c.Valid() && region.Valid() && |region.lo| == c.dim && 1 <= x <= c.dim
    ensures SecShape(c, s, x, region, level)
    decreases x
  {
    HalvesInside(region, x - 1);
    if x == 1 then
      Leaves(NewNode(LowHalf(region, 0), level), NewNode(HighHalf(region, 0), level))
    else
      Split(NewSec(c, LowHalf(region, x - 1), x - 1, level), NewSec(c, HighHalf(region, x - 1), x - 1, level))
  }

  /** A new section stores nothing. */
  lemma {:induction false} NewSecLookup<V(!new)>(c: Config, region: Box, x: nat, level: nat, w: V)
    requires c.Valid() && region.Valid() && |region.lo| == c.dim && 1 <= x <= c.dim
    ensures SecLookup(NewSec<V>(c, region, x, level), w).None?
    decreases x
  {
    HalvesInside(region, x - 1);
    if x > 1 {
      NewSecLookup<V>(c, LowHalf(region, x - 1), x - 1, level, w);
      NewSecLookup<V>(c, HighHalf(region, x - 1), x - 1, level, w);
    }
  }

  /** A new section counts nothing and keeps the policy. */
  lemma {:induction false} NewSecSound<V(!new)>(c: Config, region: Box, x: nat, level: nat)
    requires c.Valid() && region.Valid() && |region.lo| == c.dim && 1 <= x <= c.dim
    ensures SecSound(c, NewSec<V>(c, region, x, level)) && SecSize(NewSec<V>(c, region, x, level)) == 0
    decreases x
  {
    HalvesInside(region, x - 1);
    if x > 1 {
      NewSecSound<V>(c, LowHalf(region, x - 1), x - 1, level);
      NewSecSound<V>(c, HighHalf(region, x - 1), x - 1, level);
    }
  }

  /** A new section stores no value twice. */
  lemma {:induction false} NewSecDistinct<V(!new)>(c: Config, region: Box, x: nat, level: nat)
    requires c.Valid() && region.Valid() && |region.lo| == c.dim && 1 <= x <= c.dim
    ensures SecDistinct(NewSec<V>(c, region, x, level))
    decreases x
  {
    HalvesInside(region, x - 1);
    if x > 1 {
      var lr, hr := LowHalf(region, x - 1), HighHalf(region, x - 1);
      NewSecDistinct<V>(c, lr, x - 1, level);
      NewSecDistinct<V>(c, hr, x - 1, level);
      var ls := NewSec<V>(c, lr, x - 1, level);
      forall w
        ensures SecLookup(ls, w).None?
      {
        NewSecLookup<V>(c, lr, x - 1, level, w);
      }
    }
  }

  // ---------------------------------------------------------------------------
  // The leaves of a subdivision are the orthants

  /** The leaf node of a section for `x` axes reached by taking, on each axis
      below `x`, the upper half where `high` says so and the lower half
      otherwise. */
  function Leaf<V>(s: Sec<V>, x: nat, high: seq<bool>): Node<V>
    requires 1 <= x <= |high|
  {
    match s
    case Split(l, h) => Leaf(if high[x - 1] then h else l, if x > 1 then x - 1 else 1, high)
    case Leaves(l, h) => if high[0] then h else l
  }

  /** The leaf a section reaches through `high` sits at the section's level;
      its area is the region halved, on each axis below `x`, on the side
      `high` selects, and left whole on the other axes. */
  lemma {:induction false} LeafArea<V(!new)>(c: Config, s: Sec<V>, x: nat, region: Box, level: nat, high: seq<bool>)
    requires SecShape(c, s, x, region, level) && |high| == c.dim
    ensures NodeShape(c, Leaf(s, x, high)) && Leaf(s, x, high).level == level
    ensures forall i | 0 <= i < c.dim ::
      && Leaf(s, x, high).area.lo[i] == (if i < x then OrthantLo(region, high, i) else region.lo[i])
      && Leaf(s, x, high).area.hi[i] == (if i < x then OrthantHi(region, high, i) else region.hi[i])
    decreases s
  {
    var k := x - 1;
    match s
    case Split(l, h) =>
      var sub := if high[k] then HighHalf(region, k) else LowHalf(region, k);
      LeafArea(c, if high[k] then h else l, k, sub, level, high);
      forall i | 0 <= i < c.dim && i != k
        ensures sub.lo[i] == region.lo[i] && sub.hi[i] == region.hi[i]
      {
        HalvesKeepOtherAxes(region, k, i);
      }
    case Leaves(l, h) =>
  }

  /** Each leaf of a node's subdivision covers the orthant of the node's area
      that `high` selects, one level below the node: the subdivision has a
      leaf for each of the `2^dim` orthants. */
  lemma SubdivisionLeaves<V(!new)>(c: Config, n: Node<V>, high: seq<bool>)
    requires NodeShape(c, n) && n.sub.Some? && |high| == c.dim
    ensures Leaf(n.sub.value, c.dim, high).area == Orthant(n.area, high)
    ensures Leaf(n.sub.value, c.dim, high).level == n.level + 1
  {
    LeafArea(c, n.sub.value, c.dim, n.area, n.level + 1, high);
  }

  /** The leaves of a new subdivision are empty nodes over the orthants of
      the region, at the given level. */
  lemma NewSecLeaves<V(!new)>(c: Config, region: Box, level: nat, high: seq<bool>)
    requires c.Valid() && region.Valid() && |region.lo| == c.dim && |high| == c.dim
    ensures Leaf(NewSec<V>(c, region, c.dim, level), c.dim, high) == NewNode(Orthant(region, high), level)
  {
    var s := NewSec<V>(c, region, c.dim, level);
    LeafArea(c, s, c.dim, region, level, high);
    NewSecLeafEmpty<V>(c, region, c.dim, level, high);
  }

  /** Every leaf of a new section is an empty node. */
  lemma {:induction false} NewSecLeafEmpty<V(!new)>(c: Config, region: Box, x: nat, level: nat, high: seq<bool>)
    requires c.Valid() && region.Valid() && |region.lo| == c.dim && 1 <= x <= c.dim && |high| == c.dim
    ensures var leaf := Leaf(NewSec<V>(c, region, x, level), x, high);
      leaf.bucket == map[] && leaf.count == 0 && leaf.sub.None?
    decreases x
  {
    HalvesInside(region, x - 1);
    if x > 1 {
      NewSecLeafEmpty<V>(c, LowHalf(region, x - 1), x - 1, level, high);
      NewSecLeafEmpty<V>(c, HighHalf(region, x - 1), x - 1, level, high);
    }
  }
}
