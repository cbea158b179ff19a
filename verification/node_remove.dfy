/** Removal from a node (`Node::Del`, `BiSection::Del`) and the collection of
    a subtree's values (`GatherAllValuesDeep`).

    `Node::Del` first decrements the node's count. If the count has dropped
    to `groupCount` or below, the subdivision (if any) is gathered into the
    bucket and dropped, and the value is erased from the bucket. Otherwise
    the value is erased from the bucket, or, when it is not there, removed
    from the subdivision; a section sends the removal to the half its box
    lies in.

    The caller passes the box the value was stored with; `Tree::Del` takes it
    from its registry. The functions below require the node invariant and
    that the value is stored with that box. */
module NodeRemove {
  import opened Wrappers
  import opened Points
  import opened Boxes
  import opened Nodes
  import Maps

  // ---------------------------------------------------------------------------
  // Gathering

  /** `Node::GatherAllValuesDeep`: the subdivision is gathered into `acc`
      first, then the bucket is merged in (`unordered_map::merge` keeps the
      entries already present). The source asserts that the merge leaves the
      bucket empty, that is, that no value is met twice; the precondition
      says the same of the node and `acc`. The result holds `acc` and every
      value stored in the subtree, with its box. */
  function Gather<V(!new)>(n: Node<V>, acc: map<V, Box>): (r: map<V, Box>)
    requires NodeDistinct(n) && forall w | w in acc :: Lookup(n, w).None?
    ensures forall w :: w in r <==> w in acc || Lookup(n, w).Some?
    ensures forall w | w in r :: r[w] == if w in acc then acc[w] else Lookup(n, w).value
    decreases n, 1
  {
    if n.sub.None? then n.bucket + acc
    else
      assert forall w | w in acc :: SecLookup(n.sub.value, w).None? by {
        forall w | w in acc
          ensures SecLookup(n.sub.value, w).None?
        {
          assert Lookup(n, w).None?;
        }
      }
      n.bucket + SecGather(n.sub.value, acc)
  }

  /** `BiSection::GatherAllValuesDeep`: the low half, then the high half. */
  function SecGather<V(!new)>(s: Sec<V>, acc: map<V, Box>): (r: map<V, Box>)
    requires SecDistinct(s) && forall w | w in acc :: SecLookup(s, w).None?
    ensures forall w :: w in r <==> w in acc || SecLookup(s, w).Some?
    ensures forall w | w in r :: r[w] == if w in acc then acc[w] else SecLookup(s, w).value
    decreases s, 0
  {
    match s
    case Split(l, h) =>
      assert forall w | w in acc :: SecLookup(l, w).None? && SecLookup(h, w).None? by {
        forall w | w in acc
          ensures SecLookup(l, w).None? && SecLookup(h, w).None?
        {
          assert SecLookup(s, w).None?;
        }
      }
      var acc' := SecGather(l, acc);
      SecGather(h, acc')
    case Leaves(l, h) =>
      assert forall w | w in acc :: Lookup(l, w).None? && Lookup(h, w).None? by {
        forall w | w in acc
          ensures Lookup(l, w).None? && Lookup(h, w).None?
        {
          assert SecLookup(s, w).None?;
        }
      }
      var acc' := Gather(l, acc);
      Gather(h, acc')
  }

  /** Gathering a node into nothing yields exactly what it stores. */
  lemma GatherIsStored<V(!new)>(n: Node<V>)
    requires NodeDistinct(n)
    ensures Gather(n, map[]) == Stored(n)
  {
    var g := Gather(n, map[]);
    forall w
      ensures w in g <==> w in Stored(n)
      ensures w in g ==> g[w] == Stored(n)[w]
    {
      LookupStored(n, w);
    }
  }

  /** What `Node::Del` leaves in the bucket when it collapses a node: the
      subdivision gathered into the bucket, without `v`. Every value the node
      stored other than `v` is in it, with its box. */
  function Collapsed<V(!new)>(n: Node<V>, v: V): (m: map<V, Box>)
    requires NodeDistinct(n)
    ensures forall w :: w in m <==> w != v && Lookup(n, w).Some?
    ensures forall w | w in m :: m[w] == Lookup(n, w).value
  {
    (if n.sub.None? then n.bucket else SecGather(n.sub.value, n.bucket)) - {v}
  }

  // ---------------------------------------------------------------------------
  // Removal

  /** The routing of `BiSection::Del` on axis `x - 1` for a value stored
      below the section: of the two tests the source makes, exactly one
      passes, and it names the half that stores the value. */
  lemma DelRoute<V(!new)>(c: Config, s: Sec<V>, x: nat, region: Box, level: nat, area: Box, v: V, b: Box)
    requires SecShape(c, s, x, region, level) && SameDim(area, region) && AgreesBelow(region, area, x)
    requires SecLookup(s, v) == Some(b)
    ensures Fits(region, b) && 1 <= x <= |b.lo|
    ensures var k, mid := x - 1, CenterCoord(area, x - 1);
      && (b.lo[k] <= mid <==> !(b.hi[k] >= mid))
      && AgreesBelow(LowHalf(region, k), area, k) && AgreesBelow(HighHalf(region, k), area, k)
      && (s.Split? ==> if b.lo[k] <= mid then SecLookup(s.low, v) == Some(b) else SecLookup(s.high, v) == Some(b))
      && (s.Leaves? ==> if b.lo[k] <= mid then Lookup(s.lowNode, v) == Some(b) else Lookup(s.highNode, v) == Some(b))
  {
    var k := x - 1;
    SecLookupInside(c, s, x, region, level, v);
    assert CenterCoord(region, k) == CenterCoord(area, k);
    HalvesInside(region, k);
    match s
    case Split(l, h) =>
      if SecLookup(l, v).Some? {
        SecLookupInside(c, l, k, LowHalf(region, k), level, v);
        HalvesSides(region, k, b);
      } else {
        SecLookupInside(c, h, k, HighHalf(region, k), level, v);
        HalvesSides(region, k, b);
      }
    case Leaves(l, h) =>
      if Lookup(l, v).Some? {
        LookupInside(c, l, v);
        HalvesSides(region, k, b);
      } else {
        LookupInside(c, h, v);
        HalvesSides(region, k, b);
      }
  }

  /** `Node::Del` of a value stored with box `b`. */
  function NodeDel<V(!new)>(c: Config, n: Node<V>, v: V, b: Box): (r: Node<V>)
    requires NodeInv(c, n) && Lookup(n, v) == Some(b)
    ensures r.area == n.area && r.level == n.level && r.count == n.count - 1
    decreases n, 1
  {
    LookupCounted(n, v);
    if n.count - 1 <= c.groupCount then
      Node(n.area, n.level, Collapsed(n, v), n.count - 1, None)
    else if v in n.bucket then
      n.(bucket := n.bucket - {v}, count := n.count - 1)
    else
      SubInv(c, n);
      n.(count := n.count - 1, sub := Some(SecDel(c, n.sub.value, c.dim, n.area, n.level + 1, n.area, v, b)))
  }

  /** `BiSection::Del` for the section of `x` axes over `region`, in the
      subdivision of the node with area `area`: the low half when the box
      starts at or below the centre on axis `x - 1`, the high half when it
      ends at or above it (by `DelRoute`, exactly one of the two). */
  function SecDel<V(!new)>(c: Config, s: Sec<V>, x: nat, region: Box, level: nat, area: Box, v: V, b: Box): (r: Sec<V>)
    requires SecInv(c, s, x, region, level) && SameDim(area, region) && AgreesBelow(region, area, x)
    requires SecLookup(s, v) == Some(b)
    ensures r.Split? <==> s.Split?
    decreases s, 0
  {
    var k, mid := x - 1, CenterCoord(area, x - 1);
    DelRoute(c, s, x, region, level, area, v, b);
    SecInvParts(c, s, x, region, level);
    match s
    case Split(l, h) =>
      if b.lo[k] <= mid then Split(SecDel(c, l, k, LowHalf(region, k), level, area, v, b), h)
      else Split(l, SecDel(c, h, k, HighHalf(region, k), level, area, v, b))
    case Leaves(l, h) =>
      if b.lo[k] <= mid then Leaves(NodeDel(c, l, v, b), h)
      else Leaves(l, NodeDel(c, h, v, b))
  }

  // ---------------------------------------------------------------------------
  // What removal stores: lookups

  /** `Node::Del` forgets `v` and leaves every other lookup alone. */
  lemma {:induction false} NodeDelLookup<V(!new)>(c: Config, n: Node<V>, v: V, b: Box, w: V)
    requires NodeInv(c, n) && Lookup(n, v) == Some(b)
    ensures Lookup(NodeDel(c, n, v, b), w) == if w == v then None else Lookup(n, w)
    decreases n, 1
  {
    var r := NodeDel(c, n, v, b);
    LookupCounted(n, v);
    if n.count - 1 <= c.groupCount {
      assert r.bucket == Collapsed(n, v) && r.sub.None?;
    } else if v in n.bucket {
      assert r == n.(bucket := n.bucket - {v}, count := n.count - 1);
    } else {
      var s := n.sub.value;
      SubInv(c, n);
      var t := SecDel(c, s, c.dim, n.area, n.level + 1, n.area, v, b);
      assert r == Node(n.area, n.level, n.bucket, n.count - 1, Some(t));
      SecDelLookup(c, s, c.dim, n.area, n.level + 1, n.area, v, b, w);
    }
  }

  lemma {:induction false} SecDelLookup<V(!new)>(c: Config, s: Sec<V>, x: nat, region: Box, level: nat,
                                                 area: Box, v: V, b: Box, w: V)
    requires SecInv(c, s, x, region, level) && SameDim(area, region) && AgreesBelow(region, area, x)
    requires SecLookup(s, v) == Some(b)
    ensures SecLookup(SecDel(c, s, x, region, level, area, v, b), w) == if w == v then None else SecLookup(s, w)
    decreases s, 0
  {
    var k, mid := x - 1, CenterCoord(area, x - 1);
    DelRoute(c, s, x, region, level, area, v, b);
    SecInvParts(c, s, x, region, level);
    var r := SecDel(c, s, x, region, level, area, v, b);
    match s
    case Split(l, h) =>
      if b.lo[k] <= mid {
        var l' := SecDel(c, l, k, LowHalf(region, k), level, area, v, b);
        assert r == Split(l', h);
        SecDelLookup(c, l, k, LowHalf(region, k), level, area, v, b, w);
      } else {
        var h' := SecDel(c, h, k, HighHalf(region, k), level, area, v, b);
        assert r == Split(l, h');
        SecDelLookup(c, h, k, HighHalf(region, k), level, area, v, b, w);
      }
    case Leaves(l, h) =>
      if b.lo[k] <= mid {
        var l' := NodeDel(c, l, v, b);
        assert r == Leaves(l', h);
        NodeDelLookup(c, l, v, b, w);
      } else {
        var h' := NodeDel(c, h, v, b);
        assert r == Leaves(l, h');
        NodeDelLookup(c, h, v, b, w);
      }
  }

  // ---------------------------------------------------------------------------
  // What removal stores: no value twice

  /** `Node::Del` keeps every value in one place. */
  lemma {:induction false} NodeDelDistinct<V(!new)>(c: Config, n: Node<V>, v: V, b: Box)
    requires NodeInv(c, n) && Lookup(n, v) == Some(b)
    ensures NodeDistinct(NodeDel(c, n, v, b))
    decreases n, 1
  {
    var r := NodeDel(c, n, v, b);
    LookupCounted(n, v);
    if n.count - 1 <= c.groupCount {
      assert r.sub.None?;
    } else if v in n.bucket {
      assert r == n.(bucket := n.bucket - {v}, count := n.count - 1);
    } else {
      var s := n.sub.value;
      SubInv(c, n);
      var t := SecDel(c, s, c.dim, n.area, n.level + 1, n.area, v, b);
      assert r == Node(n.area, n.level, n.bucket, n.count - 1, Some(t));
      SecDelDistinct(c, s, c.dim, n.area, n.level + 1, n.area, v, b);
      forall w | w in n.bucket
        ensures SecLookup(t, w).None?
      {
        SecDelLookup(c, s, c.dim, n.area, n.level + 1, n.area, v, b, w);
      }
    }
  }

  lemma {:induction false} SecDelDistinct<V(!new)>(c: Config, s: Sec<V>, x: nat, region: Box, level: nat,
                                                   area: Box, v: V, b: Box)
    requires SecInv(c, s, x, region, level) && SameDim(area, region) && AgreesBelow(region, area, x)
    requires SecLookup(s, v) == Some(b)
    ensures SecDistinct(SecDel(c, s, x, region, level, area, v, b))
    decreases s, 0
  {
    var k, mid := x - 1, CenterCoord(area, x - 1);
    DelRoute(c, s, x, region, level, area, v, b);
    SecInvParts(c, s, x, region, level);
    var r := SecDel(c, s, x, region, level, area, v, b);
    match s
    case Split(l, h) =>
      var lr, hr := LowHalf(region, k), HighHalf(region, k);
      if b.lo[k] <= mid {
        var l' := SecDel(c, l, k, lr, level, area, v, b);
        assert r == Split(l', h);
        SecDelDistinct(c, l, k, lr, level, area, v, b);
        forall w | SecLookup(l', w).Some?
          ensures SecLookup(h, w).None?
        {
          SecDelLookup(c, l, k, lr, level, area, v, b, w);
        }
      } else {
        var h' := SecDel(c, h, k, hr, level, area, v, b);
        assert r == Split(l, h');
        SecDelDistinct(c, h, k, hr, level, area, v, b);
        forall w | SecLookup(l, w).Some?
          ensures SecLookup(h', w).None?
        {
          SecDelLookup(c, h, k, hr, level, area, v, b, w);
        }
      }
    case Leaves(l, h) =>
      if b.lo[k] <= mid {
        var l' := NodeDel(c, l, v, b);
        assert r == Leaves(l', h);
        NodeDelDistinct(c, l, v, b);
        forall w | Lookup(l', w).Some?
          ensures Lookup(h, w).None?
        {
          NodeDelLookup(c, l, v, b, w);
        }
      } else {
        var h' := NodeDel(c, h, v, b);
        assert r == Leaves(l, h');
        NodeDelDistinct(c, h, v, b);
        forall w | Lookup(l, w).Some?
          ensures Lookup(h', w).None?
        {
          NodeDelLookup(c, h, v, b, w);
        }
      }
  }

  // ---------------------------------------------------------------------------
  // What removal stores: shape

  /** `Node::Del` keeps every remaining box inside its node. */
  lemma {:induction false} NodeDelShape<V(!new)>(c: Config, n: Node<V>, v: V, b: Box)
    requires NodeInv(c, n) && Lookup(n, v) == Some(b)
    ensures NodeShape(c, NodeDel(c, n, v, b))
    decreases n, 1
  {
    var r := NodeDel(c, n, v, b);
    LookupCounted(n, v);
    if n.count - 1 <= c.groupCount {
      var m := Collapsed(n, v);
      assert r == Node(n.area, n.level, m, n.count - 1, None);
      forall w | w in m
        ensures Fits(n.area, m[w])
      {
        LookupInside(c, n, w);
      }
    } else if v in n.bucket {
      assert r == n.(bucket := n.bucket - {v}, count := n.count - 1);
    } else {
      var s := n.sub.value;
      SubInv(c, n);
      var t := SecDel(c, s, c.dim, n.area, n.level + 1, n.area, v, b);
      assert r == Node(n.area, n.level, n.bucket, n.count - 1, Some(t));
      SecDelShape(c, s, c.dim, n.area, n.level + 1, n.area, v, b);
    }
  }

  lemma {:induction false} SecDelShape<V(!new)>(c: Config, s: Sec<V>, x: nat, region: Box, level: nat,
                                                area: Box, v: V, b: Box)
    requires SecInv(c, s, x, region, level) && SameDim(area, region) && AgreesBelow(region, area, x)
    requires SecLookup(s, v) == Some(b)
    ensures SecShape(c, SecDel(c, s, x, region, level, area, v, b), x, region, level)
    decreases s, 0
  {
    var k, mid := x - 1, CenterCoord(area, x - 1);
    DelRoute(c, s, x, region, level, area, v, b);
    SecInvParts(c, s, x, region, level);
    var r := SecDel(c, s, x, region, level, area, v, b);
    match s
    case Split(l, h) =>
      if b.lo[k] <= mid {
        assert r == Split(SecDel(c, l, k, LowHalf(region, k), level, area, v, b), h);
        SecDelShape(c, l, k, LowHalf(region, k), level, area, v, b);
      } else {
        assert r == Split(l, SecDel(c, h, k, HighHalf(region, k), level, area, v, b));
        SecDelShape(c, h, k, HighHalf(region, k), level, area, v, b);
      }
    case Leaves(l, h) =>
      if b.lo[k] <= mid {
        assert r == Leaves(NodeDel(c, l, v, b), h);
        NodeDelShape(c, l, v, b);
      } else {
        assert r == Leaves(l, NodeDel(c, h, v, b));
        NodeDelShape(c, h, v, b);
      }
  }

  // ---------------------------------------------------------------------------
  // What removal stores: counters and policy

  /** `Node::Del` counts one entry less and keeps the splitting policy. */
  lemma {:induction false} NodeDelSound<V(!new)>(c: Config, n: Node<V>, v: V, b: Box)
    requires NodeInv(c, n) && Lookup(n, v) == Some(b)
    ensures NodeSound(c, NodeDel(c, n, v, b)) && Size(NodeDel(c, n, v, b)) == Size(n) - 1
    decreases n, 2
  {
    LookupCounted(n, v);
    if n.count - 1 <= c.groupCount {
      CollapseSound(c, n, v, b);
    } else if v in n.bucket {
      BucketDelSound(c, n, v, b);
    } else {
      BelowDelSound(c, n, v, b);
    }
  }

  /** The collapsing branch of `Node::Del`. */
  lemma CollapseSound<V(!new)>(c: Config, n: Node<V>, v: V, b: Box)
    requires NodeInv(c, n) && Lookup(n, v) == Some(b) && n.count - 1 <= c.groupCount
    ensures NodeSound(c, NodeDel(c, n, v, b)) && Size(NodeDel(c, n, v, b)) == Size(n) - 1
  {
    LookupCounted(n, v);
    CollapsedSize(n, v);
    assert NodeDel(c, n, v, b) == Node(n.area, n.level, Collapsed(n, v), n.count - 1, None);
  }

  /** The branch of `Node::Del` that erases the value from the bucket. */
  lemma BucketDelSound<V(!new)>(c: Config, n: Node<V>, v: V, b: Box)
    requires NodeInv(c, n) && Lookup(n, v) == Some(b) && n.count - 1 > c.groupCount && v in n.bucket
    ensures NodeSound(c, NodeDel(c, n, v, b)) && Size(NodeDel(c, n, v, b)) == Size(n) - 1
  {
    var r := n.(bucket := n.bucket - {v}, count := n.count - 1);
    assert NodeDel(c, n, v, b) == r;
    Maps.RemoveSize(n.bucket, v);
    assert r.sub.Some? ==> SecSound(c, r.sub.value);
  }

  /** The branch of `Node::Del` that removes the value from the subdivision. */
  lemma {:induction false} BelowDelSound<V(!new)>(c: Config, n: Node<V>, v: V, b: Box)
    requires NodeInv(c, n) && Lookup(n, v) == Some(b) && n.count - 1 > c.groupCount && v !in n.bucket
    ensures NodeSound(c, NodeDel(c, n, v, b)) && Size(NodeDel(c, n, v, b)) == Size(n) - 1
    decreases n, 1
  {
    var s := n.sub.value;
    SubInv(c, n);
    var t := SecDel(c, s, c.dim, n.area, n.level + 1, n.area, v, b);
    assert NodeDel(c, n, v, b) == Node(n.area, n.level, n.bucket, n.count - 1, Some(t));
    SecDelSound(c, s, c.dim, n.area, n.level + 1, n.area, v, b);
  }

  /** The collapsed bucket holds every value the node stored but `v`. */
  lemma CollapsedIsStored<V(!new)>(n: Node<V>, v: V)
    requires NodeDistinct(n)
    ensures Collapsed(n, v) == Stored(n) - {v}
  {
    var m := Collapsed(n, v);
    forall w
      ensures w in m <==> w in Stored(n) - {v}
      ensures w in m ==> m[w] == Stored(n)[w]
    {
      LookupStored(n, w);
    }
  }

  /** The collapsed bucket of a node storing `v` has one entry less than
      the node counts. */
  lemma CollapsedSize<V(!new)>(n: Node<V>, v: V)
    requires NodeDistinct(n) && Lookup(n, v).Some?
    ensures |Collapsed(n, v)| == Size(n) - 1
  {
    CollapsedIsStored(n, v);
    LookupStored(n, v);
    SizeIsStored(n);
    Maps.RemoveSize(Stored(n), v);
  }

  lemma {:induction false} SecDelSound<V(!new)>(c: Config, s: Sec<V>, x: nat, region: Box, level: nat,
                                                area: Box, v: V, b: Box)
    requires SecInv(c, s, x, region, level) && SameDim(area, region) && AgreesBelow(region, area, x)
    requires SecLookup(s, v) == Some(b)
    ensures SecSound(c, SecDel(c, s, x, region, level, area, v, b))
    ensures SecSize(SecDel(c, s, x, region, level, area, v, b)) == SecSize(s) - 1
    decreases s, 0
  {
    var k, mid := x - 1, CenterCoord(area, x - 1);
    DelRoute(c, s, x, region, level, area, v, b);
    SecInvParts(c, s, x, region, level);
    var r := SecDel(c, s, x, region, level, area, v, b);
    match s
    case Split(l, h) =>
      if b.lo[k] <= mid {
        assert r == Split(SecDel(c, l, k, LowHalf(region, k), level, area, v, b), h);
        SecDelSound(c, l, k, LowHalf(region, k), level, area, v, b);
      } else {
        assert r == Split(l, SecDel(c, h, k, HighHalf(region, k), level, area, v, b));
        SecDelSound(c, h, k, HighHalf(region, k), level, area, v, b);
      }
    case Leaves(l, h) =>
      if b.lo[k] <= mid {
        assert r == Leaves(NodeDel(c, l, v, b), h);
        NodeDelSound(c, l, v, b);
      } else {
        assert r == Leaves(l, NodeDel(c, h, v, b));
        NodeDelSound(c, h, v, b);
      }
  }

  // ---------------------------------------------------------------------------
  // What removal stores

  /** `Node::Del` of a stored value keeps the node invariant and stores
      exactly one entry less: every value but `v`, each with its box. */
  lemma NodeDelSpec<V(!new)>(c: Config, n: Node<V>, v: V, b: Box)
    requires NodeInv(c, n) && v in Stored(n) && Stored(n)[v] == b
    ensures Lookup(n, v) == Some(b)
    ensures NodeInv(c, NodeDel(c, n, v, b))
    ensures Stored(NodeDel(c, n, v, b)) == Stored(n) - {v}
    ensures Size(NodeDel(c, n, v, b)) == Size(n) - 1
    ensures forall w :: Lookup(NodeDel(c, n, v, b), w) == if w == v then None else Lookup(n, w)
  {
    LookupStored(n, v);
    var r := NodeDel(c, n, v, b);
    NodeDelShape(c, n, v, b);
    NodeDelDistinct(c, n, v, b);
    NodeDelSound(c, n, v, b);
    forall w
      ensures Lookup(r, w) == if w == v then None else Lookup(n, w)
    {
      NodeDelLookup(c, n, v, b, w);
    }
    StoredFromLookupRemove(n, r, v);
  }

  /** When the decremented count is `groupCount` or less, `Node::Del` drops
      the subdivision and keeps every remaining value in the bucket, which
      then holds at most `groupCount` entries: the "Too many elements in
      bucket" assertion holds. */
  lemma NodeDelCollapse<V(!new)>(c: Config, n: Node<V>, v: V, b: Box)
    requires NodeInv(c, n) && Lookup(n, v) == Some(b) && Size(n) - 1 <= c.groupCount
    ensures NodeDel(c, n, v, b).sub.None?
    ensures NodeDel(c, n, v, b).bucket == Stored(n) - {v}
    ensures |NodeDel(c, n, v, b).bucket| <= c.groupCount
  {
    LookupCounted(n, v);
    CollapsedIsStored(n, v);
    CollapsedSize(n, v);
  }
}
