/** Insertion into a node (`Node::Add`, `BiSection::Add`, and the migration of
    a bucket into a freshly created subdivision).

    A node keeps a new value in its bucket when the box cannot fall deeper
    (it straddles a centre plane of the node) or when the bucket still has
    room and there is no subdivision. Otherwise the value goes down: if the
    node has no subdivision yet, one is created and every bucket entry that can
    fall deeper is moved into it first. A section sends a box to the half on
    whose side of the node's centre plane it lies.

    The source iterates its bucket (an `unordered_map`) in an unspecified order;
    the model picks the entries in an arbitrary but fixed order, so these
    functions are ghost. Insertion over exact coordinates need not terminate
    (identical point boxes, more of them than `groupCount`, are pushed down
    forever), so the functions carry `fuel`, and `None` means the fuel ran out.

    The functions' contracts state the shape they keep. What they store is
    proved in three families of lemmas (lookups, no value twice, counters and
    policy), combined in `NodeAddSpec`. */
module NodeInsert {
  import opened Wrappers
  import opened Points
  import opened Boxes
  import opened Nodes
  import Maps

  /** The routing of `BiSection::Add` on axis `x - 1` of a box that can fall
      deeper: at most one of its two tests passes, and the box is then
      admitted by that half of the section's region. For a valid box exactly
      one passes; a box whose low corner lies above the centre plane and whose
      high corner lies below it passes neither. */
  lemma Route(region: Box, area: Box, x: nat, b: Box)
    requires region.Valid() && SameDim(area, region) && 1 <= x <= |region.lo|
    requires AgreesBelow(region, area, x)
    requires Admits(region, b) && CanFallDeeper(area, b)
    ensures var k, mid := x - 1, CenterCoord(area, x - 1);
      && !(b.lo[k] <= mid && b.hi[k] >= mid)
      && (b.Valid() ==> b.lo[k] <= mid || b.hi[k] >= mid)
      && (b.lo[k] <= mid ==> Admits(LowHalf(region, k), b))
      && (b.hi[k] >= mid ==> Admits(HighHalf(region, k), b))
      && AgreesBelow(LowHalf(region, k), area, k)
      && AgreesBelow(HighHalf(region, k), area, k)
  {
    var k, mid := x - 1, CenterCoord(area, x - 1);
    HalvesInside(region, k);
    assert InOrthantAxis(area, b, k);
    assert CenterCoord(region, k) == mid;
    if b.Valid() {
      assert b.lo[k] <= b.hi[k];
    }
  }

  /** The entries of `m` that can fall deeper below `area`: those that move
      into a new subdivision. */
  function Falling<V(!new)>(area: Box, m: map<V, Box>): map<V, Box> {
    map k | k in m && CanFallDeeper(area, m[k]) :: m[k]
  }

  /** The entries of `m` that stay in the bucket of a node with area `area`. */
  function Staying<V(!new)>(area: Box, m: map<V, Box>): map<V, Box> {
    map k | k in m && !CanFallDeeper(area, m[k]) :: m[k]
  }

  /** `Falling` and `Staying` split a map into two parts with disjoint keys. */
  lemma FallingStayingSplit<V(!new)>(area: Box, m: map<V, Box>)
    ensures Staying(area, m).Keys !! Falling(area, m).Keys
    ensures Staying(area, m) + Falling(area, m) == m
    ensures |Staying(area, m)| + |Falling(area, m)| == |m|
  {
    var st, fa := Staying(area, m), Falling(area, m);
    assert st.Keys !! fa.Keys;
    assert st + fa == m;
    Maps.UnionSize(st, fa);
  }

  /** Every staying entry stays in the bucket: it cannot fall deeper. */
  lemma StayingCannotFall<V(!new)>(area: Box, m: map<V, Box>)
    ensures forall k | k in Staying(area, m) :: k in m && !CanFallDeeper(area, Staying(area, m)[k])
  {
  }

  /** `Node::Add`. The box need not be valid; the node's shape is kept for
      valid boxes. */
  ghost function NodeAdd<V(!new)>(c: Config, n: Node<V>, v: V, b: Box, fuel: nat): (r: Option<Node<V>>)
    requires NodeShape(c, n) && Admits(n.area, b)
    ensures r.Some? ==> r.value.area == n.area && r.value.level == n.level
    ensures r.Some? && b.Valid() ==> NodeShape(c, r.value)
    decreases fuel, 0
  {
    if !CanFallDeeper(n.area, b) || (|n.bucket| < c.groupCount && n.sub.None?) then
      Some(n.(bucket := if v in n.bucket then n.bucket else n.bucket[v := b], count := n.count + 1))
    else if fuel == 0 then
      None
    else if n.sub.Some? then
      AddBelow(c, n, v, b, fuel - 1)
    else
      AddSplitting(c, n, v, b, fuel - 1)
  }

  /** `Node::Add` when the node has a subdivision and the box can fall
      deeper: the value goes into the subdivision. */
  ghost function AddBelow<V(!new)>(c: Config, n: Node<V>, v: V, b: Box, fuel: nat): (r: Option<Node<V>>)
    requires NodeShape(c, n) && Admits(n.area, b) && CanFallDeeper(n.area, b) && n.sub.Some?
    ensures r.Some? ==> r.value.area == n.area && r.value.level == n.level
    ensures r.Some? && b.Valid() ==> NodeShape(c, r.value)
    decreases fuel, 3
  {
    match SecAdd(c, n.sub.value, c.dim, n.area, n.level + 1, n.area, v, b, fuel)
    case None => None
    case Some(s) => Some(n.(count := n.count + 1, sub := Some(s)))
  }

  /** `Node::Add` when the bucket is full, there is no subdivision and the
      box can fall deeper: the node is subdivided first. */
  ghost function AddSplitting<V(!new)>(c: Config, n: Node<V>, v: V, b: Box, fuel: nat): (r: Option<Node<V>>)
    requires NodeShape(c, n) && Admits(n.area, b) && CanFallDeeper(n.area, b) && n.sub.None?
    ensures r.Some? ==> r.value.area == n.area && r.value.level == n.level
    ensures r.Some? && b.Valid() ==> NodeShape(c, r.value)
    decreases fuel, 4
  {
    match Subdivide(c, n, fuel)
    case None => None
    case Some(n1) => AddBelow(c, n1, v, b, fuel)
  }

  /** The creation of a subdivision in `Node::Add`: a new section over the
      node's area, into which every bucket entry that can fall deeper is
      moved; the others stay in the bucket. The source erases the moving
      entries while iterating its bucket; the entries that stay do not touch
      the subdivision, so moving the falling entries one by one in the order
      of `AddAll` is the same loop. */
  ghost function Subdivide<V(!new)>(c: Config, n: Node<V>, fuel: nat): (r: Option<Node<V>>)
    requires NodeShape(c, n) && n.sub.None?
    ensures r.Some? ==> NodeShape(c, r.value) && r.value.sub.Some?
    ensures r.Some? ==> r.value.area == n.area && r.value.level == n.level && r.value.count == n.count
    decreases fuel, 3
  {
    var fall := Falling(n.area, n.bucket);
    match AddAll(c, n.area, n.level + 1, NewSec(c, n.area, c.dim, n.level + 1), fall, fuel)
    case None => None
    case Some(s) => Some(n.(bucket := Staying(n.area, n.bucket), sub := Some(s)))
  }

  /** `BiSection::Add` for the section of `x` axes over `region`, in the
      subdivision of the node with area `area`. For `x > 1` the low half is
      tried first; for `x == 1` the high half is. A box that passes neither
      test (possible only for a box that is not valid) is stored nowhere. */
  ghost function SecAdd<V(!new)>(c: Config, s: Sec<V>, x: nat, region: Box, level: nat,
                           area: Box, v: V, b: Box, fuel: nat): (r: Option<Sec<V>>)
    requires SecShape(c, s, x, region, level)
    requires SameDim(area, region) && AgreesBelow(region, area, x)
    requires Admits(region, b) && CanFallDeeper(area, b)
    ensures r.Some? && b.Valid() ==> SecShape(c, r.value, x, region, level)
    decreases fuel, 1, s
  {
    var k, mid := x - 1, CenterCoord(area, x - 1);
    Route(region, area, x, b);
    match s
    case Split(l, h) =>
      if b.lo[k] <= mid then
        (match SecAdd(c, l, k, LowHalf(region, k), level, area, v, b, fuel)
         case None => None
         case Some(l') => Some(Split(l', h)))
      else if b.hi[k] >= mid then
        (match SecAdd(c, h, k, HighHalf(region, k), level, area, v, b, fuel)
         case None => None
         case Some(h') => Some(Split(l, h')))
      else
        Some(s)
    case Leaves(l, h) =>
      if b.hi[0] >= mid then
        (match NodeAdd(c, h, v, b, fuel)
         case None => None
         case Some(h') => Some(Leaves(l, h')))
      else if b.lo[0] <= mid then
        (match NodeAdd(c, l, v, b, fuel)
         case None => None
         case Some(l') => Some(Leaves(l', h)))
      else
        Some(s)
  }

  /** Every entry of `m`, each able to fall deeper below `area`, added to
      the top section `s` of that area's subdivision, one after the other. */
  ghost function AddAll<V(!new)>(c: Config, area: Box, level: nat, s: Sec<V>, m: map<V, Box>, fuel: nat): (r: Option<Sec<V>>)
    requires SecShape(c, s, c.dim, area, level)
    requires forall k | k in m :: Fits(area, m[k]) && CanFallDeeper(area, m[k])
    ensures r.Some? ==> SecShape(c, r.value, c.dim, area, level)
    decreases fuel, 2, |m|
  {
    if |m| == 0 then
      Some(s)
    else
      var k := Maps.Pick(m);
      Maps.RemoveSize(m, k);
      assert Fits(area, m[k]);
      match SecAdd(c, s, c.dim, area, level, area, k, m[k], fuel)
      case None => None
      case Some(s') => AddAll(c, area, level, s', m - {k}, fuel)
  }

  // ---------------------------------------------------------------------------
  // What insertion stores: lookups

  /** `Node::Add`, when it completes, stores `v` with `b` and leaves every
      other lookup alone. */
  lemma {:induction false} NodeAddLookup<V(!new)>(c: Config, n: Node<V>, v: V, b: Box, fuel: nat, r: Node<V>, w: V)
    requires NodeShape(c, n) && Fits(n.area, b) && Lookup(n, v).None?
    requires NodeAdd(c, n, v, b, fuel) == Some(r)
    ensures Lookup(r, w) == if w == v then Some(b) else Lookup(n, w)
    decreases fuel, 0
  {
    if !CanFallDeeper(n.area, b) || (|n.bucket| < c.groupCount && n.sub.None?) {
      assert r == n.(bucket := n.bucket[v := b], count := n.count + 1);
      BucketLookup(n, v, b, w);
    } else if n.sub.Some? {
      AddBelowLookup(c, n, v, b, fuel - 1, r, w);
    } else {
      AddSplittingLookup(c, n, v, b, fuel - 1, r, w);
    }
  }

  /** The bucket branch of `Node::Add` stores `v` with `b` in the bucket. */
  lemma BucketLookup<V(!new)>(n: Node<V>, v: V, b: Box, w: V)
    requires Lookup(n, v).None?
    ensures Lookup(n.(bucket := n.bucket[v := b], count := n.count + 1), w) == if w == v then Some(b) else Lookup(n, w)
  {
  }

  lemma {:induction false} AddBelowLookup<V(!new)>(c: Config, n: Node<V>, v: V, b: Box, fuel: nat, r: Node<V>, w: V)
    requires NodeShape(c, n) && Fits(n.area, b) && CanFallDeeper(n.area, b) && n.sub.Some?
    requires v !in n.bucket && SecLookup(n.sub.value, v).None?
    requires AddBelow(c, n, v, b, fuel) == Some(r)
    ensures Lookup(r, w) == if w == v then Some(b) else Lookup(n, w)
    decreases fuel, 3
  {
    var s := n.sub.value;
    var t := SecAdd(c, s, c.dim, n.area, n.level + 1, n.area, v, b, fuel).value;
    assert r == Node(n.area, n.level, n.bucket, n.count + 1, Some(t));
    SecAddLookup(c, s, c.dim, n.area, n.level + 1, n.area, v, b, fuel, t, w);
  }

  lemma {:induction false} AddSplittingLookup<V(!new)>(c: Config, n: Node<V>, v: V, b: Box, fuel: nat, r: Node<V>, w: V)
    requires NodeShape(c, n) && Fits(n.area, b) && CanFallDeeper(n.area, b) && n.sub.None?
    requires v !in n.bucket
    requires AddSplitting(c, n, v, b, fuel) == Some(r)
    ensures Lookup(r, w) == if w == v then Some(b) else Lookup(n, w)
    decreases fuel, 4
  {
    var n1 := Subdivide(c, n, fuel).value;
    SubdivideLookup(c, n, fuel, n1, v);
    SubdivideLookup(c, n, fuel, n1, w);
    AddBelowLookup(c, n1, v, b, fuel, r, w);
  }

  /** No entry of a batch is stored in a new section. */
  lemma NewSecFresh<V(!new)>(c: Config, area: Box, x: nat, level: nat, m: map<V, Box>)
    requires c.Valid() && area.Valid() && |area.lo| == c.dim && 1 <= x <= c.dim
    ensures forall k | k in m :: SecLookup(NewSec<V>(c, area, x, level), k).None?
  {
    forall k | k in m
      ensures SecLookup(NewSec<V>(c, area, x, level), k).None?
    {
      NewSecLookup<V>(c, area, x, level, k);
    }
  }

  /** Subdividing a node moves entries but every lookup finds what it found
      before. */
  lemma {:induction false} SubdivideLookup<V(!new)>(c: Config, n: Node<V>, fuel: nat, r: Node<V>, w: V)
    requires NodeShape(c, n) && n.sub.None?
    requires Subdivide(c, n, fuel) == Some(r)
    ensures Lookup(r, w) == Lookup(n, w)
    decreases fuel, 3
  {
    var fall := Falling(n.area, n.bucket);
    var s0 := NewSec<V>(c, n.area, c.dim, n.level + 1);
    NewSecFresh<V>(c, n.area, c.dim, n.level + 1, fall);
    var t := AddAll(c, n.area, n.level + 1, s0, fall, fuel).value;
    AddAllLookup(c, n.area, n.level + 1, s0, fall, fuel, t, w);
    NewSecLookup<V>(c, n.area, c.dim, n.level + 1, w);
    assert r == Node(n.area, n.level, Staying(n.area, n.bucket), n.count, Some(t));
  }

  lemma {:induction false} SecAddLookup<V(!new)>(c: Config, s: Sec<V>, x: nat, region: Box, level: nat,
                                                 area: Box, v: V, b: Box, fuel: nat, r: Sec<V>, w: V)
    requires SecShape(c, s, x, region, level)
    requires SameDim(area, region) && AgreesBelow(region, area, x)
    requires Fits(region, b) && CanFallDeeper(area, b)
    requires SecLookup(s, v).None?
    requires SecAdd(c, s, x, region, level, area, v, b, fuel) == Some(r)
    ensures SecLookup(r, w) == if w == v then Some(b) else SecLookup(s, w)
    decreases fuel, 1, s
  {
    var k, mid := x - 1, CenterCoord(area, x - 1);
    Route(region, area, x, b);
    match s
    case Split(l, h) =>
      if b.lo[k] <= mid {
        var l' := SecAdd(c, l, k, LowHalf(region, k), level, area, v, b, fuel).value;
        assert r == Split(l', h);
        SecAddLookup(c, l, k, LowHalf(region, k), level, area, v, b, fuel, l', w);
      } else {
        var h' := SecAdd(c, h, k, HighHalf(region, k), level, area, v, b, fuel).value;
        assert r == Split(l, h');
        SecAddLookup(c, h, k, HighHalf(region, k), level, area, v, b, fuel, h', w);
      }
    case Leaves(l, h) =>
      if b.hi[0] >= mid {
        var h' := NodeAdd(c, h, v, b, fuel).value;
        assert r == Leaves(l, h');
        NodeAddLookup(c, h, v, b, fuel, h', w);
      } else {
        var l' := NodeAdd(c, l, v, b, fuel).value;
        assert r == Leaves(l', h);
        NodeAddLookup(c, l, v, b, fuel, l', w);
      }
  }

  /** Adding a batch of entries not yet stored stores each of them. */
  lemma {:induction false} AddAllLookup<V(!new)>(c: Config, area: Box, level: nat, s: Sec<V>, m: map<V, Box>,
                                                 fuel: nat, r: Sec<V>, w: V)
    requires SecShape(c, s, c.dim, area, level)
    requires forall k | k in m :: Fits(area, m[k]) && CanFallDeeper(area, m[k])
    requires forall k | k in m :: SecLookup(s, k).None?
    requires AddAll(c, area, level, s, m, fuel) == Some(r)
    ensures SecLookup(r, w) == if w in m then Some(m[w]) else SecLookup(s, w)
    decreases fuel, 2, |m|, 1
  {
    if |m| > 0 {
      var k := Maps.Pick(m);
      var rest := m - {k};
      Maps.RemoveSize(m, k);
      var s1 := SecAdd(c, s, c.dim, area, level, area, k, m[k], fuel).value;
      AddAllFresh(c, area, level, s, m, fuel, k, s1);
      assert AddAll(c, area, level, s1, rest, fuel) == Some(r);
      AddAllLookup(c, area, level, s1, rest, fuel, r, w);
      SecAddLookup(c, s, c.dim, area, level, area, k, m[k], fuel, s1, w);
    }
  }

  /** After the first entry of a batch is added, the rest are still not
      stored. */
  lemma AddAllFresh<V(!new)>(c: Config, area: Box, level: nat, s: Sec<V>, m: map<V, Box>, fuel: nat, k: V, s1: Sec<V>)
    requires SecShape(c, s, c.dim, area, level)
    requires forall j | j in m :: Fits(area, m[j]) && CanFallDeeper(area, m[j])
    requires forall j | j in m :: SecLookup(s, j).None?
    requires k in m && Fits(area, m[k]) && SecAdd(c, s, c.dim, area, level, area, k, m[k], fuel) == Some(s1)
    ensures forall j | j in m - {k} :: SecLookup(s1, j).None?
    decreases fuel, 2, |m|, 0
  {
    forall j | j in m - {k}
      ensures SecLookup(s1, j).None?
    {
      SecAddLookup(c, s, c.dim, area, level, area, k, m[k], fuel, s1, j);
    }
  }

  // ---------------------------------------------------------------------------
  // What insertion stores: no value twice

  /** `Node::Add` of a value not yet stored keeps every value in one place. */
  lemma {:induction false} NodeAddDistinct<V(!new)>(c: Config, n: Node<V>, v: V, b: Box, fuel: nat, r: Node<V>)
    requires NodeShape(c, n) && Fits(n.area, b) && NodeDistinct(n) && Lookup(n, v).None?
    requires NodeAdd(c, n, v, b, fuel) == Some(r)
    ensures NodeDistinct(r)
    decreases fuel, 0
  {
    if !CanFallDeeper(n.area, b) || (|n.bucket| < c.groupCount && n.sub.None?) {
      assert r == n.(bucket := n.bucket[v := b], count := n.count + 1);
    } else if n.sub.Some? {
      AddBelowDistinct(c, n, v, b, fuel - 1, r);
    } else {
      AddSplittingDistinct(c, n, v, b, fuel - 1, r);
    }
  }

  lemma {:induction false} AddBelowDistinct<V(!new)>(c: Config, n: Node<V>, v: V, b: Box, fuel: nat, r: Node<V>)
    requires NodeShape(c, n) && Fits(n.area, b) && CanFallDeeper(n.area, b) && n.sub.Some?
    requires NodeDistinct(n) && v !in n.bucket && SecLookup(n.sub.value, v).None?
    requires AddBelow(c, n, v, b, fuel) == Some(r)
    ensures NodeDistinct(r)
    decreases fuel, 3
  {
    var s := n.sub.value;
    var t := SecAdd(c, s, c.dim, n.area, n.level + 1, n.area, v, b, fuel).value;
    SecAddDistinct(c, s, c.dim, n.area, n.level + 1, n.area, v, b, fuel, t);
    forall w | w in n.bucket
      ensures SecLookup(t, w).None?
    {
      SecAddLookup(c, s, c.dim, n.area, n.level + 1, n.area, v, b, fuel, t, w);
    }
    assert r == Node(n.area, n.level, n.bucket, n.count + 1, Some(t));
  }

  lemma {:induction false} AddSplittingDistinct<V(!new)>(c: Config, n: Node<V>, v: V, b: Box, fuel: nat, r: Node<V>)
    requires NodeShape(c, n) && Fits(n.area, b) && CanFallDeeper(n.area, b) && n.sub.None?
    requires v !in n.bucket
    requires AddSplitting(c, n, v, b, fuel) == Some(r)
    ensures NodeDistinct(r)
    decreases fuel, 4
  {
    var n1 := Subdivide(c, n, fuel).value;
    SubdivideDistinct(c, n, fuel, n1);
    SubdivideLookup(c, n, fuel, n1, v);
    AddBelowDistinct(c, n1, v, b, fuel, r);
  }

  lemma {:induction false} SubdivideDistinct<V(!new)>(c: Config, n: Node<V>, fuel: nat, r: Node<V>)
    requires NodeShape(c, n) && n.sub.None?
    requires Subdivide(c, n, fuel) == Some(r)
    ensures NodeDistinct(r)
    decreases fuel, 3
  {
    var fall := Falling(n.area, n.bucket);
    var s0 := NewSec<V>(c, n.area, c.dim, n.level + 1);
    NewSecDistinct<V>(c, n.area, c.dim, n.level + 1);
    NewSecFresh<V>(c, n.area, c.dim, n.level + 1, fall);
    var t := AddAll(c, n.area, n.level + 1, s0, fall, fuel).value;
    AddAllDistinct(c, n.area, n.level + 1, s0, fall, fuel, t);
    var stay := Staying(n.area, n.bucket);
    forall w | w in stay
      ensures SecLookup(t, w).None?
    {
      AddAllLookup(c, n.area, n.level + 1, s0, fall, fuel, t, w);
      NewSecLookup<V>(c, n.area, c.dim, n.level + 1, w);
    }
    assert r == Node(n.area, n.level, stay, n.count, Some(t));
  }

  lemma {:induction false} SecAddDistinct<V(!new)>(c: Config, s: Sec<V>, x: nat, region: Box, level: nat,
                                                   area: Box, v: V, b: Box, fuel: nat, r: Sec<V>)
    requires SecShape(c, s, x, region, level)
    requires SameDim(area, region) && AgreesBelow(region, area, x)
    requires Fits(region, b) && CanFallDeeper(area, b)
    requires SecDistinct(s) && SecLookup(s, v).None?
    requires SecAdd(c, s, x, region, level, area, v, b, fuel) == Some(r)
    ensures SecDistinct(r)
    decreases fuel, 1, s
  {
    var k, mid := x - 1, CenterCoord(area, x - 1);
    Route(region, area, x, b);
    match s
    case Split(l, h) =>
      var lr, hr := LowHalf(region, k), HighHalf(region, k);
      if b.lo[k] <= mid {
        var l' := SecAdd(c, l, k, lr, level, area, v, b, fuel).value;
        SecAddDistinct(c, l, k, lr, level, area, v, b, fuel, l');
        forall w | SecLookup(l', w).Some?
          ensures SecLookup(h, w).None?
        {
          SecAddLookup(c, l, k, lr, level, area, v, b, fuel, l', w);
        }
        assert r == Split(l', h);
      } else {
        var h' := SecAdd(c, h, k, hr, level, area, v, b, fuel).value;
        SecAddDistinct(c, h, k, hr, level, area, v, b, fuel, h');
        forall w | SecLookup(l, w).Some?
          ensures SecLookup(h', w).None?
        {
          SecAddLookup(c, h, k, hr, level, area, v, b, fuel, h', w);
        }
        assert r == Split(l, h');
      }
    case Leaves(l, h) =>
      if b.hi[0] >= mid {
        var h' := NodeAdd(c, h, v, b, fuel).value;
        NodeAddDistinct(c, h, v, b, fuel, h');
        forall w | Lookup(l, w).Some?
          ensures Lookup(h', w).None?
        {
          NodeAddLookup(c, h, v, b, fuel, h', w);
        }
        assert r == Leaves(l, h');
      } else {
        var l' := NodeAdd(c, l, v, b, fuel).value;
        NodeAddDistinct(c, l, v, b, fuel, l');
        forall w | Lookup(l', w).Some?
          ensures Lookup(h, w).None?
        {
          NodeAddLookup(c, l, v, b, fuel, l', w);
        }
        assert r == Leaves(l', h);
      }
  }

  lemma {:induction false} AddAllDistinct<V(!new)>(c: Config, area: Box, level: nat, s: Sec<V>, m: map<V, Box>,
                                                   fuel: nat, r: Sec<V>)
    requires SecShape(c, s, c.dim, area, level)
    requires forall k | k in m :: Fits(area, m[k]) && CanFallDeeper(area, m[k])
    requires SecDistinct(s) && forall k | k in m :: SecLookup(s, k).None?
    requires AddAll(c, area, level, s, m, fuel) == Some(r)
    ensures SecDistinct(r)
    decreases fuel, 2, |m|
  {
    if |m| > 0 {
      var k := Maps.Pick(m);
      var rest := m - {k};
      Maps.RemoveSize(m, k);
      var s1 := SecAdd(c, s, c.dim, area, level, area, k, m[k], fuel).value;
      SecAddDistinct(c, s, c.dim, area, level, area, k, m[k], fuel, s1);
      AddAllFresh(c, area, level, s, m, fuel, k, s1);
      assert AddAll(c, area, level, s1, rest, fuel) == Some(r);
      AddAllDistinct(c, area, level, s1, rest, fuel, r);
    }
  }

  // ---------------------------------------------------------------------------
  // What insertion stores: counters and policy

  /** `Node::Add` of a value not yet stored counts it once and keeps the
      splitting policy. */
  lemma {:induction false} NodeAddSound<V(!new)>(c: Config, n: Node<V>, v: V, b: Box, fuel: nat, r: Node<V>)
    requires NodeShape(c, n) && Fits(n.area, b) && NodeSound(c, n) && Lookup(n, v).None?
    requires NodeAdd(c, n, v, b, fuel) == Some(r)
    ensures NodeSound(c, r) && Size(r) == Size(n) + 1
    decreases fuel, 0
  {
    if !CanFallDeeper(n.area, b) || (|n.bucket| < c.groupCount && n.sub.None?) {
      assert r == n.(bucket := n.bucket[v := b], count := n.count + 1);
      BucketSound(c, n, v, b);
    } else if n.sub.Some? {
      AddBelowSound(c, n, v, b, fuel - 1, r);
    } else {
      AddSplittingSound(c, n, v, b, fuel - 1, r);
    }
  }

  /** The first branch of `Node::Add`: the bucket takes the value. */
  lemma BucketSound<V(!new)>(c: Config, n: Node<V>, v: V, b: Box)
    requires NodeSound(c, n) && v !in n.bucket
    requires n.sub.Some? ==> !CanFallDeeper(n.area, b)
    ensures NodeSound(c, n.(bucket := n.bucket[v := b], count := n.count + 1))
    ensures Size(n.(bucket := n.bucket[v := b], count := n.count + 1)) == Size(n) + 1
  {
    Maps.InsertSize(n.bucket, v, b);
  }

  lemma {:induction false} AddBelowSound<V(!new)>(c: Config, n: Node<V>, v: V, b: Box, fuel: nat, r: Node<V>)
    requires NodeShape(c, n) && Fits(n.area, b) && CanFallDeeper(n.area, b) && n.sub.Some?
    requires n.count == Size(n) && n.count >= c.groupCount
    requires (forall k | k in n.bucket :: !CanFallDeeper(n.area, n.bucket[k])) && SecSound(c, n.sub.value)
    requires SecLookup(n.sub.value, v).None?
    requires AddBelow(c, n, v, b, fuel) == Some(r)
    ensures NodeSound(c, r) && Size(r) == Size(n) + 1
    decreases fuel, 3
  {
    var s := n.sub.value;
    var t := SecAdd(c, s, c.dim, n.area, n.level + 1, n.area, v, b, fuel).value;
    assert r == Node(n.area, n.level, n.bucket, n.count + 1, Some(t));
    SecAddSound(c, s, c.dim, n.area, n.level + 1, n.area, v, b, fuel, t);
  }

  lemma {:induction false} AddSplittingSound<V(!new)>(c: Config, n: Node<V>, v: V, b: Box, fuel: nat, r: Node<V>)
    requires NodeShape(c, n) && Fits(n.area, b) && CanFallDeeper(n.area, b) && n.sub.None?
    requires n.count == Size(n) && |n.bucket| >= c.groupCount && v !in n.bucket
    requires AddSplitting(c, n, v, b, fuel) == Some(r)
    ensures NodeSound(c, r) && Size(r) == Size(n) + 1
    decreases fuel, 4
  {
    var n1 := Subdivide(c, n, fuel).value;
    SubdivideSound(c, n, fuel, n1);
    SubdivideLookup(c, n, fuel, n1, v);
    AddBelowSound(c, n1, v, b, fuel, r);
  }

  lemma {:induction false} SubdivideSound<V(!new)>(c: Config, n: Node<V>, fuel: nat, r: Node<V>)
    requires NodeShape(c, n) && n.sub.None? && n.count == Size(n)
    requires Subdivide(c, n, fuel) == Some(r)
    ensures r.count == Size(r) && SecSound(c, r.sub.value)
    ensures forall k | k in r.bucket :: !CanFallDeeper(r.area, r.bucket[k])
    decreases fuel, 3
  {
    var fall := Falling(n.area, n.bucket);
    var s0 := NewSec<V>(c, n.area, c.dim, n.level + 1);
    NewSecSound<V>(c, n.area, c.dim, n.level + 1);
    NewSecFresh<V>(c, n.area, c.dim, n.level + 1, fall);
    var t := AddAll(c, n.area, n.level + 1, s0, fall, fuel).value;
    AddAllSound(c, n.area, n.level + 1, s0, fall, fuel, t);
    FallingStayingSplit(n.area, n.bucket);
    StayingCannotFall(n.area, n.bucket);
    assert r == Node(n.area, n.level, Staying(n.area, n.bucket), n.count, Some(t));
  }

  lemma {:induction false} SecAddSound<V(!new)>(c: Config, s: Sec<V>, x: nat, region: Box, level: nat,
                                                area: Box, v: V, b: Box, fuel: nat, r: Sec<V>)
    requires SecShape(c, s, x, region, level)
    requires SameDim(area, region) && AgreesBelow(region, area, x)
    requires Fits(region, b) && CanFallDeeper(area, b)
    requires SecSound(c, s) && SecLookup(s, v).None?
    requires SecAdd(c, s, x, region, level, area, v, b, fuel) == Some(r)
    ensures SecSound(c, r) && SecSize(r) == SecSize(s) + 1
    decreases fuel, 1, s
  {
    var k, mid := x - 1, CenterCoord(area, x - 1);
    Route(region, area, x, b);
    match s
    case Split(l, h) =>
      if b.lo[k] <= mid {
        var l' := SecAdd(c, l, k, LowHalf(region, k), level, area, v, b, fuel).value;
        assert r == Split(l', h);
        SecAddSound(c, l, k, LowHalf(region, k), level, area, v, b, fuel, l');
      } else {
        var h' := SecAdd(c, h, k, HighHalf(region, k), level, area, v, b, fuel).value;
        assert r == Split(l, h');
        SecAddSound(c, h, k, HighHalf(region, k), level, area, v, b, fuel, h');
      }
    case Leaves(l, h) =>
      if b.hi[0] >= mid {
        var h' := NodeAdd(c, h, v, b, fuel).value;
        assert r == Leaves(l, h');
        NodeAddSound(c, h, v, b, fuel, h');
      } else {
        var l' := NodeAdd(c, l, v, b, fuel).value;
        assert r == Leaves(l', h);
        NodeAddSound(c, l, v, b, fuel, l');
      }
  }

  lemma {:induction false} AddAllSound<V(!new)>(c: Config, area: Box, level: nat, s: Sec<V>, m: map<V, Box>,
                                                fuel: nat, r: Sec<V>)
    requires SecShape(c, s, c.dim, area, level)
    requires forall k | k in m :: Fits(area, m[k]) && CanFallDeeper(area, m[k])
    requires SecSound(c, s) && forall k | k in m :: SecLookup(s, k).None?
    requires AddAll(c, area, level, s, m, fuel) == Some(r)
    ensures SecSound(c, r) && SecSize(r) == SecSize(s) + |m|
    decreases fuel, 2, |m|
  {
    if |m| > 0 {
      var k := Maps.Pick(m);
      var rest := m - {k};
      Maps.RemoveSize(m, k);
      var s1 := SecAdd(c, s, c.dim, area, level, area, k, m[k], fuel).value;
      SecAddSound(c, s, c.dim, area, level, area, k, m[k], fuel, s1);
      AddAllFresh(c, area, level, s, m, fuel, k, s1);
      assert AddAll(c, area, level, s1, rest, fuel) == Some(r);
      AddAllSound(c, area, level, s1, rest, fuel, r);
    }
  }

  // ---------------------------------------------------------------------------
  // What insertion stores

  /** `Node::Add` of a value not yet stored keeps the node invariant and,
      when it completes, stores exactly one entry more: the new value with
      its box. */
  lemma NodeAddSpec<V(!new)>(c: Config, n: Node<V>, v: V, b: Box, fuel: nat, r: Node<V>)
    requires NodeInv(c, n) && Fits(n.area, b) && v !in Stored(n)
    requires NodeAdd(c, n, v, b, fuel) == Some(r)
    ensures NodeInv(c, r) && r.area == n.area && r.level == n.level
    ensures Stored(r) == Stored(n)[v := b]
    ensures Size(r) == Size(n) + 1
    ensures forall w :: Lookup(r, w) == if w == v then Some(b) else Lookup(n, w)
  {
    LookupStored(n, v);
    NodeAddDistinct(c, n, v, b, fuel, r);
    NodeAddSound(c, n, v, b, fuel, r);
    forall w
      ensures Lookup(r, w) == if w == v then Some(b) else Lookup(n, w)
    {
      NodeAddLookup(c, n, v, b, fuel, r, w);
    }
    StoredFromLookup(n, r, v, b);
  }

  // ---------------------------------------------------------------------------
  // Two worked insertions, in one dimension with `groupCount` 1

  /** Area [0, 8] at level 1, its bucket full with value 1 at [1, 2]. */
  function FullNode(): (n: Node<nat>)
    ensures NodeInv(Config(1, 1), n)
  {
    var n := Node(Box([0.0], [8.0]), 1, map[1 := Box([1.0], [2.0])], 1, None);
    assert Stored(n) == n.bucket;
    n
  }

  /** The same area subdivided: value 1 has moved down into the low leaf
      [0, 4]; the high leaf [4, 8] is empty. */
  function SplitNode(): (n: Node<nat>)
    ensures NodeShape(Config(1, 1), n)
  {
    FullNodeHalves();
    Node(Box([0.0], [8.0]), 1, map[], 1,
         Some(Leaves(Node(Box([0.0], [4.0]), 2, map[1 := Box([1.0], [2.0])], 1, None),
                     Node(Box([4.0], [8.0]), 2, map[], 0, None))))
  }

  /** The halves of [0, 8] on its only axis. */
  lemma FullNodeHalves()
    ensures CenterCoord(FullNode().area, 0) == 4.0
    ensures LowHalf(FullNode().area, 0) == Box([0.0], [4.0])
    ensures HighHalf(FullNode().area, 0) == Box([4.0], [8.0])
    ensures NewSec<nat>(Config(1, 1), FullNode().area, 1, 2) ==
      Leaves(NewNode(Box([0.0], [4.0]), 2), NewNode(Box([4.0], [8.0]), 2))
  {
  }

  /** Value 1 lies below the centre, so the subdivision takes it. */
  lemma FullNodeFalls()
    ensures Falling(FullNode().area, FullNode().bucket) == FullNode().bucket
    ensures Staying(FullNode().area, FullNode().bucket) == map[]
    ensures Maps.Pick(FullNode().bucket) == 1
  {
    var n := FullNode();
    assert InOrthantAxis(n.area, n.bucket[1], 0);
  }

  /** The empty low leaf takes value 1 into its bucket. */
  lemma LowLeafTakes(fuel: nat)
    ensures NodeAdd(Config(1, 1), NewNode<nat>(Box([0.0], [4.0]), 2), 1, Box([1.0], [2.0]), fuel)
      == Some(SplitNode().sub.value.lowNode)
  {
    assert ContainsStrict(Box([0.0], [4.0]), Box([1.0], [2.0]));
  }

  /** The new subdivision routes value 1 to its low leaf. */
  lemma MoveFirst(fuel: nat)
    ensures var area := FullNode().area;
      SecAdd(Config(1, 1), NewSec<nat>(Config(1, 1), area, 1, 2), 1, area, 2, area, 1, Box([1.0], [2.0]), fuel)
        == Some(SplitNode().sub.value)
  {
    var area := FullNode().area;
    FullNodeHalves();
    FullNodeFalls();
    LowLeafTakes(fuel);
  }

  /** Subdividing the full node moves value 1, which lies below the centre
      4, into the low leaf, with any fuel. */
  lemma SubdivideFullNode(fuel: nat)
    ensures Subdivide(Config(1, 1), FullNode(), fuel) == Some(SplitNode())
  {
    var c, n := Config(1, 1), FullNode();
    var s0 := NewSec<nat>(c, n.area, 1, 2);
    FullNodeFalls();
    MoveFirst(fuel);
    assert n.bucket - {1} == map[];
    assert AddAll(c, n.area, 2, s0, n.bucket, fuel) == Some(SplitNode().sub.value);
  }

  /** The high leaf [4, 8] takes value 2 with box [5, 6] into its bucket. */
  lemma HighLeafTakes(fuel: nat)
    ensures NodeAdd(Config(1, 1), SplitNode().sub.value.highNode, 2, Box([5.0], [6.0]), fuel)
      == Some(Node(Box([4.0], [8.0]), 2, map[2 := Box([5.0], [6.0])], 1, None))
  {
    assert ContainsStrict(Box([4.0], [8.0]), Box([5.0], [6.0]));
  }

  /** The subdivision routes box [5, 6], which lies above the centre, to its
      high leaf. */
  lemma RouteHigh()
    ensures var n1 := SplitNode();
      SecAdd(Config(1, 1), n1.sub.value, 1, n1.area, 2, n1.area, 2, Box([5.0], [6.0]), 1)
        == Some(Leaves(n1.sub.value.lowNode, Node(Box([4.0], [8.0]), 2, map[2 := Box([5.0], [6.0])], 1, None)))
  {
    FullNodeHalves();
    assert InOrthantAxis(SplitNode().area, Box([5.0], [6.0]), 0);
    HighLeafTakes(1);
  }

  /** Adding value 2 with box [5, 6] to the full node subdivides it and
      completes with fuel 2: value 1 ends in the low leaf, value 2 in the
      high leaf, and the root's bucket is empty. */
  lemma SubdivisionCompletes()
    ensures var r := NodeAdd(Config(1, 1), FullNode(), 2, Box([5.0], [6.0]), 2);
      && r.Some? && NodeInv(Config(1, 1), r.value)
      && r.value.bucket == map[] && r.value.sub.Some? && r.value.count == 2
      && Lookup(r.value, 1) == Some(Box([1.0], [2.0]))
      && Lookup(r.value, 2) == Some(Box([5.0], [6.0]))
  {
    var c, n, b := Config(1, 1), FullNode(), Box([5.0], [6.0]);
    SubdivisionResult();
    var r := NodeAdd(c, n, 2, b, 2).value;
    assert Lookup(n, 1) == Some(Box([1.0], [2.0])) && Lookup(n, 2).None?;
    NodeAddSpec(c, n, 2, b, 2, r);
  }

  /** The node that adding value 2 with box [5, 6] to the full node yields. */
  lemma SubdivisionResult()
    ensures Fits(FullNode().area, Box([5.0], [6.0]))
    ensures var n1 := SplitNode();
      NodeAdd(Config(1, 1), FullNode(), 2, Box([5.0], [6.0]), 2) ==
        Some(n1.(count := 2, sub := Some(Leaves(n1.sub.value.lowNode,
                                                 Node(Box([4.0], [8.0]), 2, map[2 := Box([5.0], [6.0])], 1, None)))))
  {
    assert InOrthantAxis(FullNode().area, Box([5.0], [6.0]), 0);
    AddsThroughSplit(Box([5.0], [6.0]));
    RouteHigh();
  }

  /** The path of both examples: value 2 goes past the full bucket into the
      new subdivision, and there into the high leaf when its box reaches the
      centre, into the low leaf when it reaches below the centre, and nowhere
      otherwise. */
  lemma AddsThroughSplit(b: Box)
    requires Admits(FullNode().area, b) && CanFallDeeper(FullNode().area, b)
    ensures var c, n1 := Config(1, 1), SplitNode();
      NodeAdd(c, FullNode(), 2, b, 2) ==
        match SecAdd(c, n1.sub.value, 1, n1.area, 2, n1.area, 2, b, 1)
        case None => None
        case Some(s) => Some(n1.(count := 2, sub := Some(s)))
  {
    SubdivideFullNode(1);
  }

  /** `Intersection` of the apart boxes [1, 3] and [5, 7] is the inverted
      box [5, 3], which [0, 8] admits and which can fall deeper. */
  lemma InvertedBox()
    ensures var b := Intersection(Box([1.0], [3.0]), Box([5.0], [7.0]));
      && b == Box([5.0], [3.0]) && !b.Valid()
      && Admits(FullNode().area, b) && CanFallDeeper(FullNode().area, b)
  {
    var b := Intersection(Box([1.0], [3.0]), Box([5.0], [7.0]));
    assert MaxLo(Box([1.0], [3.0]), Box([5.0], [7.0])) == [5.0];
    assert MinHi(Box([1.0], [3.0]), Box([5.0], [7.0])) == [3.0];
    assert InOrthantAxis(FullNode().area, b, 0);
  }

  /** Neither test of `BiSection::Add` passes for [5, 3]: its high corner
      lies below the centre 4 and its low corner above it. */
  lemma InvertedBoxSkipped()
    ensures var n1 := SplitNode();
      SecAdd(Config(1, 1), n1.sub.value, 1, n1.area, 2, n1.area, 2, Box([5.0], [3.0]), 1) == Some(n1.sub.value)
  {
    FullNodeHalves();
    assert InOrthantAxis(SplitNode().area, Box([5.0], [3.0]), 0);
  }

  /** A box whose low corner lies above its high corner, as `Intersection`
      builds for the apart boxes [1, 3] and [5, 7], is admitted by the node
      and can fall deeper; after the subdivision neither test of
      `BiSection::Add` passes, so the value is stored nowhere while the
      node's count goes up. */
  lemma InvertedBoxLost()
    ensures var b := Intersection(Box([1.0], [3.0]), Box([5.0], [7.0]));
      && b == Box([5.0], [3.0]) && !b.Valid()
      && Admits(FullNode().area, b) && CanFallDeeper(FullNode().area, b)
      && var r := NodeAdd(Config(1, 1), FullNode(), 2, b, 2);
         && r == Some(SplitNode().(count := 2))
         && Lookup(r.value, 2).None? && Size(r.value) < r.value.count
  {
    InvertedBox();
    AddsThroughSplit(Box([5.0], [3.0]));
    InvertedBoxSkipped();
    assert Size(SplitNode().(count := 2)) == 1;
  }
}
