/** `Tree`: the public interface. A tree is a root node at level 1 over a
    fixed area, and a registry (`m_all_values`) that maps every value added
    to the box it was added with. The registry answers `Contains`, `GetBox`
    and `GetAllValues` and supplies the box `Del` needs to find a value.

    `TreeInv` says that the root meets the node invariant and that the
    registry is exactly the value-to-box map stored under the root; every
    operation below keeps it, and every query is stated against the
    registry. */
module Trees {
  import opened Wrappers
  import opened Boxes
  import opened Nodes
  import opened NodeInsert
  import opened NodeRemove
  import opened NodeQuery
  import Maps

  /** The configuration (dimension, `GROUP_COUNT`), the root node and the
      registry. */
  datatype Tree<V> = Tree(c: Config, root: Node<V>, registry: map<V, Box>)

  /** The tree invariant: a well-formed root at level 1 whose stored values
      are exactly the registry. */
  ghost predicate TreeInv<V(!new)>(t: Tree<V>) {
    NodeInv(t.c, t.root) && t.root.level == 1 && Stored(t.root) == t.registry
  }

  /** Under the invariant, what the root finds for `w` is what the registry
      says. */
  lemma RegistryLookup<V(!new)>(t: Tree<V>, w: V)
    ensures TreeInv(t) ==> Lookup(t.root, w) == if w in t.registry then Some(t.registry[w]) else None
  {
    if TreeInv(t) {
      LookupStored(t.root, w);
    }
  }

  /** Under the invariant, gathering the root collects the registry. */
  lemma RegistryGathered<V(!new)>(t: Tree<V>)
    ensures TreeInv(t) ==> Gather(t.root, map[]) == t.registry
  {
    if TreeInv(t) {
      GatherIsStored(t.root);
    }
  }

  /** The constructor: an empty root at level 1 over `area`. */
  function NewTree<V(!new)>(c: Config, area: Box): (t: Tree<V>)
    requires c.Valid() && area.Valid() && |area.lo| == c.dim
    ensures TreeInv(t) && t.registry == map[] && t.root.area == area
    ensures forall w :: Lookup(t.root, w).None?
  {
    Tree(c, NewNode(area, 1), map[])
  }

  /** `area()`: the area of the root; under the invariant a valid box of the
      tree's dimension. */
  function Area<V(!new)>(t: Tree<V>): (a: Box)
    ensures TreeInv(t) ==> a.Valid() && |a.lo| == |a.hi| == t.c.dim
  {
    t.root.area
  }

  /** `Contains`: the registry holds the value; under the invariant, exactly
      when the value is stored under the root. */
  function Contains<V(!new)>(t: Tree<V>, v: V): (r: bool)
    ensures TreeInv(t) ==> (r <==> Lookup(t.root, v).Some?)
  {
    RegistryLookup(t, v);
    v in t.registry
  }

  /** `GetBox`: the registered box of a value that the tree contains; under
      the invariant, the box stored for it under the root. */
  function GetBox<V(!new)>(t: Tree<V>, v: V): (b: Box)
    requires v in t.registry
    ensures TreeInv(t) ==> Lookup(t.root, v) == Some(b)
  {
    RegistryLookup(t, v);
    t.registry[v]
  }

  /** `GetAllValues`: the registry; under the invariant, every value stored
      under the root with its box, which is also what gathering the root
      collects. */
  function GetAllValues<V(!new)>(t: Tree<V>): (m: map<V, Box>)
    ensures TreeInv(t) ==> m == Stored(t.root) && m == Gather(t.root, map[])
  {
    RegistryGathered(t);
    t.registry
  }

  // ---------------------------------------------------------------------------
  // Add, Del, Change

  /** `Tree::Add` as the root node requires it: the box lies strictly inside
      the area, and the value is new. */
  predicate AddGuard<V>(t: Tree<V>, v: V, b: Box)
    requires t.root.area.Shaped()
  {
    Fits(t.root.area, b) && v !in t.registry
  }

  /** `Tree::Add`: the root adds the value, then the registry records it. The
      result is `None` only when `fuel` runs out before the insertion ends. */
  ghost function Add<V(!new)>(t: Tree<V>, v: V, b: Box, fuel: nat): (r: Option<Tree<V>>)
    requires TreeInv(t) && AddGuard(t, v, b)
    ensures r.Some? ==> TreeInv(r.value) && Area(r.value) == Area(t)
    ensures r.Some? ==> Stored(r.value.root) == Stored(t.root)[v := b]
    ensures r.Some? ==> Contains(r.value, v) && GetBox(r.value, v) == b
  {
    match NodeAdd(t.c, t.root, v, b, fuel)
    case None => None
    case Some(root) =>
      NodeAddSpec(t.c, t.root, v, b, fuel, root);
      Some(Tree(t.c, root, t.registry[v := b]))
  }

  /** A box that cannot fall into an orthant of the area, or that arrives
      while the root's bucket has room and there is no subdivision, is added
      whatever the fuel. */
  lemma AddStays<V(!new)>(t: Tree<V>, v: V, b: Box, fuel: nat)
    requires TreeInv(t) && AddGuard(t, v, b)
    requires !CanFallDeeper(t.root.area, b) || (|t.root.bucket| < t.c.groupCount && t.root.sub.None?)
    ensures Add(t, v, b, fuel).Some?
    ensures Add(t, v, b, fuel).value.root.bucket == t.root.bucket[v := b]
  {
    assert v !in t.root.bucket by { RegistryLookup(t, v); }
  }

  /** `Tree::Del`: the root removes the value with its registered box, then
      the registry forgets it. Every other value keeps its box. */
  function Del<V(!new)>(t: Tree<V>, v: V): (r: Tree<V>)
    requires TreeInv(t) && v in t.registry
    ensures TreeInv(r) && Area(r) == Area(t) && !Contains(r, v)
    ensures forall w | w != v :: Lookup(r.root, w) == Lookup(t.root, w)
    ensures Stored(r.root) == Stored(t.root) - {v}
  {
    var b := t.registry[v];
    NodeDelSpec(t.c, t.root, v, b);
    Tree(t.c, NodeDel(t.c, t.root, v, b), t.registry - {v})
  }

  /** `Tree::Change`: `Del` followed by `Add`. The value ends with the new
      box and every other value keeps its own. */
  ghost function Change<V(!new)>(t: Tree<V>, v: V, b: Box, fuel: nat): (r: Option<Tree<V>>)
    requires TreeInv(t) && v in t.registry && Fits(t.root.area, b)
    ensures r.Some? ==> TreeInv(r.value) && Area(r.value) == Area(t)
    ensures r.Some? ==> Stored(r.value.root) == Stored(t.root)[v := b]
    ensures r.Some? ==> GetBox(r.value, v) == b
  {
    var t1 := Del(t, v);
    Maps.RemoveThenSet(Stored(t.root), v, b);
    Add(t1, v, b, fuel)
  }

  // ---------------------------------------------------------------------------
  // Queries

  /** `FindIntersected(box)`: the values whose registered boxes meet `q`. */
  function FindInTree<V(!new)>(t: Tree<V>, q: Box): (r: set<V>)
    requires TreeInv(t) && SameDim(q, t.root.area)
    ensures forall w :: w in r <==> w in t.registry && Overlap(Some(q), Some(t.registry[w]))
  {
    assert forall w :: w in FindInBox(t.c, t.root, q) <==> w in t.registry && Overlap(Some(q), Some(t.registry[w])) by {
      forall w
        ensures w in FindInBox(t.c, t.root, q) <==> w in t.registry && Overlap(Some(q), Some(t.registry[w]))
      {
        RegistryLookup(t, w);
      }
    }
    FindInBox(t.c, t.root, q)
  }

  /** `FindIntersected(val)`: the other values whose boxes meet the value's
      box. The source asserts that the value finds itself; it does, because
      its box is valid and every valid box meets itself. */
  function FindNeighbours<V(!new)>(t: Tree<V>, v: V): (r: set<V>)
    requires TreeInv(t) && v in t.registry
    ensures forall w :: w in r <==> w != v && w in t.registry && Overlap(Some(t.registry[v]), Some(t.registry[w]))
  {
    var b := t.registry[v];
    RegistryLookup(t, v);
    LookupInside(t.c, t.root, v);
    IntersectSymmetricReflexive(b, b);
    var found := FindInTree(t, b);
    assert v in found;
    found - {v}
  }

  /** `FindIntersected()`: the pairs the root reports. Each pair holds two
      distinct registered values whose boxes meet. */
  ghost function FindAllPairs<V(!new)>(t: Tree<V>): (r: multiset<(V, V)>)
    requires TreeInv(t)
    ensures forall p | p in r ::
      p.0 != p.1 && p.0 in t.registry && p.1 in t.registry && Overlap(Some(t.registry[p.0]), Some(t.registry[p.1]))
  {
    var r := NodePairs(t.c, t.root);
    forall p | p in r
      ensures p.0 != p.1 && p.0 in t.registry && p.1 in t.registry && Overlap(Some(t.registry[p.0]), Some(t.registry[p.1]))
    {
      NodePairsCount(t.c, t.root, p.0, p.1);
      RegistryLookup(t, p.0);
      RegistryLookup(t, p.1);
      assert Both(r, p.0, p.1) > 0;
    }
    r
  }

  /** `FindIntersected()` reports every two distinct registered values whose
      boxes meet exactly once, in one orientation or the other, and no other
      pair. */
  lemma FindAllPairsCount<V(!new)>(t: Tree<V>, a: V, b: V)
    requires TreeInv(t)
    ensures Both(FindAllPairs(t), a, b) ==
      if a != b && a in t.registry && b in t.registry && Overlap(Some(t.registry[a]), Some(t.registry[b])) then 1 else 0
  {
    NodePairsCount(t.c, t.root, a, b);
    RegistryLookup(t, a);
    RegistryLookup(t, b);
  }

  // ---------------------------------------------------------------------------
  // Clear

  /** `Tree::Clear` as written: `Node::Clear` empties the root's bucket and
      drops its subdivision, but neither the root's count nor the registry
      is reset. */
  function ClearAsWritten<V(!new)>(t: Tree<V>): (r: Tree<V>)
    ensures forall w :: Lookup(r.root, w).None?
    ensures Area(r) == Area(t) && r.registry == t.registry && r.root.count == t.root.count
  {
    t.(root := t.root.(bucket := map[], sub := None))
  }

  /** On a tree holding a value, `ClearAsWritten` leaves the value in the
      registry (`Contains` still holds, so adding it again would trip the
      "already have value" assertion) while the root finds nothing, and
      leaves a count that no longer matches the subtree: the result breaks
      the tree invariant. */
  lemma ClearAsWrittenKeepsValues<V(!new)>(t: Tree<V>, v: V)
    requires TreeInv(t) && v in t.registry
    ensures Contains(ClearAsWritten(t), v)
    ensures Lookup(ClearAsWritten(t).root, v).None?
    ensures ClearAsWritten(t).root.count > Size(ClearAsWritten(t).root)
    ensures !TreeInv(ClearAsWritten(t))
  {
    var n := t.root;
    RegistryLookup(t, v);
    LookupCounted(n, v);
    var cl := ClearAsWritten(t);
    assert Size(cl.root) == 0;
    assert Stored(cl.root) == map[];
  }

  /** `Tree::Clear` as its documentation promises: no values and a root
      without subdivision over the same area. */
  function Clear<V(!new)>(t: Tree<V>): (r: Tree<V>)
    requires TreeInv(t)
    ensures TreeInv(r) && Area(r) == Area(t) && r.c == t.c
    ensures forall w :: !Contains(r, w) && Lookup(r.root, w).None?
    ensures r.root.sub.None? && r.root.bucket == map[]
  {
    NewTree(t.c, t.root.area)
  }

  // ---------------------------------------------------------------------------
  // The guard of Add

  /** The assertions of `Tree::Add` as written: the box lies within the area
      (faces may touch) and the value is new. */
  predicate AddGuardAsWritten<V>(t: Tree<V>, v: V, b: Box)
    requires t.root.area.Shaped()
  {
    SameDim(t.root.area, b) && Boxes.Contains(t.root.area, b) && v !in t.registry
  }

  /** The area itself passes the assertions of `Tree::Add`, yet the root's
      `Node::Add` asserts strict containment, which it fails: the tree's guard
      lets through boxes the root then rejects. */
  lemma AddGuardAsWrittenTooWeak<V>(t: Tree<V>, v: V)
    requires t.c.Valid() && t.root.area.Valid() && |t.root.area.lo| == t.c.dim
    requires v !in t.registry
    ensures AddGuardAsWritten(t, v, t.root.area)
    ensures !AddGuard(t, v, t.root.area)
  {
    var a := t.root.area;
    ContainsPreorder(a, a, a);
    ContainsStrictProperties(a, a, a);
  }

  /** The guard the root needs implies the assertions `Tree::Add` makes. */
  lemma AddGuardImpliesAsWritten<V>(t: Tree<V>, v: V, b: Box)
    requires t.root.area.Shaped() && AddGuard(t, v, b)
    ensures AddGuardAsWritten(t, v, b)
  {
    ContainsStrictProperties(t.root.area, b, b);
  }
}
