# orthtree in Dafny

A model of `orthtree`, a header-only C++ spatial index. An orthtree is the
`DIM`-dimensional generalisation of a quadtree or octree. A `Tree` covers a fixed
axis-aligned area. It stores values, each with an axis-aligned bounding box. It
answers three queries: which values meet a box, which values meet a stored value,
and which pairs of stored values meet each other.

The model covers the geometry (`Vector`, `Point`, `Box`). It covers the node
structure: `Node` and the recursive `BiSection` that splits a node's area into
`2^DIM` orthants. It covers the public `Tree` on top of them. It also covers the
brute-force oracle the test suite compares the tree against. It proves that the
tree's answers are the oracle's answers.

## How the model is built

- **Numbers.** The coordinate type (`float` or `double` in the source) is Dafny's
  `real`. Points and vectors are `seq<real>` of length `DIM`, and a box is a
  pair of corners `lo`/`hi`. The template arguments `DIM` and `GROUP_COUNT` form
  `Nodes.Config`. The source demands both be positive; `Config.Valid` states that.
- **Assertions.** `common.h` always defines `ORTHTREE_DEBUG_CHECKS`. Every
  `ORTHTREE_DEBUG_ASSERT` of the source is therefore a precondition of the model.
  For example, `Node::Add` asserts `ContainStrict` of the box. The model's
  `Nodes.Admits` is that condition, and it is all that `NodeInsert.NodeAdd` and
  `NodeInsert.SecAdd` require. No assertion asks a box to be valid (`lo <= hi`
  on every axis). `Nodes.Fits` is `Admits` plus validity: every box a
  well-formed node stores satisfies it, and `Trees.Add` requires it (see
  Findings).
- **Mode.** Only the default mode `NODES_SHARE_VAL == false` is modelled. In
  that mode each value is stored in exactly one node.
- **Nodes.** `Nodes.Node` holds `m_area`, `m_level`, `m_bucket`,
  `m_values_count` and the optional subdivision. `Nodes.Sec` is `BiSection`:
  - `Split` is the general template for `X > 1`;
  - `Leaves` is the specialisation for `X == 1`, which holds two child nodes.
- **Invariant.** Three invariants hold for every tree the operations build, and
  `Nodes.NodeInv` joins them:
  - `NodeShape`: a subdivision halves its node's area on each axis in turn, so
    its leaves are the `2^DIM` orthants of that area (`Nodes.SubdivisionLeaves`),
    and each stored box is valid and strictly inside its node's area;
  - `NodeDistinct`: no value is stored twice;
  - `NodeSound`: `m_values_count` is the subtree size, and a node with a
    subdivision keeps in its bucket only the boxes that cannot fall deeper.
- **Tree.** `Trees.Tree` adds the registry `m_all_values`. `Trees.TreeInv` says
  the registry is exactly what is stored under the root.
- **Order.** Iteration over an `unordered_map` has no specified order. The model
  leaves it open: the next entry is `Maps.Pick` or `Maps.Choose`, an arbitrary
  element. `FindIntersected()` returns a `std::vector` of pairs; it is modelled as
  the multiset of those pairs. Every property is stated for any iteration order.
- **Fuel.** Insertion may subdivide a node and then re-insert its bucket. Over
  exact coordinates it need not terminate. Take more than `GROUP_COUNT`
  identical point boxes at a point that no midpoint ever reaches, such as 1/3 in
  the area [0, 1]. Each time, they all fall into the same smaller orthant, which
  then overflows again. The source stops only because floating-point midpoints
  eventually round onto the point. So `NodeInsert.NodeAdd` and `Trees.Add` take
  a `fuel` argument and return `None` when it runs out. Every property of an
  insertion is stated for the case where it completes.
  `NodeInsert.SubdivisionCompletes` and `Trees.AddStays` show insertions that
  do complete.

## Model

| member | source | states |
|---|---|---|
| Vectors.Zero | src/orthtree/vector.h:31 | the default vector has every coordinate zero and is the identity of `+` |
| Vectors.AddAssign | src/orthtree/vector.h:151-171 | `+=` adds the right-hand vector coordinate by coordinate, so `+`, which copies the receiver and calls `+=`, is `Vectors.Add` |
| Vectors.SubAssign | src/orthtree/vector.h:179-199 | `-=` subtracts the right-hand vector coordinate by coordinate, so `-`, which copies and calls `-=`, is `Vectors.Sub` |
| Vectors.ScaleAssign | src/orthtree/vector.h:123-143 | `*=` multiplies every coordinate by the coefficient, so `*`, which copies and calls `*=`, is `Vectors.Scale` |
| Vectors.AddCommutesWithZeroIdentity | src/orthtree/vector.h:166-171 | vector addition commutes, and the default (all-zero) vector is its identity |
| Vectors.SubUndoesAdd | src/orthtree/vector.h:166-199 | subtracting a vector undoes adding it, and adding it back undoes subtracting it |
| Vectors.Equal | src/orthtree/vector.h:207 | `==` holds exactly when every coordinate agrees |
| Vectors.NotEqual | src/orthtree/vector.h:215 | `!=` holds exactly when some coordinate differs |
| Vectors.DotLoop | src/orthtree/vector.h:223-231 | the accumulating loop of `Dot` computes the sum of coordinate products |
| Vectors.DotSymmetric | src/orthtree/vector.h:223-231 | the dot product does not depend on the order of its operands |
| Vectors.DotScale | src/orthtree/vector.h:223-231 | scaling one operand scales the dot product by the same coefficient |
| Vectors.DotZero | src/orthtree/vector.h:223-238 | the dot product with the zero vector, and the squared length of the zero vector, are zero |
| Vectors.DotSelfNonNegative | src/orthtree/vector.h:223-231 | the dot product of a vector with itself is a sum of squares and never negative |
| Vectors.Length2 | src/orthtree/vector.h:238 | the squared length is never negative |
| Points.Origin | src/orthtree/point.h:21 | the default point has every coordinate zero |
| Points.RetreatUndoesTranslate | src/orthtree/point.h:54-80 | moving a point back by a vector undoes moving it forward by it, and the reverse |
| Points.DiffLeadsThere | src/orthtree/point.h:82-88 | the difference `p - q` is the vector that moves `q` onto `p`; a point minus itself is the zero vector |
| Points.DiffAntisymmetric | src/orthtree/point.h:82-88 | `q - p` is the negation of `p - q` |
| Points.MidBetween | src/orthtree/point.h:90-102 | `Mid` is symmetric; each of its coordinates is the one-axis `Mid`; it lies between the two points; the midpoint of a point with itself is the point |
| Points.MidToMeets | src/orthtree/point.h:104-109 | `MidTo` changes only axis `x`, where both directions meet at the common midpoint, which lies between the two coordinates |
| Boxes.FromCorners | src/orthtree/box.h:24-30 | the two-point constructor yields a valid box of the same dimension that holds both points |
| Boxes.FromCornersTightest | src/orthtree/box.h:24-30 | the order of the corners does not matter; every box holding both points contains the constructed box; ordered corners are kept as given |
| Boxes.FromPoint | src/orthtree/box.h:32-42 | the one-point constructor yields a valid box whose only point is that point |
| Boxes.Center | src/orthtree/box.h:45 | `PntMid` of a valid box lies inside the box |
| Boxes.CenterCoord | src/orthtree/box.h:46 | `PntMid(x)` lies between the box's bounds on axis `x`, strictly when the box has extent there |
| Boxes.CenterCoordIsCenter | src/orthtree/box.h:45-46 | the one-axis `PntMid(x)` is coordinate `x` of `PntMid()` |
| Boxes.IntersectLoop | src/orthtree/box.h:68-76 | the early-return loop of `Intersect` answers whether the boxes overlap on every axis |
| Boxes.IntersectIffCommonPoint | src/orthtree/box.h:68-76 | two valid boxes intersect exactly when some point lies in both; touching faces count |
| Boxes.IntersectSymmetricReflexive | src/orthtree/box.h:68-76 | `Intersect` is symmetric, and every valid box intersects itself |
| Boxes.Intersection | src/orthtree/box.h:51-66 | `Intersection` yields a box of the same dimension that both boxes contain |
| Boxes.IntersectionOfIntersecting | src/orthtree/box.h:51-66 | for intersecting valid boxes, the intersection is valid and holds exactly the points common to both |
| Boxes.IntersectionOfDisjointIsInvalid | src/orthtree/box.h:51-66 | for two disjoint boxes, `Intersection` as written returns an inverted (invalid) box rather than signalling emptiness |
| Boxes.IntersectionValidIff | src/orthtree/box.h:51-76 | for any two valid boxes, `Intersection` is a valid box exactly when `Intersect` holds; apart boxes always give an inverted box |
| Boxes.CheckedIntersection | src/orthtree/box.h:51-66 | the intersection exists exactly when the boxes intersect; it is then valid, contained in both, and holds exactly their common points |
| Boxes.ContainLoop | src/orthtree/box.h:78-86 | the loop of `Contain` answers whether the other box lies within this one on every axis, faces allowed to touch |
| Boxes.ContainsIffPointsInside | src/orthtree/box.h:78-86 | for a valid box, `Contain` holds exactly when every point of it lies in the container |
| Boxes.ContainsPreorder | src/orthtree/box.h:78-86 | `Contain` is reflexive and transitive |
| Boxes.ContainStrictLoop | src/orthtree/box.h:88-96 | the loop of `ContainStrict` answers whether the other box lies strictly inside on every axis |
| Boxes.ContainsStrictIffPointsInterior | src/orthtree/box.h:88-96 | for a valid box, `ContainStrict` holds exactly when every point of it lies in the container's interior |
| Boxes.ContainsStrictProperties | src/orthtree/box.h:78-96 | strict containment implies containment, excludes equality, and chains with containment on either side |
| Boxes.ContainOrthantLoop | src/orthtree/box.h:105-116 | the loop of `ContainOrthant` computes the per-axis conditions joined by `and`, as written |
| Boxes.ContainOrthantAsWrittenIsContains | src/orthtree/box.h:105-116 | for a valid box, `ContainOrthant` as written is exactly `Contain`, not containment of an orthant |
| Boxes.ContainOrthantAsWrittenMissesOrthant | src/orthtree/box.h:99-116 | a box equal to an orthant of another box fails `ContainOrthant` as written |
| Boxes.ContainOrthantFixedLoop | src/orthtree/box.h:105-116 | the loop with `or` between the two per-axis conditions computes the corrected predicate |
| Boxes.ContainOrthantIffSomeOrthant | src/orthtree/box.h:99-104 | the corrected `ContainOrthant` holds exactly when the box contains one of the other box's `2^DIM` orthants |
| Boxes.ContainInOrthantLoop | src/orthtree/box.h:125-138 | the loop of `ContainInOrthant`, with its three early returns, computes the per-axis test on every axis |
| Boxes.ContainInOrthantMeaning | src/orthtree/box.h:118-138 | `ContainInOrthant` holds exactly when the other box is strictly inside and, on every axis, wholly on one side of the centre plane; it then lies in the orthant those sides select |
| Nodes.HalvesInside | src/orthtree/node.h:64-67 | the two halves a `BiSection` builds from its area are valid boxes inside that area |
| Nodes.HalvesCover | src/orthtree/node.h:64-67 | every point of the area lies in one of the two halves, and in both only on the centre plane |
| Nodes.HalvesSides | src/orthtree/node.h:64-67 | a box strictly inside the lower half lies below the centre plane; one strictly inside the upper half lies above it |
| Nodes.HalvesKeepOtherAxes | src/orthtree/node.h:64-67 | halving on one axis leaves every other axis of the area unchanged |
| Nodes.HalvesSeparate | src/orthtree/node.h:64-67 | a box in the lower half and a box in the upper half never intersect, which is why a pair is never split across two children |
| Nodes.NewNode | src/orthtree/node.h:315 | a new node has its area and level, stores nothing, counts zero and has no subdivision |
| Nodes.NewSec | src/orthtree/node.h:64-67 | a new subdivision has the bisection shape over the area: it halves the area on each axis in turn, down to leaf nodes at the given level |
| Nodes.LeafArea | src/orthtree/node.h:64-67 | the leaf a section reaches by choosing a half on each of its axes covers the region halved on those axes on the chosen sides, and the whole region on the others |
| Nodes.SubdivisionLeaves | src/orthtree/node.h:193-196 | in a well-formed node, the leaf of the subdivision that `high` selects covers exactly the orthant `high` selects, one level below the node |
| Nodes.NewSecLeaves | src/orthtree/node.h:193-196 | each leaf of a new subdivision is an empty node over one orthant of the area, at the given level |
| Nodes.NewSecLeafEmpty | src/orthtree/node.h:193-196 | every leaf of a new subdivision stores nothing and has no subdivision of its own |
| Nodes.FallDeeperAdmitted | src/orthtree/node.h:571-574 | a box that `CanFallDeeper` accepts, valid or not, is strictly inside the area, so `Node::Add` admits it |
| Nodes.NewSecLookup | src/orthtree/node.h:193-196 | a new subdivision stores nothing |
| Nodes.NewSecSound | src/orthtree/node.h:193-196 | a new subdivision meets the counting invariant and holds zero values |
| Nodes.LookupInside | src/orthtree/node.h:347 | every box stored anywhere under a node fits strictly inside that node's area |
| Nodes.LookupStored | src/orthtree/node.h:580-586 | when no value is stored twice, finding a value under a node agrees with the map of all values stored there |
| Nodes.SizeIsStored | src/orthtree/node.h:582-583 | the number of bucket entries in a subtree is the number of distinct values stored there |
| NodeInsert.Route | src/orthtree/node.h:79-86 | for a box that can fall deeper, at most one of `BiSection::Add`'s two tests passes, exactly one when the box is valid, and the half it selects admits the box |
| NodeInsert.FallingStayingSplit | src/orthtree/node.h:363-377 | when a node first subdivides, its bucket splits into the entries that move down and those that stay, with nothing lost or duplicated |
| NodeInsert.StayingCannotFall | src/orthtree/node.h:363-377 | every entry kept in the bucket after subdivision cannot fall deeper |
| NodeInsert.NodeAdd | src/orthtree/node.h:338-383 | `Node::Add` accepts any box strictly inside the area, valid or not; it keeps the area and level, and the node's shape when the box is valid |
| NodeInsert.Subdivide | src/orthtree/node.h:359-378 | creating the subdivision keeps the node's shape, area, level and count, and leaves a subdivision in place |
| NodeInsert.SecAdd | src/orthtree/node.h:205-212 | `BiSection::Add` passes the box to a half whose test it passes, or stores it nowhere when neither passes; it keeps the section's bisection shape when the box is valid |
| NodeInsert.AddAll | src/orthtree/node.h:364-370 | moving the falling bucket entries into the new subdivision keeps its shape |
| NodeInsert.BucketLookup | src/orthtree/node.h:351-355 | the bucket branch of `Node::Add` stores the new value with its box and changes no other lookup |
| NodeInsert.NodeAddLookup | src/orthtree/node.h:338-383 | after `Node::Add`, the value is found with its box and every other value is found as before |
| NodeInsert.SecAddLookup | src/orthtree/node.h:79-86 | after `BiSection::Add`, the value is found with its box and every other value is found as before |
| NodeInsert.AddAllLookup | src/orthtree/node.h:363-377 | after redistribution, every moved entry is found in the subdivision with its box and nothing else changes |
| NodeInsert.NodeAddDistinct | src/orthtree/node.h:338-383 | adding a new value stores no value twice |
| NodeInsert.BucketSound | src/orthtree/node.h:351-355 | storing a value in the bucket keeps the counting invariant and grows the subtree by one |
| NodeInsert.NodeAddSound | src/orthtree/node.h:351-382 | `Node::Add` keeps `m_values_count` equal to the subtree size, now one larger, and keeps falling boxes out of subdivided buckets |
| NodeInsert.NodeAddSpec | src/orthtree/node.h:338-383 | `Node::Add` of a new value keeps the node invariant, area and level; the stored map gains exactly that value with its box, and the size grows by one |
| NodeInsert.FullNode | tests/unittests/cases/tree.cpp:348-351 | the one-axis node over [0, 8] with `GROUP_COUNT` 1 holding value 1 at [1, 2] meets the node invariant |
| NodeInsert.FullNodeHalves | src/orthtree/node.h:193-196 | the subdivision of [0, 8] has the leaves [0, 4] and [4, 8] |
| NodeInsert.FullNodeFalls | src/orthtree/node.h:363-377 | value 1 at [1, 2] lies below the centre 4, so subdividing moves it and keeps nothing in the bucket |
| NodeInsert.LowLeafTakes | src/orthtree/node.h:351-355 | the empty low leaf stores value 1 in its bucket |
| NodeInsert.MoveFirst | src/orthtree/node.h:364-370 | the new subdivision routes value 1 to its low leaf |
| NodeInsert.SubdivideFullNode | src/orthtree/node.h:359-378 | subdividing the full node yields the root with an empty bucket over leaves holding value 1 low and nothing high |
| NodeInsert.HighLeafTakes | src/orthtree/node.h:351-355 | the high leaf [4, 8] stores value 2 at [5, 6] in its bucket |
| NodeInsert.RouteHigh | src/orthtree/node.h:205-212 | the subdivision routes [5, 6], which lies above the centre, to its high leaf |
| NodeInsert.AddsThroughSplit | src/orthtree/node.h:356-381 | a second value that can fall deeper passes the full bucket, creates the subdivision and is handed to it, and the count goes up |
| NodeInsert.SubdivisionResult | src/orthtree/node.h:338-383 | adding value 2 at [5, 6] to the full node yields value 1 in the low leaf and value 2 in the high leaf |
| NodeInsert.SubdivisionCompletes | tests/unittests/cases/tree.cpp:343-357 | an insertion that subdivides completes with fuel 2, keeps the invariant and finds both values, as the `ImmediateSubdivision` test expects in two dimensions |
| NodeInsert.InvertedBox | src/orthtree/box.h:51-66 | `Intersection` of the apart boxes [1, 3] and [5, 7] is [5, 3], which the node over [0, 8] admits and which can fall deeper |
| NodeInsert.InvertedBoxSkipped | src/orthtree/node.h:205-212 | neither test of `BiSection::Add` passes for [5, 3] under the centre 4 |
| NodeInsert.InvertedBoxLost | src/orthtree/node.h:338-383 | adding the inverted box stores the value nowhere while the node's count goes up to 2, one more than it holds |
| NodeRemove.Gather | src/orthtree/node.h:426-435 | `GatherAllValuesDeep` adds every value found under the node, with its box, to the accumulated map and keeps what was there |
| NodeRemove.SecGather | src/orthtree/node.h:112-116 | gathering a section adds every value found under it, with its box, to the accumulated map |
| NodeRemove.GatherIsStored | src/orthtree/node.h:426-435 | gathering into an empty map yields exactly the values stored under the node |
| NodeRemove.Collapsed | src/orthtree/node.h:399-407 | the bucket a collapsing node ends with holds every value found under it except the removed one, each with its box |
| NodeRemove.CollapsedIsStored | src/orthtree/node.h:402-407 | the collapsed bucket is the stored map without the removed value |
| NodeRemove.CollapsedSize | src/orthtree/node.h:398-407 | the collapsed bucket holds one entry fewer than the subtree did |
| NodeRemove.DelRoute | src/orthtree/node.h:98-105 | a stored box fits its section, and exactly one of `BiSection::Del`'s two tests passes for it: the half that holds it |
| NodeRemove.NodeDel | src/orthtree/node.h:396-419 | `Node::Del` keeps area and level and decrements `m_values_count` |
| NodeRemove.SecDel | src/orthtree/node.h:221-228 | `BiSection::Del` keeps the kind of section it was given |
| NodeRemove.SecDelLookup | src/orthtree/node.h:221-228 | after `BiSection::Del`, the value is no longer found in the section and every other value is found as before |
| NodeRemove.NodeDelLookup | src/orthtree/node.h:396-419 | after `Node::Del`, the value is no longer found and every other value is found as before |
| NodeRemove.NodeDelDistinct | src/orthtree/node.h:396-419 | removal stores no value twice |
| NodeRemove.NodeDelShape | src/orthtree/node.h:396-419 | removal keeps the node's shape |
| NodeRemove.NodeDelSound | src/orthtree/node.h:396-419 | removal keeps the counting invariant, and the subtree shrinks by one |
| NodeRemove.NodeDelSpec | src/orthtree/node.h:396-419 | `Node::Del` of a stored value keeps the node invariant; the stored map loses exactly that value, and nothing else changes |
| NodeRemove.NodeDelCollapse | src/orthtree/node.h:399-408 | when the count falls to `GROUP_COUNT` or below, the subdivision is gone, the bucket holds all remaining values, and the "Too many elements in bucket" assertion holds |
| NodeQuery.FindInBox | src/orthtree/node.h:494-510 | `FindIntersected(box, inter)` on a node finds exactly the values stored under it whose boxes intersect the query box |
| NodeQuery.SecFindInBox | src/orthtree/node.h:137-141 | the box query on a section finds exactly the values stored under it whose boxes intersect the query box |
| NodeQuery.InnerScan | src/orthtree/node.h:453-466 | the inner loop reports the current bucket entry paired with exactly the later entries whose boxes meet it, each once |
| NodeQuery.InnerPairsStep | src/orthtree/node.h:458-466 | visiting one more later entry adds its pair exactly when the two boxes meet |
| NodeQuery.CrossPairs | src/orthtree/node.h:468-477 | the current bucket entry is paired with exactly the subdivision's values whose boxes meet it |
| NodeQuery.ScanHeadCount | src/orthtree/node.h:453-477 | the pairs reported for one bucket entry count each later entry and each subdivision value that it meets, once |
| NodeQuery.BucketScanCount | src/orthtree/node.h:450-479 | the bucket scan reports each two meeting bucket entries once, and each bucket entry with each subdivision value it meets once |
| NodeQuery.NodeScanCount | src/orthtree/node.h:447-479 | the same count for a node's bucket against its own subdivision |
| NodeQuery.HalvesApart | src/orthtree/node.h:125-129 | a value in one half of a section never meets a value in the other half |
| NodeQuery.SecPairsCount | src/orthtree/node.h:246-250 | a section reports every two distinct values stored under it whose boxes meet exactly once, in one orientation or the other, and nothing else |
| NodeQuery.NodeBelowCount | src/orthtree/node.h:481-485 | a node's recursive call reports each meeting pair below it once |
| NodeQuery.NodePairsCount | src/orthtree/node.h:447-486 | `FindIntersected(inter)` on a node reports every two distinct values stored under it whose boxes meet exactly once, in one orientation or the other, and no other pair |
| Trees.RegistryLookup | src/orthtree/orthtree.h:245-248 | under the tree invariant, the registry `m_all_values` agrees with what the root stores |
| Trees.RegistryGathered | src/orthtree/orthtree.h:245-248 | under the tree invariant, gathering the root yields the registry |
| Trees.Area | src/orthtree/orthtree.h:232 | under the invariant, `area()` is a valid box of the tree's dimension |
| Trees.NewTree | src/orthtree/orthtree.h:59 | a new tree satisfies the invariant, covers the given area and holds no values |
| Trees.Contains | src/orthtree/orthtree.h:77 | `Contains` answers whether the value is stored in the tree |
| Trees.GetBox | src/orthtree/orthtree.h:88-93 | `GetBox` of a contained value is the box stored for it in the tree |
| Trees.GetAllValues | src/orthtree/orthtree.h:241 | `GetAllValues` is the map of every value stored in the tree with its box |
| Trees.Add | src/orthtree/orthtree.h:108-114 | `Tree::Add` keeps the invariant and area, stores exactly the new value with its box in addition, and `Contains`/`GetBox` then report it |
| Trees.AddStays | src/orthtree/node.h:351-355 | a box that cannot fall deeper, or that arrives at a root with room and no subdivision, goes into the root's bucket |
| Trees.Del | src/orthtree/orthtree.h:147-153 | `Tree::Del` keeps the invariant and area, removes exactly that value, and leaves every other value with its box |
| Trees.Change | src/orthtree/orthtree.h:130-137 | `Tree::Change` keeps the invariant and area; the value ends with the new box and every other value keeps its own |
| Trees.FindInTree | src/orthtree/orthtree.h:181-186 | `FindIntersected(box)` returns exactly the registered values whose boxes intersect the query box |
| Trees.FindNeighbours | src/orthtree/orthtree.h:197-207 | `FindIntersected(val)` returns exactly the other registered values whose boxes meet the value's box; the self-intersection assertion holds |
| Trees.FindAllPairs | src/orthtree/orthtree.h:165-170 | every pair `FindIntersected()` reports holds two distinct registered values whose boxes meet |
| Trees.FindAllPairsCount | src/orthtree/orthtree.h:165-170 | `FindIntersected()` reports every two distinct registered values whose boxes meet exactly once, in one orientation or the other, and no other pair |
| Trees.ClearAsWritten | src/orthtree/node.h:320-324 | after `Node::Clear` on the root, no value is found under it, while the area, the registry and the root's count stay as they were |
| Trees.ClearAsWrittenKeepsValues | src/orthtree/orthtree.h:66 | after `Clear` as written, a previously stored value is still in the registry but no longer in the root, and the root's count exceeds what it holds |
| Trees.Clear | src/orthtree/orthtree.h:61-66 | the corrected `Clear` leaves a valid empty tree over the same area, made of the root node only |
| Trees.AddGuardAsWrittenTooWeak | src/orthtree/orthtree.h:108-112 | the tree's own area passes `Tree::Add`'s assertions but not the root's `ContainStrict` assertion |
| Trees.AddGuardImpliesAsWritten | src/orthtree/orthtree.h:110-111 | the guard the root needs implies the assertions `Tree::Add` makes |
| BruteForce.IntersectPairsBrute | test/common/test_common.h:72-87 | the brute-force loop reports each two registered values whose boxes meet exactly once, larger value first, and nothing else |
| BruteForce.BruteCount | test/common/test_common.h:76-85 | the oracle reports two values, in either orientation, once when they are distinct, registered and meeting, and never otherwise |
| BruteForce.TreeMatchesBrute | tests/unittests/cases/tree.cpp:112-130 | every pair counts as often in the tree's `FindIntersected()` as in the oracle's result over `GetAllValues()`, in either orientation, and at most once |
| BruteForce.SameCountsSameSize | tests/unittests/cases/tree.cpp:110 | a multiset of pairs that agrees, orientation aside, with a set of larger-first pairs has the same size |
| BruteForce.TreeMatchesBruteSize | tests/unittests/cases/tree.cpp:110 | the tree reports as many pairs as the oracle |

## Left out

- `TraverseDeep` (node.h, orthtree.h): it only calls user callbacks, and a callback is code outside the model.
- `Vector::Length` and `Vector::Normalize`: they need a square root and a floating-point epsilon test, which have no counterpart over `real`.
- Floating-point rounding: coordinates are exact reals. The source's float midpoint computations may round where the model's do not.
- `NODES_SHARE_VAL == true`: the mode where one value may be stored in several nodes is not modelled. This includes its `Intersect` guard in `Node::Add` and the `ContainOrthant` test in `CanFallDeeper`. `ContainOrthant` itself is modelled in `Boxes`.
- `Node::FitSection`: a private helper that no code calls.
- `Str`, `size`, `operator[]`, the copy, move, span and initializer-list constructors and the assignment operators: value plumbing without behaviour beyond what `seq` gives.
- `Node::Clear` on its own: it appears only inside `Tree::Clear`. It is modelled there, as `Trees.ClearAsWritten`.
- NodeInsert.NodeAdd: insertion terminates only on the model's fuel. No bound on the fuel it needs is proved. `Trees.AddStays` is the one case proved to complete whatever the fuel.
- NodeInsert.NodeAdd, NodeInsert.Subdivide, NodeInsert.SecAdd, NodeInsert.AddAll: their own contracts state only the shape they keep, and for `NodeAdd` and `SecAdd` only when the box is valid. What they store is stated by the lemmas `NodeAddLookup`, `SecAddLookup`, `AddAllLookup` and `NodeAddSpec`.
- NodeInsert.NodeAddSpec, NodeInsert.NodeAddLookup, NodeInsert.SecAddLookup, NodeInsert.NodeAddDistinct, NodeInsert.NodeAddSound: stated for valid boxes only. What happens to an inverted box is shown by `NodeInsert.InvertedBoxLost` for one input, not in general.
- NodeRemove.NodeDel, NodeRemove.SecDel: their own contracts state only area, level, count and kind of section. What they remove is stated by `NodeDelLookup`, `SecDelLookup` and `NodeDelSpec`.
- Trees.Add: requires the root's strict containment (`Trees.AddGuard`) rather than the weaker `Contain` that `Tree::Add` asserts. It also requires a valid box, which no assertion of the source asks for. An inverted box that the source admits may be stored nowhere (see Findings).
- Trees.Change: requires strict containment and validity of the new box, for the same reasons as `Trees.Add`.
- Trees.NewTree: requires a valid area of the tree's dimension; the source does not check the area.
- NodeRemove.Gather: requires that no accumulated value is also stored under the node. This is the "Doubled elements" assertion of `GatherAllValuesDeep`.
- The vector overload of `IntersectPairsBrute` (test_common.h, lines 57-70) is test code not used by the tree tests modelled here.
- The order of pairs in `FindIntersected()` and the orientation of each pair are left open; only how often each pair occurs is stated.

## Findings

| source | as written | input that shows it | evidently intended | confidence | as-written member | corrected member |
|---|---|---|---|---|---|---|
| src/orthtree/orthtree.h:66 | `Tree::Clear` calls `Node::Clear`, which empties the root's bucket and subdivision but neither resets `m_values_count` nor clears `m_all_values` | any tree holding a value: afterwards `Contains` still reports it, so adding it again fails the "Already have value" assertion, and `GetAllValues()` is not empty | the documented post-condition: the tree holds no values and only the root node | not executed | Trees.ClearAsWrittenKeepsValues | Trees.Clear |
| src/orthtree/box.h:110-113 | `ContainOrthant` requires both per-axis orthant conditions, joined by `and` | box [0,2]x[0,2] against [0,4]x[0,4]: it equals the lower orthant, yet the test fails; in general the test is plain `Contain` | "contains one or more of the other box orthants": the two conditions joined by `or` | not executed | Boxes.ContainOrthantAsWrittenMissesOrthant | Boxes.ContainOrthantIffSomeOrthant |
| src/orthtree/box.h:51-66 | `Intersection` takes the larger minimum and the smaller maximum on each axis, without checking that the boxes meet | [0,1] and [2,3] give the inverted box [2,1]; any two apart valid boxes give an inverted box | the intersection only when the boxes intersect, with emptiness reported | not executed | Boxes.IntersectionValidIff | Boxes.CheckedIntersection |
| src/orthtree/orthtree.h:110 | `Tree::Add` asserts `Contain`, but the root's `Node::Add` asserts `ContainStrict` (node.h line 347) | adding a box equal to the tree's area passes the first assertion and fails the second | a guard in `Tree::Add` as strong as the root's | not executed | Trees.AddGuardAsWrittenTooWeak | Trees.Add |
| src/orthtree/node.h:205-212 | `Node::Add` asserts only `ContainStrict`, so it admits an inverted box; `BiSection::Add` then sends it to neither half when its low corner lies above the centre and its high corner below, yet `m_values_count` goes up and `Tree::Add` registers the value | one axis, `GROUP_COUNT` 1, area [0, 8] holding value 1 at [1, 2]: adding value 2 with `Intersection([1,3], [5,7])` = [5, 3] stores it nowhere | an assertion that the box is valid, so every admitted value is stored | not executed | NodeInsert.InvertedBoxLost | Trees.Add |
