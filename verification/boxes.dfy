/** Axis-aligned boxes (`orthtree::Box`).

    A box is a pair of corner points. Boxes built from two corners always have
    `lo <= hi` on every axis (`Valid`); `Intersection` can build boxes that are
    not valid, which is why validity is a predicate and not a type.

    The source's tests are loops over the axes that return early. Each is
    given here twice: as a predicate over all axes, which the rest of the model
    uses, and as a method that runs the source's loop and is proved to agree
    with the predicate. Lemmas then say what each predicate means in terms of
    the points a box covers. */
module Boxes {
  import opened Wrappers
  import opened Points

  datatype Box = Box(lo: Point, hi: Point) {

    /** Both corners have the same number of axes. */
    predicate Shaped() {
      |lo| == |hi|
    }

    /** A box whose low corner is below its high corner on every axis. */
    predicate Valid() {
      Shaped() && Below(lo, hi)
    }
  }

  /** Two boxes of the same dimension: the source's template argument `DIM`. */
  predicate SameDim(a: Box, b: Box) {
    a.Shaped() && b.Shaped() && |a.lo| == |b.lo|
  }

  /** The point `p` is covered by `b`, faces included. */
  predicate InBox(p: Point, b: Box)
    requires b.Shaped() && |p| == |b.lo|
  {
    forall i :: 0 <= i < |p| ==> b.lo[i] <= p[i] <= b.hi[i]
  }

  /** The point `p` lies strictly inside `b`, off every face. */
  predicate InInterior(p: Point, b: Box)
    requires b.Shaped() && |p| == |b.lo|
  {
    forall i :: 0 <= i < |p| ==> b.lo[i] < p[i] < b.hi[i]
  }

  // ---------------------------------------------------------------------------
  // Construction

  /** The two-corner constructor: `std::minmax` of the corners on every axis. */
  function FromCorners(p: Point, q: Point): (r: Box)
    requires |p| == |q|
    ensures r.Valid() && |r.lo| == |p|
    ensures InBox(p, r) && InBox(q, r)
  {
    Box(seq(|p|, i requires 0 <= i < |p| => if q[i] < p[i] then q[i] else p[i]),
        seq(|p|, i requires 0 <= i < |p| => if q[i] < p[i] then p[i] else q[i]))
  }

  /** The one-point constructor: a degenerate box. */
  function FromPoint(p: Point): (r: Box)
    ensures r.Valid() && |r.lo| == |p|
    ensures forall q :: |q| == |p| ==> (InBox(q, r) <==> q == p)
  {
    var r := Box(p, p);
    assert forall q :: |q| == |p| && InBox(q, r) ==> q == p by {
      forall q | |q| == |p| && InBox(q, r)
        ensures q == p
      {
        assert forall i :: 0 <= i < |p| ==> q[i] == p[i];
      }
    }
    r
  }

  /** The box of two corners is the smallest box that covers both, and the
      order in which the corners are given does not matter. */
  lemma FromCornersTightest(p: Point, q: Point, b: Box)
    requires |p| == |q| && b.Shaped() && |b.lo| == |p|
    ensures FromCorners(p, q) == FromCorners(q, p)
    ensures InBox(p, b) && InBox(q, b) ==> Contains(b, FromCorners(p, q))
    ensures Below(p, q) ==> FromCorners(p, q) == Box(p, q)
  {
    var r, s := FromCorners(p, q), FromCorners(q, p);
    assert r.lo == s.lo && r.hi == s.hi by {
      assert forall i :: 0 <= i < |p| ==> r.lo[i] == s.lo[i] && r.hi[i] == s.hi[i];
    }
    if Below(p, q) {
      assert forall i :: 0 <= i < |p| ==> r.lo[i] == p[i] && r.hi[i] == q[i];
    }
  }

  /** `PntMid()`: the centre of a box. */
  function Center(b: Box): (r: Point)
    requires b.Shaped()
    ensures |r| == |b.lo|
    ensures b.Valid() ==> InBox(r, b)
  {
    MidBetween(b.lo, b.hi);
    Mid(b.lo, b.hi)
  }

  /** `PntMid(x)`: the centre coordinate of a box on axis `x`. */
  function CenterCoord(b: Box, x: nat): (r: real)
    requires b.Shaped() && x < |b.lo|
    ensures b.lo[x] <= b.hi[x] ==> b.lo[x] <= r <= b.hi[x]
    ensures b.lo[x] < b.hi[x] ==> b.lo[x] < r < b.hi[x]
  {
    MidCoord(b.lo, b.hi, x)
  }

  /** The two forms of `PntMid` agree. */
  lemma CenterCoordIsCenter(b: Box, x: nat)
    requires b.Shaped() && x < |b.lo|
    ensures CenterCoord(b, x) == Center(b)[x]
  {
  }

  // ---------------------------------------------------------------------------
  // Intersect

  /** `Intersect`: on no axis does one box end before the other starts. */
  predicate Intersect(a: Box, b: Box)
    requires SameDim(a, b)
  {
    forall i :: 0 <= i < |a.lo| ==> !(a.lo[i] > b.hi[i] || a.hi[i] < b.lo[i])
  }

  /** The loop of `Intersect`, which returns `false` at the first axis on
      which the boxes are apart. */
  method IntersectLoop(a: Box, b: Box) returns (r: bool)
    requires SameDim(a, b)
    ensures r <==> Intersect(a, b)
  {
    var i := 0;
    while i < |a.lo|
      invariant 0 <= i <= |a.lo|
      invariant forall j :: 0 <= j < i ==> !(a.lo[j] > b.hi[j] || a.hi[j] < b.lo[j])
    {
      if a.lo[i] > b.hi[i] || a.hi[i] < b.lo[i] {
        return false;
      }
      i := i + 1;
    }
    return true;
  }

  /** The per-axis larger of the low corners. */
  function MaxLo(a: Box, b: Box): (r: Point)
    requires SameDim(a, b)
    ensures |r| == |a.lo|
    ensures forall i :: 0 <= i < |a.lo| ==> r[i] == a.lo[i] || r[i] == b.lo[i]
    ensures forall i :: 0 <= i < |a.lo| ==> a.lo[i] <= r[i] && b.lo[i] <= r[i]
  {
    seq(|a.lo|, i requires 0 <= i < |a.lo| => if a.lo[i] > b.lo[i] then a.lo[i] else b.lo[i])
  }

  /** The per-axis smaller of the high corners. */
  function MinHi(a: Box, b: Box): (r: Point)
    requires SameDim(a, b)
    ensures |r| == |a.lo|
    ensures forall i :: 0 <= i < |a.lo| ==> r[i] == a.hi[i] || r[i] == b.hi[i]
    ensures forall i :: 0 <= i < |a.lo| ==> r[i] <= a.hi[i] && r[i] <= b.hi[i]
  {
    seq(|a.lo|, i requires 0 <= i < |a.lo| => if a.hi[i] < b.hi[i] then a.hi[i] else b.hi[i])
  }

  /** Two valid boxes intersect exactly when some point lies in both. */
  lemma IntersectIffCommonPoint(a: Box, b: Box)
    requires SameDim(a, b) && a.Valid() && b.Valid()
    ensures Intersect(a, b) <==> exists p :: |p| == |a.lo| && InBox(p, a) && InBox(p, b)
  {
    if Intersect(a, b) {
      var p := MaxLo(a, b);
      assert InBox(p, a) && InBox(p, b);
    }
    if exists p :: |p| == |a.lo| && InBox(p, a) && InBox(p, b) {
      var p :| |p| == |a.lo| && InBox(p, a) && InBox(p, b);
      forall i | 0 <= i < |a.lo|
        ensures !(a.lo[i] > b.hi[i] || a.hi[i] < b.lo[i])
      {
        assert a.lo[i] <= p[i] <= a.hi[i] && b.lo[i] <= p[i] <= b.hi[i];
      }
    }
  }

  /** `Intersect` is symmetric, and every valid box intersects itself. */
  lemma IntersectSymmetricReflexive(a: Box, b: Box)
    requires SameDim(a, b)
    ensures Intersect(a, b) <==> Intersect(b, a)
    ensures a.Valid() ==> Intersect(a, a)
  {
  }

  // ---------------------------------------------------------------------------
  // Intersection

  /** `Intersection` as written: the larger low corner and the smaller high
      corner, with no check that the result is a box at all. */
  function Intersection(a: Box, b: Box): (r: Box)
    requires SameDim(a, b)
    ensures SameDim(r, a)
    ensures Contains(a, r) && Contains(b, r)
  {
    Box(MaxLo(a, b), MinHi(a, b))
  }

  /** For boxes that intersect, `Intersection` is a valid box covering
      exactly the points the two boxes share. */
  lemma IntersectionOfIntersecting(a: Box, b: Box, p: Point)
    requires SameDim(a, b) && a.Valid() && b.Valid() && Intersect(a, b)
    requires |p| == |a.lo|
    ensures Intersection(a, b).Valid()
    ensures InBox(p, Intersection(a, b)) <==> InBox(p, a) && InBox(p, b)
  {
    var r := Intersection(a, b);
    assert forall i :: 0 <= i < |a.lo| ==> r.lo[i] <= r.hi[i];
  }

  /** Two apart 1-D boxes, [0, 1] and [2, 3], give a "box" whose low corner
      lies above its high corner. */
  lemma IntersectionOfDisjointIsInvalid()
    ensures !Intersect(Box([0.0], [1.0]), Box([2.0], [3.0]))
    ensures Intersection(Box([0.0], [1.0]), Box([2.0], [3.0])) == Box([2.0], [1.0])
    ensures !Intersection(Box([0.0], [1.0]), Box([2.0], [3.0])).Valid()
  {
    var a, b := Box([0.0], [1.0]), Box([2.0], [3.0]);
    assert !(a.hi[0] >= b.lo[0]);
    assert MaxLo(a, b) == [2.0];
    assert MinHi(a, b) == [1.0];
  }

  /** For any two valid boxes, `Intersection` is a valid box exactly when
      the boxes intersect: for apart boxes it always builds a box whose low
      corner lies above its high corner on some axis. */
  lemma IntersectionValidIff(a: Box, b: Box)
    requires SameDim(a, b) && a.Valid() && b.Valid()
    ensures Intersection(a, b).Valid() <==> Intersect(a, b)
  {
    var r := Intersection(a, b);
    if Intersect(a, b) {
      IntersectionOfIntersecting(a, b, a.lo);
    } else {
      var i :| 0 <= i < |a.lo| && (a.lo[i] > b.hi[i] || a.hi[i] < b.lo[i]);
      assert r.hi[i] < r.lo[i];
    }
  }

  /** `Intersection` as intended: no result for boxes that do not intersect,
      otherwise a valid box inside both. */
  function CheckedIntersection(a: Box, b: Box): (r: Option<Box>)
    requires SameDim(a, b) && a.Valid() && b.Valid()
    ensures r.Some? <==> Intersect(a, b)
    ensures r.Some? ==> r.value.Valid() && SameDim(r.value, a)
    ensures r.Some? ==> Contains(a, r.value) && Contains(b, r.value)
    ensures r.Some? ==> forall p :: |p| == |a.lo| ==>
              (InBox(p, r.value) <==> InBox(p, a) && InBox(p, b))
  {
    if Intersect(a, b) then
      var r := Intersection(a, b);
      assert forall p :: |p| == |a.lo| ==> (InBox(p, r) <==> InBox(p, a) && InBox(p, b)) by {
        forall p | |p| == |a.lo|
          ensures InBox(p, r) <==> InBox(p, a) && InBox(p, b)
        {
          IntersectionOfIntersecting(a, b, p);
        }
      }
      IntersectionOfIntersecting(a, b, a.lo);
      Some(r)
    else
      None
  }

  // ---------------------------------------------------------------------------
  // Contain, ContainStrict

  /** `Contain`: `b` lies within `a`, faces may touch. */
  predicate Contains(a: Box, b: Box)
    requires SameDim(a, b)
  {
    forall i :: 0 <= i < |a.lo| ==> !(a.lo[i] > b.lo[i] || a.hi[i] < b.hi[i])
  }

  /** The loop of `Contain`. */
  method ContainLoop(a: Box, b: Box) returns (r: bool)
    requires SameDim(a, b)
    ensures r <==> Contains(a, b)
  {
    var i := 0;
    while i < |a.lo|
      invariant 0 <= i <= |a.lo|
      invariant forall j :: 0 <= j < i ==> !(a.lo[j] > b.lo[j] || a.hi[j] < b.hi[j])
    {
      if a.lo[i] > b.lo[i] || a.hi[i] < b.hi[i] {
        return false;
      }
      i := i + 1;
    }
    return true;
  }

  /** `ContainStrict`: `b` lies within `a` and touches none of its faces. */
  predicate ContainsStrict(a: Box, b: Box)
    requires SameDim(a, b)
  {
    forall i :: 0 <= i < |a.lo| ==> !(a.lo[i] >= b.lo[i] || a.hi[i] <= b.hi[i])
  }

  /** The loop of `ContainStrict`. */
  method ContainStrictLoop(a: Box, b: Box) returns (r: bool)
    requires SameDim(a, b)
    ensures r <==> ContainsStrict(a, b)
  {
    var i := 0;
    while i < |a.lo|
      invariant 0 <= i <= |a.lo|
      invariant forall j :: 0 <= j < i ==> !(a.lo[j] >= b.lo[j] || a.hi[j] <= b.hi[j])
    {
      if a.lo[i] >= b.lo[i] || a.hi[i] <= b.hi[i] {
        return false;
      }
      i := i + 1;
    }
    return true;
  }

  /** For a valid `b`, `Contain` holds exactly when every point of `b` is a
      point of `a`. */
  lemma ContainsIffPointsInside(a: Box, b: Box)
    requires SameDim(a, b) && b.Valid()
    ensures Contains(a, b) <==> forall p :: |p| == |a.lo| && InBox(p, b) ==> InBox(p, a)
  {
    if forall p :: |p| == |a.lo| && InBox(p, b) ==> InBox(p, a) {
      assert InBox(b.lo, b) && InBox(b.hi, b);
      assert InBox(b.lo, a) && InBox(b.hi, a);
    }
  }

  /** For a valid `b`, `ContainStrict` holds exactly when every point of `b`
      lies in the interior of `a`. */
  lemma ContainsStrictIffPointsInterior(a: Box, b: Box)
    requires SameDim(a, b) && b.Valid()
    ensures ContainsStrict(a, b) <==> forall p :: |p| == |a.lo| && InBox(p, b) ==> InInterior(p, a)
  {
    if forall p :: |p| == |a.lo| && InBox(p, b) ==> InInterior(p, a) {
      assert InBox(b.lo, b) && InBox(b.hi, b);
      assert InInterior(b.lo, a) && InInterior(b.hi, a);
    }
  }

  /** `Contain` is a preorder: reflexive and transitive. */
  lemma ContainsPreorder(a: Box, b: Box, c: Box)
    requires SameDim(a, b) && SameDim(b, c)
    ensures Contains(a, a)
    ensures Contains(a, b) && Contains(b, c) ==> Contains(a, c)
  {
  }

  /** Strict containment implies containment, no box strictly contains itself,
      and strict containment is transitive through plain containment. */
  lemma ContainsStrictProperties(a: Box, b: Box, c: Box)
    requires SameDim(a, b) && SameDim(b, c)
    ensures ContainsStrict(a, b) ==> Contains(a, b)
    ensures |a.lo| > 0 && ContainsStrict(a, b) ==> a != b
    ensures ContainsStrict(a, b) && Contains(b, c) ==> ContainsStrict(a, c)
    ensures Contains(a, b) && ContainsStrict(b, c) ==> ContainsStrict(a, c)
  {
    if |a.lo| > 0 && ContainsStrict(a, b) {
      assert a.lo[0] < b.lo[0];
    }
  }

  // ---------------------------------------------------------------------------
  // Orthants

  /** The low coordinate on axis `i` of the orthant of `b` selected by `high`. */
  function OrthantLo(b: Box, high: seq<bool>, i: nat): real
    requires b.Shaped() && |high| == |b.lo| && i < |b.lo|
  {
    if high[i] then CenterCoord(b, i) else b.lo[i]
  }

  /** The high coordinate on axis `i` of the orthant of `b` selected by `high`. */
  function OrthantHi(b: Box, high: seq<bool>, i: nat): real
    requires b.Shaped() && |high| == |b.lo| && i < |b.lo|
  {
    if high[i] then b.hi[i] else CenterCoord(b, i)
  }

  /** The orthant of `b` selected by `high`: on axis `i` the upper half of
      `b` when `high[i]`, the lower half otherwise. */
  function Orthant(b: Box, high: seq<bool>): (r: Box)
    requires b.Shaped() && |high| == |b.lo|
    ensures SameDim(r, b)
    ensures forall i :: 0 <= i < |b.lo| ==> r.lo[i] == OrthantLo(b, high, i) && r.hi[i] == OrthantHi(b, high, i)
  {
    var d := |b.lo|;
    Box(seq(d, i requires 0 <= i < d => OrthantLo(b, high, i)),
        seq(d, i requires 0 <= i < d => OrthantHi(b, high, i)))
  }

  /** Every orthant of a valid box is a valid box inside it. */
  lemma OrthantInside(b: Box, high: seq<bool>)
    requires b.Valid() && |high| == |b.lo|
    ensures Orthant(b, high).Valid() && Contains(b, Orthant(b, high))
  {
    var r := Orthant(b, high);
    forall i | 0 <= i < |b.lo|
      ensures b.lo[i] <= r.lo[i] <= r.hi[i] <= b.hi[i]
    {
      assert b.lo[i] <= CenterCoord(b, i) <= b.hi[i];
    }
  }

  /** One axis of `ContainOrthant` as written: both orthant conditions are
      required together. */
  predicate ContainOrthantAxisAsWritten(a: Box, o: Box, i: nat)
    requires SameDim(a, o) && i < |a.lo|
  {
    var mid := CenterCoord(o, i);
    (a.lo[i] <= o.lo[i] && a.hi[i] >= mid) && (a.lo[i] <= mid && a.hi[i] >= o.hi[i])
  }

  /** `ContainOrthant` as written. */
  predicate ContainOrthantAsWritten(a: Box, o: Box)
    requires SameDim(a, o)
  {
    forall i :: 0 <= i < |a.lo| ==> ContainOrthantAxisAsWritten(a, o, i)
  }

  /** The loop of `ContainOrthant`, which returns `false` when either of the
      two per-axis conditions fails. */
  method ContainOrthantLoop(a: Box, o: Box) returns (r: bool)
    requires SameDim(a, o)
    ensures r <==> ContainOrthantAsWritten(a, o)
  {
    var i := 0;
    while i < |a.lo|
      invariant 0 <= i <= |a.lo|
      invariant forall j :: 0 <= j < i ==> ContainOrthantAxisAsWritten(a, o, j)
    {
      var mid := (o.lo[i] + o.hi[i]) / 2.0;
      assert mid == CenterCoord(o, i);
      if !(a.lo[i] <= o.lo[i] && a.hi[i] >= mid) {
        assert !ContainOrthantAxisAsWritten(a, o, i);
        return false;
      }
      if !(a.lo[i] <= mid && a.hi[i] >= o.hi[i]) {
        assert !ContainOrthantAxisAsWritten(a, o, i);
        return false;
      }
      i := i + 1;
    }
    return true;
  }

  /** Because both conditions are required on every axis, `ContainOrthant`
      as written is plain `Contain` for a valid `o`. */
  lemma ContainOrthantAsWrittenIsContains(a: Box, o: Box)
    requires SameDim(a, o) && o.Valid()
    ensures ContainOrthantAsWritten(a, o) <==> Contains(a, o)
  {
    forall i | 0 <= i < |a.lo|
      ensures ContainOrthantAxisAsWritten(a, o, i) <==> !(a.lo[i] > o.lo[i] || a.hi[i] < o.hi[i])
    {
      assert o.lo[i] <= CenterCoord(o, i) <= o.hi[i];
    }
  }

  /** The box [0, 2]x[0, 2] is the lower orthant of [0, 4]x[0, 4], yet
      `ContainOrthant` as written says it contains no orthant of it. */
  lemma ContainOrthantAsWrittenMissesOrthant()
    ensures Contains(Box([0.0, 0.0], [2.0, 2.0]), Orthant(Box([0.0, 0.0], [4.0, 4.0]), [false, false]))
    ensures !ContainOrthantAsWritten(Box([0.0, 0.0], [2.0, 2.0]), Box([0.0, 0.0], [4.0, 4.0]))
  {
    var a, o := Box([0.0, 0.0], [2.0, 2.0]), Box([0.0, 0.0], [4.0, 4.0]);
    assert Orthant(o, [false, false]) == Box([0.0, 0.0], [2.0, 2.0]);
    assert !ContainOrthantAxisAsWritten(a, o, 0);
  }

  /** One axis of `ContainOrthant` as documented: `a` covers the lower or the
      upper half of `o` on this axis. */
  predicate ContainOrthantAxis(a: Box, o: Box, i: nat)
    requires SameDim(a, o) && i < |a.lo|
  {
    var mid := CenterCoord(o, i);
    (a.lo[i] <= o.lo[i] && a.hi[i] >= mid) || (a.lo[i] <= mid && a.hi[i] >= o.hi[i])
  }

  /** `ContainOrthant` as documented ("contains one or more of the other box
      orthants"): the per-axis conditions joined by `or`. */
  predicate ContainOrthant(a: Box, o: Box)
    requires SameDim(a, o)
  {
    forall i :: 0 <= i < |a.lo| ==> ContainOrthantAxis(a, o, i)
  }

  /** The corrected loop. */
  method ContainOrthantFixedLoop(a: Box, o: Box) returns (r: bool)
    requires SameDim(a, o)
    ensures r <==> ContainOrthant(a, o)
  {
    var i := 0;
    while i < |a.lo|
      invariant 0 <= i <= |a.lo|
      invariant forall j :: 0 <= j < i ==> ContainOrthantAxis(a, o, j)
    {
      var mid := (o.lo[i] + o.hi[i]) / 2.0;
      assert mid == CenterCoord(o, i);
      if !((a.lo[i] <= o.lo[i] && a.hi[i] >= mid) || (a.lo[i] <= mid && a.hi[i] >= o.hi[i])) {
        assert !ContainOrthantAxis(a, o, i);
        return false;
      }
      i := i + 1;
    }
    return true;
  }

  /** The corrected `ContainOrthant` holds exactly when `a` contains some
      orthant of `o`. */
  lemma ContainOrthantIffSomeOrthant(a: Box, o: Box)
    requires SameDim(a, o)
    ensures ContainOrthant(a, o) <==> exists high :: |high| == |a.lo| && Contains(a, Orthant(o, high))
  {
    var d := |a.lo|;
    if ContainOrthant(a, o) {
      var high := seq(d, i requires 0 <= i < d => !(a.lo[i] <= o.lo[i] && a.hi[i] >= CenterCoord(o, i)));
      var r := Orthant(o, high);
      forall i | 0 <= i < d
        ensures !(a.lo[i] > r.lo[i] || a.hi[i] < r.hi[i])
      {
        assert ContainOrthantAxis(a, o, i);
      }
      assert |high| == d && Contains(a, r);
    }
    if exists high :: |high| == d && Contains(a, Orthant(o, high)) {
      var high :| |high| == d && Contains(a, Orthant(o, high));
      var r := Orthant(o, high);
      forall i | 0 <= i < d
        ensures ContainOrthantAxis(a, o, i)
      {
        assert a.lo[i] <= r.lo[i] && r.hi[i] <= a.hi[i];
      }
    }
  }

  // ---------------------------------------------------------------------------
  // ContainInOrthant

  /** One axis of `ContainInOrthant`: `o` is strictly inside `a` and does not
      reach the centre plane of `a`. */
  predicate InOrthantAxis(a: Box, o: Box, i: nat)
    requires SameDim(a, o) && i < |a.lo|
  {
    var mid := CenterCoord(a, i);
    !(o.hi[i] >= a.hi[i]) && !(o.lo[i] <= a.lo[i]) && !(o.lo[i] <= mid && o.hi[i] >= mid)
  }

  /** `ContainInOrthant`: `o` fits in one orthant of `a`, strictly. */
  predicate ContainInOrthant(a: Box, o: Box)
    requires SameDim(a, o)
  {
    forall i :: 0 <= i < |a.lo| ==> InOrthantAxis(a, o, i)
  }

  /** The loop of `ContainInOrthant`, with its three early returns. */
  method ContainInOrthantLoop(a: Box, o: Box) returns (r: bool)
    requires SameDim(a, o)
    ensures r <==> ContainInOrthant(a, o)
  {
    var i := 0;
    while i < |a.lo|
      invariant 0 <= i <= |a.lo|
      invariant forall j :: 0 <= j < i ==> InOrthantAxis(a, o, j)
    {
      if o.hi[i] >= a.hi[i] {
        assert !InOrthantAxis(a, o, i);
        return false;
      }
      if o.lo[i] <= a.lo[i] {
        assert !InOrthantAxis(a, o, i);
        return false;
      }
      var mid := CenterCoord(a, i);
      if o.lo[i] <= mid && o.hi[i] >= mid {
        assert !InOrthantAxis(a, o, i);
        return false;
      }
      i := i + 1;
    }
    return true;
  }

  /** For a valid `o`, `ContainInOrthant` holds exactly when `o` is strictly
      inside `a` and, on every axis, wholly below or wholly above the centre of
      `a`; the orthant it then lies in is the one those sides select. */
  lemma ContainInOrthantMeaning(a: Box, o: Box)
    requires SameDim(a, o) && o.Valid()
    ensures ContainInOrthant(a, o) <==>
      ContainsStrict(a, o) &&
      forall i :: 0 <= i < |a.lo| ==> o.hi[i] < CenterCoord(a, i) || CenterCoord(a, i) < o.lo[i]
    ensures ContainInOrthant(a, o) ==>
      var high := seq(|a.lo|, i requires 0 <= i < |a.lo| => CenterCoord(a, i) < o.lo[i]);
      Contains(Orthant(a, high), o)
  {
    var d := |a.lo|;
    forall i | 0 <= i < d
      ensures InOrthantAxis(a, o, i) <==>
        !(a.lo[i] >= o.lo[i] || a.hi[i] <= o.hi[i]) &&
        (o.hi[i] < CenterCoord(a, i) || CenterCoord(a, i) < o.lo[i])
    {
      assert o.lo[i] <= o.hi[i];
    }
    if ContainInOrthant(a, o) {
      var high := seq(d, i requires 0 <= i < d => CenterCoord(a, i) < o.lo[i]);
      var r := Orthant(a, high);
      forall i | 0 <= i < d
        ensures r.lo[i] <= o.lo[i] && o.hi[i] <= r.hi[i]
      {
        assert InOrthantAxis(a, o, i);
      }
    }
  }
}
