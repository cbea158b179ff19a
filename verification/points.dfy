/** Positions in D-dimensional space (`orthtree::Point`).

    A point, like a vector, is the sequence of its D coordinates. Points and
    vectors are kept as distinct names so that the signatures say which of the
    source's overloads is meant: a point moved by a vector is a point, the
    difference of two points is a vector. */
module Points {
  import opened Vectors

  type Point = seq<real>

  /** The default constructor: the origin. */
  function Origin(d: nat): (r: Point)
    ensures |r| == d
    ensures forall i :: 0 <= i < d ==> r[i] == 0.0
  {
    Zero(d)
  }

  /** `p + v` (and `p += v`): the point moved by a displacement. */
  function Translate(p: Point, v: Vector): (r: Point)
    requires |p| == |v|
    ensures |r| == |p|
  {
    Add(p, v)
  }

  /** `p - v` (and `p -= v`): the point moved back by a displacement. */
  function Retreat(p: Point, v: Vector): (r: Point)
    requires |p| == |v|
    ensures |r| == |p|
  {
    Sub(p, v)
  }

  /** `p - q`: the displacement that leads from `q` to `p`. */
  function Diff(p: Point, q: Point): (r: Vector)
    requires |p| == |q|
    ensures |r| == |p|
  {
    Sub(p, q)
  }

  /** The static `Mid(p1, p2)`: the centre of the segment between two points. */
  function Mid(p: Point, q: Point): (r: Point)
    requires |p| == |q|
    ensures |r| == |p|
  {
    seq(|p|, i requires 0 <= i < |p| => (p[i] + q[i]) / 2.0)
  }

  /** The static `Mid(p1, p2, x)`: the centre coordinate on axis `x`; the
      source asserts `x < N`. */
  function MidCoord(p: Point, q: Point, x: nat): real
    requires |p| == |q| && x < |p|
  {
    (p[x] + q[x]) / 2.0
  }

  /** `p.MidTo(to, x)`: `p` with coordinate `x` moved half-way towards `to`. */
  function MidTo(p: Point, to: Point, x: nat): (r: Point)
    requires |p| == |to| && x < |p|
    ensures |r| == |p|
  {
    p[x := MidCoord(p, to, x)]
  }

  /** `p <= q` on every axis, the order a box keeps between its corners. */
  predicate Below(p: Point, q: Point)
    requires |p| == |q|
  {
    forall i :: 0 <= i < |p| ==> p[i] <= q[i]
  }

  /** Moving by `v` and then back by `v` is the identity, in either order. */
  lemma RetreatUndoesTranslate(p: Point, v: Vector)
    requires |p| == |v|
    ensures Retreat(Translate(p, v), v) == p
    ensures Translate(Retreat(p, v), v) == p
  {
    SubUndoesAdd(p, v);
  }

  /** The difference of two points is the displacement between them. */
  lemma DiffLeadsThere(p: Point, q: Point)
    requires |p| == |q|
    ensures Translate(q, Diff(p, q)) == p
    ensures Retreat(p, Diff(p, q)) == q
    ensures Diff(p, p) == Origin(|p|)
  {
    assert Translate(q, Diff(p, q)) == p;
    assert Retreat(p, Diff(p, q)) == q;
  }

  /** Swapping the operands of `p - q` reverses the displacement. */
  lemma DiffAntisymmetric(p: Point, q: Point)
    requires |p| == |q|
    ensures forall i :: 0 <= i < |p| ==> Diff(q, p)[i] == -Diff(p, q)[i]
  {
  }

  /** The whole-point midpoint agrees with the per-axis midpoint, is symmetric,
      and lies between the two points on every axis. */
  lemma MidBetween(p: Point, q: Point)
    requires |p| == |q|
    ensures Mid(p, q) == Mid(q, p)
    ensures forall i :: 0 <= i < |p| ==> Mid(p, q)[i] == MidCoord(p, q, i)
    ensures Below(p, q) ==> Below(p, Mid(p, q)) && Below(Mid(p, q), q)
    ensures Mid(p, p) == p
  {
  }

  /** `MidTo` changes only axis `x`, and from both ends it lands on the same
      coordinate, which lies between the two original ones. */
  lemma MidToMeets(p: Point, q: Point, x: nat)
    requires |p| == |q| && x < |p|
    ensures forall i :: 0 <= i < |p| && i != x ==> MidTo(p, q, x)[i] == p[i]
    ensures MidTo(p, q, x)[x] == MidTo(q, p, x)[x] == Mid(p, q)[x]
    ensures p[x] <= q[x] ==> p[x] <= MidTo(p, q, x)[x] <= q[x]
    ensures p[x] < q[x] ==> p[x] < MidTo(p, q, x)[x] < q[x]
  {
  }
}
