/** Displacements in D-dimensional space (`orthtree::Vector`).

    A vector is the sequence of its D coordinates; the coordinate type is
    modelled as `real`, so every operation below is exact. The compound
    assignments of the source (`+=`, `-=`, `*=`) are the loops written as
    methods; the binary operators copy the receiver and apply the compound
    assignment, which over values is the pure function of the same name. */
module Vectors {

  type Vector = seq<real>

  /** The default constructor: every coordinate is zero. */
  function Zero(d: nat): (r: Vector)
    ensures |r| == d
    ensures forall w: Vector | |w| == d :: Add(w, r) == w
  {
    seq(d, i => 0.0)
  }

  /** `v + w` */
  function Add(v: Vector, w: Vector): (r: Vector)
    requires |v| == |w|
    ensures |r| == |v|
  {
    seq(|v|, i requires 0 <= i < |v| => v[i] + w[i])
  }

  /** `v - w` */
  function Sub(v: Vector, w: Vector): (r: Vector)
    requires |v| == |w|
    ensures |r| == |v|
  {
    seq(|v|, i requires 0 <= i < |v| => v[i] - w[i])
  }

  /** `v * coeff` */
  function Scale(v: Vector, coeff: real): (r: Vector)
    ensures |r| == |v|
  {
    seq(|v|, i requires 0 <= i < |v| => v[i] * coeff)
  }

  /** `Dot`: the running sum of coordinate products, accumulated from axis 0 upwards. */
  function Dot(v: Vector, w: Vector): real
    requires |v| == |w|
    decreases |v|
  {
    if |v| == 0 then 0.0
    else Dot(v[..|v| - 1], w[..|w| - 1]) + v[|v| - 1] * w[|w| - 1]
  }

  /** `Length2`: the dot product of a vector with itself, a sum of squares
      and therefore never negative. */
  function Length2(v: Vector): (r: real)
    ensures r >= 0.0
  {
    DotSelfNonNegative(v);
    Dot(v, v)
  }

  lemma {:induction false} DotSelfNonNegative(v: Vector)
    ensures Dot(v, v) >= 0.0
    decreases |v|
  {
    if |v| > 0 {
      var n := |v| - 1;
      DotSelfNonNegative(v[..n]);
      assert v[n] * v[n] >= 0.0;
    }
  }

  /** `==` compares the coordinate arrays. */
  predicate Equal(v: Vector, w: Vector)
    requires |v| == |w|
    ensures Equal(v, w) <==> forall i :: 0 <= i < |v| ==> v[i] == w[i]
  {
    assert (forall i :: 0 <= i < |v| ==> v[i] == w[i]) ==> v == w;
    v == w
  }

  /** `!=` is the negation of `==`. */
  predicate NotEqual(v: Vector, w: Vector)
    requires |v| == |w|
    ensures NotEqual(v, w) <==> exists i :: 0 <= i < |v| && v[i] != w[i]
  {
    !Equal(v, w)
  }

  /** `v += rhs`: the receiver's coordinates are rewritten one axis at a time. */
  method AddAssign(v: Vector, rhs: Vector) returns (r: Vector)
    requires |v| == |rhs|
    ensures |r| == |v|
    ensures forall i :: 0 <= i < |v| ==> r[i] == v[i] + rhs[i]
    ensures r == Add(v, rhs)
  {
    r := v;
    var i := 0;
    while i < |v|
      invariant 0 <= i <= |v| && |r| == |v|
      invariant forall j :: 0 <= j < i ==> r[j] == v[j] + rhs[j]
      invariant forall j :: i <= j < |v| ==> r[j] == v[j]
    {
      r := r[i := r[i] + rhs[i]];
      i := i + 1;
    }
  }

  /** `v -= rhs` */
  method SubAssign(v: Vector, rhs: Vector) returns (r: Vector)
    requires |v| == |rhs|
    ensures |r| == |v|
    ensures forall i :: 0 <= i < |v| ==> r[i] == v[i] - rhs[i]
    ensures r == Sub(v, rhs)
  {
    r := v;
    var i := 0;
    while i < |v|
      invariant 0 <= i <= |v| && |r| == |v|
      invariant forall j :: 0 <= j < i ==> r[j] == v[j] - rhs[j]
      invariant forall j :: i <= j < |v| ==> r[j] == v[j]
    {
      r := r[i := r[i] - rhs[i]];
      i := i + 1;
    }
  }

  /** `v *= coeff` */
  method ScaleAssign(v: Vector, coeff: real) returns (r: Vector)
    ensures |r| == |v|
    ensures forall i :: 0 <= i < |v| ==> r[i] == v[i] * coeff
    ensures r == Scale(v, coeff)
  {
    r := v;
    var i := 0;
    while i < |v|
      invariant 0 <= i <= |v| && |r| == |v|
      invariant forall j :: 0 <= j < i ==> r[j] == v[j] * coeff
      invariant forall j :: i <= j < |v| ==> r[j] == v[j]
    {
      r := r[i := r[i] * coeff];
      i := i + 1;
    }
    assert forall j :: 0 <= j < |v| ==> r[j] == Scale(v, coeff)[j];
  }

  /** The loop of `Dot`, which accumulates `v[i] * rhs[i]` into a running total. */
  method DotLoop(v: Vector, rhs: Vector) returns (result: real)
    requires |v| == |rhs|
    ensures result == Dot(v, rhs)
  {
    result := 0.0;
    var i := 0;
    while i < |v|
      invariant 0 <= i <= |v|
      invariant result == Dot(v[..i], rhs[..i])
    {
      assert v[..i + 1][..i] == v[..i] && rhs[..i + 1][..i] == rhs[..i];
      result := result + v[i] * rhs[i];
      i := i + 1;
    }
    assert v[..i] == v && rhs[..i] == rhs;
  }

  /** `+` is commutative and the zero vector is its identity. */
  lemma AddCommutesWithZeroIdentity(v: Vector, w: Vector)
    requires |v| == |w|
    ensures Add(v, w) == Add(w, v)
    ensures Add(v, Zero(|v|)) == v
  {
  }

  /** Subtracting what was added gives the original vector back. */
  lemma SubUndoesAdd(v: Vector, w: Vector)
    requires |v| == |w|
    ensures Sub(Add(v, w), w) == v
    ensures Add(Sub(v, w), w) == v
  {
  }

  /** `Dot` is symmetric. */
  lemma {:induction false} DotSymmetric(v: Vector, w: Vector)
    requires |v| == |w|
    ensures Dot(v, w) == Dot(w, v)
    decreases |v|
  {
    if |v| > 0 {
      DotSymmetric(v[..|v| - 1], w[..|w| - 1]);
    }
  }

  /** `Dot` is linear in the scaled argument. */
  lemma {:induction false} DotScale(v: Vector, w: Vector, c: real)
    requires |v| == |w|
    ensures Dot(Scale(v, c), w) == c * Dot(v, w)
    decreases |v|
  {
    if |v| > 0 {
      var n := |v| - 1;
      assert forall i :: 0 <= i < n ==> Scale(v, c)[..n][i] == Scale(v[..n], c)[i];
      assert Scale(v, c)[..n] == Scale(v[..n], c);
      DotScale(v[..n], w[..n], c);
    }
  }

  /** The zero vector is orthogonal to everything, so its `Length2` is zero. */
  lemma {:induction false} DotZero(v: Vector)
    ensures Dot(v, Zero(|v|)) == 0.0
    ensures Length2(Zero(|v|)) == 0.0
    decreases |v|
  {
    if |v| > 0 {
      var n := |v| - 1;
      assert Zero(|v|)[..n] == Zero(n);
      DotZero(v[..n]);
      DotZero(Zero(n));
    }
  }
}
