/** Real-valued linear algebra for the back-projection chain and the edge
    length test of Exercise-1/main.cpp. Floating-point rounding is not
    modelled: coordinates are reals. */
module Geometry {

  /** A matrix as a sequence of rows. */
  type Matrix = seq<seq<real>>

  predicate IsMatrix(m: Matrix, rows: nat, cols: nat)
  {
    |m| == rows && forall i :: 0 <= i < rows ==> |m[i]| == cols
  }

  /** Inner product of two vectors of the same length. */
  function Dot(a: seq<real>, b: seq<real>): real
    requires |a| == |b|
  {
    if |a| == 0 then 0.0 else a[0] * b[0] + Dot(a[1..], b[1..])
  }

  /** Matrix times column vector, as Eigen's `operator*`. */
  function MulVec(m: Matrix, v: seq<real>): (r: seq<real>)
    requires IsMatrix(m, |m|, |v|)
    ensures |r| == |m|
  {
    seq(|m|, i requires 0 <= i < |m| => Dot(m[i], v))
  }

  /** Row `i` of the n x n identity matrix. */
  function UnitRow(n: nat, i: nat): seq<real>
  {
    seq(n, j => if j == i then 1.0 else 0.0)
  }

  function Identity(n: nat): (m: Matrix)
    ensures IsMatrix(m, n, n)
  {
    seq(n, i requires 0 <= i < n => UnitRow(n, i))
  }

  /** The dot product with a unit row picks out one component. */
  lemma {:induction false} DotUnitRow(n: nat, i: nat, v: seq<real>)
    requires i < n == |v|
    ensures Dot(UnitRow(n, i), v) == v[i]
  {
    DotShiftedUnit(UnitRow(n, i), v, i);
  }

  lemma {:induction false} DotShiftedUnit(u: seq<real>, v: seq<real>, i: nat)
    requires |u| == |v| && i < |u|
    requires forall j :: 0 <= j < |u| ==> u[j] == if j == i then 1.0 else 0.0
    ensures Dot(u, v) == v[i]
  {
    if i == 0 {
      DotZero(u[1..], v[1..]);
    } else {
      DotShiftedUnit(u[1..], v[1..], i - 1);
    }
  }

  lemma {:induction false} DotZero(u: seq<real>, v: seq<real>)
    requires |u| == |v|
    requires forall j :: 0 <= j < |u| ==> u[j] == 0.0
    ensures Dot(u, v) == 0.0
  {
    if |u| > 0 {
      DotZero(u[1..], v[1..]);
    }
  }

  /** Multiplying by the identity leaves a vector unchanged. */
  lemma IdentityMulVec(v: seq<real>)
    ensures MulVec(Identity(|v|), v) == v
  {
    var r := MulVec(Identity(|v|), v);
    forall i | 0 <= i < |v|
      ensures r[i] == v[i]
    {
      DotUnitRow(|v|, i, v);
    }
  }

  /** A vertex position: the `MINF` marker the back-projection stores for a
      missing depth, or a homogeneous point (x, y, z, w). */
  datatype Position = Minf | Point(x: real, y: real, z: real, w: real)

  function Sq(x: real): real
  {
    x * x
  }

  lemma SqNonNegative(x: real)
    ensures 0.0 <= Sq(x)
  {
    if x < 0.0 {
      assert Sq(x) == (-x) * (-x);
    }
  }

  /** Squared Euclidean length of the difference of two points, over all four
      components as `Vector4f::norm` computes it. */
  function SqDist(p: Position, q: Position): (d: real)
    requires p.Point? && q.Point?
    ensures 0.0 <= d
    ensures d == 0.0 <== p == q
  {
    SqNonNegative(p.x - q.x);
    SqNonNegative(p.y - q.y);
    SqNonNegative(p.z - q.z);
    SqNonNegative(p.w - q.w);
    Sq(p.x - q.x) + Sq(p.y - q.y) + Sq(p.z - q.z) + Sq(p.w - q.w)
  }

  lemma SqDistSymmetric(p: Position, q: Position)
    requires p.Point? && q.Point?
    ensures SqDist(p, q) == SqDist(q, p)
  {
  }

  /** `(p - q).norm() < thr`. Over the reals, norm < thr holds exactly when
      thr is not negative and the squared norm is below thr squared. A `MINF`
      position is never within any threshold: in the source its difference is
      infinite or NaN, and every comparison with those is false. */
  predicate WithinThreshold(p: Position, q: Position, thr: real)
    ensures WithinThreshold(p, q, thr) ==> 0.0 < thr
  {
    p.Point? && q.Point? && 0.0 <= thr && SqDist(p, q) < Sq(thr)
  }

  /** The threshold test does not depend on the order of the two points. */
  lemma WithinThresholdSymmetric(p: Position, q: Position, thr: real)
    ensures WithinThreshold(p, q, thr) <==> WithinThreshold(q, p, thr)
  {
    if p.Point? && q.Point? {
      SqDistSymmetric(p, q);
    }
  }

  /** Two points exactly `thr` apart are rejected: the comparison is strict. */
  lemma {:induction false} BoundaryRejected(p: Position, q: Position, thr: real)
    requires p.Point? && q.Point? && 0.0 <= thr
    requires SqDist(p, q) == Sq(thr)
    ensures !WithinThreshold(p, q, thr)
  {
  }
}
