/** Keep-out geometry reduced to barriers, and what a barrier row promises. */
module Barriers {
  import opened Wrappers
  import opened Numbers
  import opened Vectors
  import opened SafetyModel

  /** The commanded quantity of an actuator setpoint. */
  datatype ControlMode = Effort | Velocity | Position

  datatype Barrier =
    | Round(center: Vec, radius: real)  // h = |p - c| - R
    | Half(normal: Vec, rhs: real)      // h = n.p - rhs
  {
    predicate Fits(dim: nat) {
      Half? ==> |normal| == dim
    }
  }

  /** `f64::MIN_POSITIVE`. */
  const MIN_POSITIVE: real := 2.2250738585072014e-308

  /** Below this distance from a centre the outward normal counts as undefined. */
  const CENTRE_TOL: real := 1e-9

  function At(xs: Vec, i: nat): real {
    if i < |xs| then xs[i] else 0.0
  }

  /** x - center over the first dim coordinates, a short centre padded with zeros. */
  function FromCentre(center: Vec, x: Vec, dim: nat): (r: Vec)
    requires dim <= |x|
    ensures |r| == dim
  {
    seq(dim, i requires 0 <= i < dim => x[i] - At(center, i))
  }

  function OffsetOf(t: KeepOutTerm): real { if t.offset.Some? then t.offset.value else 0.0 }

  function RadiusOf(t: KeepOutTerm): real { if t.radius.Some? then t.radius.value else 0.0 }

  /** The length a half-space normal is divided by. */
  function NormalLength(sqrt: Root, t: KeepOutTerm): (n: real)
    ensures n > 0.0
  {
    RMax(Norm(sqrt, t.normal), MIN_POSITIVE)
  }

  /** The barrier of one keep-out term, its margin baked in; a box becomes its
      enclosing sphere. */
  function FromTerm(sqrt: Root, t: KeepOutTerm, dim: nat): (b: Barrier)
    ensures b.Fits(dim)
  {
    match t.shape
    case Sphere => Round(t.center, RadiusOf(t) + t.margin)
    case Box => Round(t.center, Norm(sqrt, t.halfExtents) + t.margin)
    case HalfSpace =>
      var n := NormalLength(sqrt, t);
      Half(seq(dim, i requires 0 <= i => if i < |t.normal| then t.normal[i] / n else 0.0),
           (t.margin - OffsetOf(t)) / n)
  }

  /** The position-only barrier value; non-negative means outside the keep-out. */
  function StaticH(sqrt: Root, b: Barrier, dim: nat, x: Vec): real
    requires b.Fits(dim) && dim <= |x|
  {
    match b
    case Round(c, r) => Norm(sqrt, FromCentre(c, x, dim)) - r
    case Half(n, rhs) => DotN(n, x, dim) - rhs
  }

  /** One linear constraint a.x >= b, the barrier value behind it, and whether the
      barrier had a usable normal. */
  datatype Row = Row(a: Vec, b: real, h: real, ok: bool)

  datatype Gains = Gains(k0: real, k1: real, dt: real)

  /** The constraint a barrier puts on the commanded variable at state (p, v). */
  function EvalBarrier(sqrt: Root, barrier: Barrier, mode: ControlMode, g: Gains, p: Vec, v: Vec): (row: Row)
    requires barrier.Fits(|p|) && |v| == |p| && g.dt != 0.0
    ensures |row.a| == |p|
  {
    match barrier
    case Round(c, radius) =>
      var r := FromCentre(c, p, |p|);
      var d := Norm(sqrt, r);
      if d < CENTRE_TOL then Row(r, 0.0, -radius, false)
      else
        var a := seq(|p|, i requires 0 <= i < |p| => r[i] / d);
        var hdot := Dot(a, v);
        var h := d - radius;
        Row(a, RowBound(mode, g, a, h, hdot, (Norm2(v) - hdot * hdot) / d, p), h, true)
    case Half(n, rhs) =>
      var h := Dot(n, p) - rhs;
      Row(n, RowBound(mode, g, n, h, Dot(n, v), 0.0, p), h, true)
  }

  /** The right-hand side: second, first or zeroth order, by the plant. */
  function RowBound(mode: ControlMode, g: Gains, a: Vec, h: real, hdot: real, curvature: real, p: Vec): real
    requires g.dt != 0.0
  {
    match mode
    case Effort => -(curvature + g.k1 * hdot + g.k0 * h)
    case Velocity => -h / g.dt
    case Position => Dot(a, p) - h
  }

  /** Where the plant is after one tick of a kinematic command. */
  function NextPose(mode: ControlMode, dt: real, p: Vec, x: Vec): (q: Vec)
    requires |p| == |x|
    ensures |q| == |p|
  {
    match mode
    case Velocity => seq(|p|, i requires 0 <= i < |p| => p[i] + x[i] * dt)
    case Position => x
    case Effort => p
  }

  // ---- A satisfied row makes the next pose safe ------------------------------

  lemma UnitNormal(r: Vec, d: real, a: Vec)
    requires d > 0.0 && d * d == Norm2(r) && |a| == |r|
    requires forall i :: 0 <= i < |a| ==> a[i] == r[i] / d
    ensures Norm2(a) == 1.0 && Dot(a, r) == d
  {
    var s := 1.0 / d;
    assert s * d == 1.0;
    forall i | 0 <= i < |a| ensures a[i] == s * r[i] {
      assert r[i] / d == s * r[i];
    }
    DotMultiple(a, s, r, r);
    Norm2Multiple(a, s, r);
    assert s * (d * d) == (s * d) * d;
  }

  /** Distance from a centre is at least the component along any unit vector. */
  lemma ReachAlongUnit(sqrt: Root, a: Vec, z: Vec)
    requires IsSqrt(sqrt) && |a| == |z| && Norm2(a) == 1.0
    ensures Norm(sqrt, z) >= Dot(a, z)
  {
    NormSquared(sqrt, a);
    SquareOrder(Norm(sqrt, a), 1.0);
    SquareOrder(1.0, Norm(sqrt, a));
    DotBoundedByNorms(sqrt, a, z);
  }

  /** If a barrier's row holds within s at a non-degenerate pose, the realised next
      pose keeps the exact barrier within dt*s (Velocity) or s (Position), in every
      dimension and for both kinds of barrier. */
  lemma RowImpliesSafety(
    sqrt: Root, barrier: Barrier, mode: ControlMode, g: Gains, p: Vec, v: Vec, x: Vec, s: real)
    requires IsSqrt(sqrt) && barrier.Fits(|p|) && |v| == |p| == |x| && g.dt > 0.0
    requires !mode.Effort?
    requires
      var row := EvalBarrier(sqrt, barrier, mode, g, p, v);
      row.ok && Dot(row.a, x) >= row.b - s
    ensures StaticH(sqrt, barrier, |p|, NextPose(mode, g.dt, p, x))
      >= -(if mode.Velocity? then g.dt * s else s)
  {
    hide EvalBarrier, StaticH, Dot, NextPose;
    RowIsSupportingHalfSpace(sqrt, barrier, mode, g, p, v, x, s);
    if barrier.Round? {
      var q := NextPose(mode, g.dt, p, x);
      RoundMoves(sqrt, barrier, mode, g, p, v, q);
    }
  }

  /** The distance to a centre grows by at least the move along the outward normal. */
  lemma RoundMoves(sqrt: Root, barrier: Barrier, mode: ControlMode, g: Gains, p: Vec, v: Vec, q: Vec)
    requires IsSqrt(sqrt) && barrier.Round? && |v| == |p| == |q| && g.dt != 0.0
    requires EvalBarrier(sqrt, barrier, mode, g, p, v).ok
    ensures
      var row := EvalBarrier(sqrt, barrier, mode, g, p, v);
      StaticH(sqrt, barrier, |p|, q) >= row.h + Dot(row.a, q) - Dot(row.a, p)
  {
    hide Norm, Norm2, Dot;
    var row := EvalBarrier(sqrt, barrier, mode, g, p, v);
    var r, z := FromCentre(barrier.center, p, |p|), FromCentre(barrier.center, q, |p|);
    var d := Norm(sqrt, r);
    NormSquared(sqrt, r);
    UnitNormal(r, d, row.a);
    ReachAlongUnit(sqrt, row.a, z);
    assert z == Add(r, Sub(q, p));
    DotAdd(r, Sub(q, p), row.a);
    DotSub(q, p, row.a);
  }

  /** What the row says about the component of the move along its normal. */
  lemma RowMovesTheBarrier(
    mode: ControlMode, g: Gains, p: Vec, x: Vec, a: Vec, b: real, h: real, s: real, q: Vec)
    requires |p| == |x| == |a| && g.dt > 0.0 && !mode.Effort?
    requires b == (if mode.Velocity? then -h / g.dt else Dot(a, p) - h)
    requires q == NextPose(mode, g.dt, p, x)
    ensures Dot(a, x) >= b - s <==> h + Dot(a, q) - Dot(a, p) >= -(if mode.Velocity? then g.dt * s else s)
  {
    if mode.Velocity? {
      DotCombine(q, 1.0, p, g.dt, x, a);
      assert g.dt * (-h / g.dt) == -h;
      var gap := Dot(a, x) - b + s;
      assert g.dt * gap == h + g.dt * Dot(a, x) + g.dt * s;
      SignOfScaled(gap, g.dt);
    }
  }

  lemma SignOfScaled(x: real, n: real)
    requires n > 0.0
    ensures x >= 0.0 <==> n * x >= 0.0
  {}

  /** A kinematic row within s is exactly the supporting half-space of the safe set
      at p: the barrier value there plus the move along the outward normal stays at or
      above -dt*s (Velocity) or -s (Position). For a half-space barrier that is its
      exact value at the next pose. */
  lemma RowIsSupportingHalfSpace(
    sqrt: Root, barrier: Barrier, mode: ControlMode, g: Gains, p: Vec, v: Vec, x: Vec, s: real)
    requires barrier.Fits(|p|) && |v| == |p| == |x| && g.dt > 0.0 && !mode.Effort?
    requires EvalBarrier(sqrt, barrier, mode, g, p, v).ok
    ensures
      var row, q := EvalBarrier(sqrt, barrier, mode, g, p, v), NextPose(mode, g.dt, p, x);
      var bound := -(if mode.Velocity? then g.dt * s else s);
      && row.h == StaticH(sqrt, barrier, |p|, p)
      && (Dot(row.a, x) >= row.b - s <==> row.h + Dot(row.a, q) - Dot(row.a, p) >= bound)
      && (barrier.Half? ==> (Dot(row.a, x) >= row.b - s <==> StaticH(sqrt, barrier, |p|, q) >= bound))
  {
    var row := EvalBarrier(sqrt, barrier, mode, g, p, v);
    RowMovesTheBarrier(mode, g, p, x, row.a, row.b, row.h, s, NextPose(mode, g.dt, p, x));
  }

  // ---- The reduction to barriers is sound ------------------------------------

  /** y lies in the region the term keeps out. */
  ghost predicate InRegion(sqrt: Root, t: KeepOutTerm, y: Vec) {
    match t.shape
    case Sphere => |y| == |t.center| && Norm(sqrt, Sub(y, t.center)) <= RadiusOf(t)
    case Box => |y| == |t.center| == |t.halfExtents|
      && forall i :: 0 <= i < |y| ==> -t.halfExtents[i] <= y[i] - t.center[i] <= t.halfExtents[i]
    case HalfSpace => |y| == |t.normal| && Dot(t.normal, y) + OffsetOf(t) <= 0.0
  }

  /** The half-space barrier is the authored margin inequality, divided by the
      length of the normal. */
  lemma HalfSpaceValue(sqrt: Root, t: KeepOutTerm, x: Vec)
    requires IsSqrt(sqrt) && t.shape.HalfSpace? && |x| == |t.normal|
    ensures StaticH(sqrt, FromTerm(sqrt, t, |x|), |x|, x) * NormalLength(sqrt, t)
      == Dot(t.normal, x) + OffsetOf(t) - t.margin
  {
    var n := NormalLength(sqrt, t);
    var b := FromTerm(sqrt, t, |x|);
    NormalDivided(b.normal, t.normal, n, x);
    hide NormalLength, Norm, OffsetOf, Dot;
    assert StaticH(sqrt, b, |x|, x) == Dot(b.normal, x) - (t.margin - OffsetOf(t)) / n;
    hide StaticH, FromTerm;
    DivisionScales(t.margin - OffsetOf(t), n);
    Unscaled(Dot(t.normal, x), t.margin - OffsetOf(t), n);
  }

  lemma NormalDivided(unit: Vec, normal: Vec, n: real, x: Vec)
    requires n > 0.0 && |unit| == |normal| == |x| && forall i :: 0 <= i < |x| ==> unit[i] == normal[i] / n
    ensures Dot(unit, x) == (1.0 / n) * Dot(normal, x)
  {
    forall i | 0 <= i < |x| ensures unit[i] == (1.0 / n) * normal[i] {
      DivisionScales(normal[i], n);
    }
    DotMultiple(unit, 1.0 / n, normal, x);
  }

  lemma DivisionScales(x: real, n: real)
    requires n > 0.0
    ensures x / n == (1.0 / n) * x
  {}

  lemma Unscaled(x: real, y: real, n: real)
    requires n > 0.0
    ensures ((1.0 / n) * x - (1.0 / n) * y) * n == x - y
  {
    var s := 1.0 / n;
    assert s * n == 1.0;
    assert (s * x - s * y) * n == (s * n) * (x - y);
  }

  lemma HalfSpaceExact(sqrt: Root, t: KeepOutTerm, x: Vec)
    requires IsSqrt(sqrt) && t.shape.HalfSpace? && |x| == |t.normal|
    ensures StaticH(sqrt, FromTerm(sqrt, t, |x|), |x|, x) >= 0.0 <==> Dot(t.normal, x) + OffsetOf(t) >= t.margin
  {
    HalfSpaceValue(sqrt, t, x);
    hide StaticH, FromTerm, Norm;
    SignOfProduct(StaticH(sqrt, FromTerm(sqrt, t, |x|), |x|, x), NormalLength(sqrt, t));
  }

  lemma SignOfProduct(h: real, n: real)
    requires n > 0.0
    ensures h >= 0.0 <==> h * n >= 0.0
  {}

  /** Within slack the side is kept to within slack times the length of the normal. */
  lemma HalfSpaceWithin(sqrt: Root, t: KeepOutTerm, x: Vec, slack: real)
    requires IsSqrt(sqrt) && t.shape.HalfSpace? && |x| == |t.normal|
    requires StaticH(sqrt, FromTerm(sqrt, t, |x|), |x|, x) >= -slack
    ensures Dot(t.normal, x) + OffsetOf(t) >= t.margin - slack * NormalLength(sqrt, t)
  {
    HalfSpaceValue(sqrt, t, x);
    var h, n := StaticH(sqrt, FromTerm(sqrt, t, |x|), |x|, x), NormalLength(sqrt, t);
    hide StaticH, FromTerm, Norm;
    SignOfProduct(h + slack, n);
    assert (h + slack) * n == h * n + slack * n;
  }

  /** A point the box or sphere barrier calls safe within slack is at least the
      margin less that slack away from every point of the region. */
  lemma RoundRegionClearance(sqrt: Root, t: KeepOutTerm, x: Vec, y: Vec, slack: real)
    requires IsSqrt(sqrt) && !t.shape.HalfSpace? && |x| == |y| && InRegion(sqrt, t, y)
    requires StaticH(sqrt, FromTerm(sqrt, t, |x|), |x|, x) >= -slack
    ensures Norm(sqrt, Sub(x, y)) >= t.margin - slack
  {
    var out, inner := FromCentre(t.center, x, |x|), Sub(y, t.center);
    assert out == Add(Sub(x, y), inner);
    TriangleInequality(sqrt, Sub(x, y), inner);
    if t.shape.Box? {
      DotNMonotone(inner, t.halfExtents, |x|);
      NormOrder(sqrt, inner, t.halfExtents);
    }
  }

  /** For a half-space the distance kept is the margin divided by the length of the
      authored normal. */
  lemma HalfSpaceClearance(sqrt: Root, t: KeepOutTerm, x: Vec, y: Vec)
    requires IsSqrt(sqrt) && t.shape.HalfSpace? && |x| == |y| && InRegion(sqrt, t, y)
    requires StaticH(sqrt, FromTerm(sqrt, t, |x|), |x|, x) >= 0.0
    ensures Norm(sqrt, t.normal) * Norm(sqrt, Sub(x, y)) >= t.margin
  {
    hide InRegion, StaticH, FromTerm, Norm;
    HalfSpaceGap(sqrt, t, x, y);
    DotBoundedByNorms(sqrt, t.normal, Sub(x, y));
  }

  lemma HalfSpaceGap(sqrt: Root, t: KeepOutTerm, x: Vec, y: Vec)
    requires IsSqrt(sqrt) && t.shape.HalfSpace? && |x| == |y| && InRegion(sqrt, t, y)
    requires StaticH(sqrt, FromTerm(sqrt, t, |x|), |x|, x) >= 0.0
    ensures |t.normal| == |x| && Dot(t.normal, Sub(x, y)) >= t.margin
  {
    hide StaticH, FromTerm, Norm, Dot;
    HalfSpaceExact(sqrt, t, x);
    DotSub(x, y, t.normal);
  }

  /** Every safe point of the term keeps the margin from every point kept out. */
  ghost predicate KeepsMargin(sqrt: Root, t: KeepOutTerm) {
    forall x: Vec, y: Vec ::
      |x| == |y| && InRegion(sqrt, t, y) && StaticH(sqrt, FromTerm(sqrt, t, |x|), |x|, x) >= 0.0
      ==> Norm(sqrt, Sub(x, y)) >= t.margin
  }

  /** The margin is a distance for boxes and spheres. For a half-space, whose normal
      is not checked to be a unit, it is one exactly when the normal is no longer
      than 1. */
  lemma MarginIsADistanceIff(sqrt: Root, t: KeepOutTerm)
    requires IsSqrt(sqrt) && t.margin > 0.0
    ensures KeepsMargin(sqrt, t) <==> (t.shape.HalfSpace? ==> Norm(sqrt, t.normal) <= 1.0)
  {
    if t.shape.HalfSpace? && Norm(sqrt, t.normal) > 1.0 {
      var x, y := LongNormalWitness(sqrt, t);
      assert InRegion(sqrt, t, y);
    } else {
      forall x: Vec, y: Vec | |x| == |y| && InRegion(sqrt, t, y) && StaticH(sqrt, FromTerm(sqrt, t, |x|), |x|, x) >= 0.0
        ensures Norm(sqrt, Sub(x, y)) >= t.margin
      {
        MarginKept(sqrt, t, x, y);
      }
    }
  }

  lemma MarginKept(sqrt: Root, t: KeepOutTerm, x: Vec, y: Vec)
    requires IsSqrt(sqrt) && |x| == |y| && InRegion(sqrt, t, y)
    requires StaticH(sqrt, FromTerm(sqrt, t, |x|), |x|, x) >= 0.0
    requires t.shape.HalfSpace? ==> Norm(sqrt, t.normal) <= 1.0
    ensures Norm(sqrt, Sub(x, y)) >= t.margin
  {
    hide StaticH, FromTerm, InRegion, Norm, NormalLength;
    if t.shape.HalfSpace? {
      HalfSpaceClearance(sqrt, t, x, y);
      NormSquared(sqrt, Sub(x, y));
      ShrinkingFactor(Norm(sqrt, t.normal), Norm(sqrt, Sub(x, y)), t.margin);
    } else {
      RoundRegionClearance(sqrt, t, x, y, 0.0);
    }
  }

  lemma ShrinkingFactor(n: real, d: real, m: real)
    requires n <= 1.0 && d >= 0.0 && n * d >= m
    ensures d >= m
  {
    assert (1.0 - n) * d >= 0.0;
  }

  /** A safe point and a kept-out point closer than the margin. */
  lemma LongNormalWitness(sqrt: Root, t: KeepOutTerm) returns (x: Vec, y: Vec)
    requires IsSqrt(sqrt) && t.shape.HalfSpace? && t.margin > 0.0 && Norm(sqrt, t.normal) > 1.0
    ensures |x| == |y| == |t.normal| && InRegion(sqrt, t, y)
    ensures StaticH(sqrt, FromTerm(sqrt, t, |x|), |x|, x) >= 0.0
    ensures Norm(sqrt, Sub(x, y)) < t.margin
  {
    var nn, n := Norm2(t.normal), Norm(sqrt, t.normal);
    var m, o := t.margin, OffsetOf(t);
    NormSquared(sqrt, t.normal);
    ProductAbove(n);
    var s := m / nn;
    var k := (m - o) / nn;
    assert s * nn == m && k * nn == m - o;
    x := Scale(k, t.normal);
    y := Scale(k - s, t.normal);
    DotScale(k, t.normal, t.normal);
    DotScale(k - s, t.normal, t.normal);
    assert (k - s) * nn == k * nn - s * nn;
    HalfSpaceExact(sqrt, t, x);
    hide StaticH, FromTerm, NormalLength, OffsetOf;
    ScaledGap(k, s, t.normal);
    NormSquared(sqrt, Sub(x, y));
    ShorterThanMargin(m, nn, s, Norm(sqrt, Sub(x, y)));
  }

  lemma ScaledGap(k: real, s: real, a: Vec)
    ensures Norm2(Sub(Scale(k, a), Scale(k - s, a))) == s * s * Norm2(a)
  {
    var gap := Sub(Scale(k, a), Scale(k - s, a));
    forall i | 0 <= i < |a| ensures gap[i] == s * a[i] {
      assert k * a[i] - (k - s) * a[i] == s * a[i];
    }
    Norm2Multiple(gap, s, a);
  }

  lemma ProductAbove(n: real)
    requires n > 1.0
    ensures n * n > 1.0
  {}

  lemma ShorterThanMargin(m: real, nn: real, s: real, d: real)
    requires m > 0.0 && nn > 1.0 && s * nn == m && d >= 0.0 && d * d == s * s * nn
    ensures d < m
  {
    assert s * s * nn == s * (s * nn);
    PositiveFactor(s, nn);
    PositiveProduct(s, nn - 1.0);
    assert s * (nn - 1.0) == s * nn - s;
    PositiveProduct(m, m - s);
    assert m * (m - s) == m * m - m * s;
    SquareOrder(d, m);
  }

  lemma PositiveFactor(s: real, n: real)
    requires n > 0.0 && s * n > 0.0
    ensures s > 0.0
  {}

  lemma PositiveProduct(s: real, n: real)
    requires s > 0.0 && n > 0.0
    ensures s * n > 0.0
  {}
}
