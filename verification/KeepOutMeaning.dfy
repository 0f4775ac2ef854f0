/** What the reduction of a keep-out to a barrier keeps, exactly: the sphere with its
    margin, the smallest sphere around a box, the unit normal of a half-space. */
module KeepOutMeaning {
  import opened Wrappers
  import opened Numbers
  import opened Vectors
  import opened SafetyModel
  import opened Barriers

  /** A sphere's barrier is the distance to its centre less radius and margin, so it is
      non-negative exactly from radius + margin out. */
  lemma SphereIsExact(sqrt: Root, t: KeepOutTerm, x: Vec)
    requires t.shape.Sphere? && t.radius.Some? && |x| == |t.center|
    ensures StaticH(sqrt, FromTerm(sqrt, t, |x|), |x|, x) == sqrt(Norm2(Sub(x, t.center))) - (t.radius.value + t.margin)
  {
    assert FromCentre(t.center, x, |x|) == Sub(x, t.center);
  }

  /** A box's barrier is that of the sphere through its corners. */
  lemma BoxIsItsSphere(sqrt: Root, t: KeepOutTerm, x: Vec)
    requires t.shape.Box? && |x| == |t.center|
    ensures StaticH(sqrt, FromTerm(sqrt, t, |x|), |x|, x)
      == sqrt(Norm2(Sub(x, t.center))) - (sqrt(Norm2(t.halfExtents)) + t.margin)
  {
    assert FromCentre(t.center, x, |x|) == Sub(x, t.center);
  }

  /** Every point of the box is within r of z. */
  ghost predicate EnclosesBox(sqrt: Root, center: Vec, half: Vec, z: Vec, r: real)
    requires |center| == |half| == |z|
  {
    forall y: Vec :: InBox(center, half, y) ==> Norm(sqrt, Sub(y, z)) <= r
  }

  predicate InBox(center: Vec, half: Vec, y: Vec)
    requires |center| == |half|
  {
    |y| == |center| && forall i :: 0 <= i < |y| ==> center[i] - half[i] <= y[i] <= center[i] + half[i]
  }

  /** No sphere around the box, about any centre, is smaller than that one. */
  lemma BoxSphereIsSmallest(sqrt: Root, center: Vec, half: Vec)
    requires IsSqrt(sqrt) && |center| == |half| && forall i :: 0 <= i < |half| ==> half[i] >= 0.0
    ensures EnclosesBox(sqrt, center, half, center, Norm(sqrt, half))
    ensures forall z: Vec, r: real :: |z| == |center| && EnclosesBox(sqrt, center, half, z, r) ==> r >= Norm(sqrt, half)
  {
    forall y: Vec | InBox(center, half, y) ensures Norm(sqrt, Sub(y, center)) <= Norm(sqrt, half) {
      DotNMonotone(Sub(y, center), half, |y|);
      NormOrder(sqrt, Sub(y, center), half);
    }
    forall z: Vec, r: real | |z| == |center| && EnclosesBox(sqrt, center, half, z, r) ensures r >= Norm(sqrt, half) {
      CornersSpan(sqrt, center, half, z, r);
    }
  }

  /** Two opposite corners are twice the half-diagonal apart. */
  lemma CornersSpan(sqrt: Root, center: Vec, half: Vec, z: Vec, r: real)
    requires IsSqrt(sqrt) && |center| == |half| == |z| && forall i :: 0 <= i < |half| ==> half[i] >= 0.0
    requires EnclosesBox(sqrt, center, half, z, r)
    ensures r >= Norm(sqrt, half)
  {
    var far, near := Add(center, half), Sub(center, half);
    assert InBox(center, half, far) && InBox(center, half, near);
    var a, b := Sub(far, z), Sub(near, z);
    Doubled(sqrt, half, a, b);
    OppositeNorm(sqrt, b);
    TriangleInequality(sqrt, a, Scale(-1.0, b));
    assert Add(a, Scale(-1.0, b)) == Sub(a, b);
  }

  lemma Doubled(sqrt: Root, half: Vec, a: Vec, b: Vec)
    requires IsSqrt(sqrt) && |a| == |b| == |half| && forall i :: 0 <= i < |half| ==> a[i] - b[i] == 2.0 * half[i]
    ensures Norm(sqrt, Sub(a, b)) == 2.0 * Norm(sqrt, half)
  {
    assert Multiple(Sub(a, b), 2.0, half);
    Norm2Multiple(Sub(a, b), 2.0, half);
    NormSquared(sqrt, Sub(a, b));
    NormSquared(sqrt, half);
    var n := Norm(sqrt, half);
    hide Norm, Norm2;
    assert (2.0 * n) * (2.0 * n) == 2.0 * 2.0 * (n * n);
    SquareOrder(Norm(sqrt, Sub(a, b)), 2.0 * n);
    SquareOrder(2.0 * n, Norm(sqrt, Sub(a, b)));
  }

  lemma OppositeNorm(sqrt: Root, b: Vec)
    ensures Norm(sqrt, Scale(-1.0, b)) == Norm(sqrt, b)
  {
    Norm2Multiple(Scale(-1.0, b), -1.0, b);
  }

  /** A half-space's barrier has a unit normal along the authored one and an offset
      scaled alike, unless the authored normal is shorter than the least positive
      float; then it is divided by that. */
  lemma HalfSpaceIsNormalised(sqrt: Root, t: KeepOutTerm, dim: nat)
    requires IsSqrt(sqrt) && t.shape.HalfSpace? && |t.normal| == dim && t.offset.Some?
    ensures
      var b, len := FromTerm(sqrt, t, dim), sqrt(Norm2(t.normal));
      var n := if len <= 2.2250738585072014e-308 then 2.2250738585072014e-308 else len;
      && b.Half? && |b.normal| == dim && (forall i :: 0 <= i < dim ==> b.normal[i] * n == t.normal[i])
      && b.rhs * n == t.margin - t.offset.value
      && (len > 2.2250738585072014e-308 ==> Norm2(b.normal) == 1.0)
  {
    var b, n := FromTerm(sqrt, t, dim), NormalLength(sqrt, t);
    Restored(t.margin - t.offset.value, n);
    assert b.rhs == (t.margin - t.offset.value) / n;
    forall i | 0 <= i < dim ensures b.normal[i] == t.normal[i] / n {}
    hide FromTerm;
    DividedNormal(b.normal, t.normal, n);
    if Norm(sqrt, t.normal) > 2.2250738585072014e-308 {
      NormSquared(sqrt, t.normal);
      hide Norm2;
      UnitLength(n, Norm2(t.normal), Norm2(b.normal));
    }
  }

  lemma DividedNormal(unit: Vec, normal: Vec, n: real)
    requires n > 0.0 && |unit| == |normal| && forall i :: 0 <= i < |unit| ==> unit[i] == normal[i] / n
    ensures forall i :: 0 <= i < |unit| ==> unit[i] * n == normal[i]
    ensures Norm2(unit) == (1.0 / n) * (1.0 / n) * Norm2(normal)
  {
    forall i | 0 <= i < |unit| ensures unit[i] * n == normal[i] && unit[i] == (1.0 / n) * normal[i] {
      DivisionScales(normal[i], n);
      Restored(normal[i], n);
    }
    Norm2Multiple(unit, 1.0 / n, normal);
  }

  lemma Restored(x: real, n: real)
    requires n > 0.0
    ensures x / n * n == x
  {}

  lemma UnitLength(n: real, nn: real, bb: real)
    requires n > 0.0 && n * n == nn && bb == (1.0 / n) * (1.0 / n) * nn
    ensures bb == 1.0
  {
    var s := 1.0 / n;
    assert s * n == 1.0;
    assert s * s * (n * n) == (s * n) * (s * n);
  }
}
