/** What a barrier row means in the Effort channel: the plant is second order, and
    the row bounds the second derivative of the barrier along its motion. */
module EffortRows {
  import opened Numbers
  import opened Vectors
  import opened Barriers

  /** Where the plant is after time t at constant acceleration u. */
  function Drifted(p: Vec, v: Vec, u: Vec, t: real): (q: Vec)
    requires |p| == |v| == |u|
    ensures |q| == |p|
  {
    Add(Add(p, Scale(t, v)), Scale(0.5 * t * t, u))
  }

  /** The quadratic h + c1*t + c2*t^2/2. */
  function Taylor(h: real, c1: real, c2: real, t: real): real { h + c1 * t + 0.5 * c2 * (t * t) }

  /** |a + t b|^2 expanded, and (a + t b).d. */
  lemma NormPlus(c: Vec, a: Vec, t: real, b: Vec, d: Vec)
    requires |a| == |b| == |d| && c == Add(a, Scale(t, b))
    ensures Norm2(c) == Norm2(a) + 2.0 * (t * Dot(a, b)) + t * t * Norm2(b)
    ensures Dot(c, d) == Dot(a, d) + t * Dot(b, d)
  {
    assert Combines(c, 1.0, a, t, b);
    Norm2Combine(c, 1.0, a, t, b);
    DotCombine(c, 1.0, a, t, b, d);
    hide *;
  }

  lemma TwoSteps(r: Vec, v: Vec, u: Vec, t: real, s: real)
    requires |r| == |v| == |u|
    ensures Norm2(Add(Add(r, Scale(t, v)), Scale(s, u)))
      == Norm2(r) + 2.0 * (t * Dot(r, v)) + t * t * Norm2(v) + 2.0 * (s * (Dot(r, u) + t * Dot(v, u))) + s * s * Norm2(u)
  {
    hide Norm2, Dot, Add, Scale;
    var m := Add(r, Scale(t, v));
    NormPlus(m, r, t, v, u);
    NormPlus(Add(m, Scale(s, u)), m, s, u, u);
    SameFactor(s, Dot(m, u), Dot(r, u) + t * Dot(v, u));
  }

  lemma SameFactor(s: real, x: real, y: real)
    requires x == y
    ensures s * x == s * y
  {}

  lemma DriftedNorm(r: Vec, v: Vec, u: Vec, t: real)
    requires |r| == |v| == |u|
    ensures Norm2(Drifted(r, v, u, t)) == Norm2(r) + 2.0 * t * Dot(r, v) + t * t * (Norm2(v) + Dot(r, u))
      + t * t * t * Dot(v, u) + 0.25 * (t * t * t * t) * Norm2(u)
  {
    hide Norm2, Dot, Add, Scale;
    TwoSteps(r, v, u, t, 0.5 * t * t);
    Collect(t, 0.5 * t * t, Norm2(r), Dot(r, v), Norm2(v), Dot(r, u), Dot(v, u), Norm2(u));
  }

  lemma Collect(t: real, s: real, rr: real, rv: real, vv: real, ru: real, vu: real, uu: real)
    requires s == 0.5 * t * t
    ensures rr + 2.0 * (t * rv) + t * t * vv + 2.0 * (s * (ru + t * vu)) + s * s * uu
      == rr + 2.0 * t * rv + t * t * (vv + ru) + t * t * t * vu + 0.25 * (t * t * t * t) * uu
  {
    assert 2.0 * (s * (ru + t * vu)) == t * t * ru + t * t * t * vu;
    assert s * s * uu == 0.25 * (t * t * t * t) * uu;
  }

  predicate AgreesToThirdOrder(squared: real, distance: real, e0: real, e1: real, t: real) {
    squared == distance * distance + t * t * t * (e0 + e1 * t)
  }

  lemma SquareOfTaylor(d: real, c1: real, c2: real, t: real, rr: real, rv: real, q2: real, vu: real, uu: real,
                       squared: real, e0: real, e1: real)
    requires rr == d * d && rv == d * c1 && q2 == c1 * c1 + d * c2
    requires squared == rr + 2.0 * t * rv + t * t * q2 + t * t * t * vu + 0.25 * (t * t * t * t) * uu
    requires e0 == vu - c1 * c2 && e1 == 0.25 * (uu - c2 * c2)
    ensures AgreesToThirdOrder(squared, Taylor(d, c1, c2, t), e0, e1, t)
  {
    TaylorSquared(d, c1, c2, t);
    Remainder(t, e0, e1, vu, c1 * c2, uu, c2 * c2);
    hide *;
    Assembled(t, d * d, d * c1, c1 * c1, d * c2);
  }

  lemma Assembled(t: real, dd: real, dc1: real, c1c1: real, dc2: real)
    ensures 2.0 * t * dc1 == 2.0 * dc1 * t && t * t * (c1c1 + dc2) == (c1c1 + dc2) * (t * t)
  {}

  lemma SquareOfSum(d: real, a: real, w: real)
    ensures (d + a + w) * (d + a + w) == d * d + a * a + w * w + 2.0 * (d * a) + 2.0 * (d * w) + 2.0 * (a * w)
  {}

  lemma TaylorSquared(d: real, c1: real, c2: real, t: real)
    ensures Taylor(d, c1, c2, t) * Taylor(d, c1, c2, t)
      == d * d + 2.0 * (d * c1) * t + (c1 * c1 + d * c2) * (t * t) + t * t * t * (c1 * c2)
         + 0.25 * (t * t * t * t) * (c2 * c2)
  {
    var w := 0.5 * c2 * (t * t);
    SquareOfSum(d, c1 * t, w);
    assert c1 * t * (c1 * t) == c1 * c1 * (t * t);
    assert w * w == 0.25 * (t * t * t * t) * (c2 * c2);
    assert d * w == 0.5 * (d * c2) * (t * t);
    assert c1 * t * w == 0.5 * (t * t * t * (c1 * c2));
  }

  lemma Remainder(t: real, e0: real, e1: real, vu: real, cc: real, uu: real, c2c2: real)
    requires e0 == vu - cc && e1 == 0.25 * (uu - c2c2)
    ensures t * t * t * (e0 + e1 * t)
      == t * t * t * vu - t * t * t * cc + 0.25 * (t * t * t * t) * uu - 0.25 * (t * t * t * t) * c2c2
  {
    var t3 := t * t * t;
    assert t3 * (e0 + e1 * t) == t3 * e0 + e1 * (t3 * t);
  }

  /** Value, slope and curvature of the barrier along the motion from (p, v) under u:
      for a half-space they give the barrier itself, for a round one the distance
      they give squares to the true squared distance up to third order in time. */
  ghost predicate IsJet(barrier: Barrier, p: Vec, v: Vec, u: Vec, h: real, c1: real, c2: real)
    requires |p| == |v| == |u| && barrier.Fits(|p|)
  {
    match barrier
    case Half(n, rhs) => forall t: real :: Dot(n, Drifted(p, v, u, t)) - rhs == Taylor(h, c1, c2, t)
    case Round(c, radius) => IsDistanceJet(c, p, v, u, h + radius, c1, c2)
  }

  ghost predicate IsDistanceJet(c: Vec, p: Vec, v: Vec, u: Vec, d: real, c1: real, c2: real)
    requires |p| == |v| == |u|
  {
    exists e0: real, e1: real :: DistanceJet(c, p, v, u, d, c1, c2, e0, e1)
  }

  ghost predicate DistanceJet(c: Vec, p: Vec, v: Vec, u: Vec, d: real, c1: real, c2: real, e0: real, e1: real)
    requires |p| == |v| == |u|
  {
    forall t: real ::
      AgreesToThirdOrder(Norm2(FromCentre(c, Drifted(p, v, u, t), |p|)), Taylor(d, c1, c2, t), e0, e1, t)
  }

  /** The row's h is the static barrier value, (h, c1, c2) is the jet of the barrier
      along the motion, and by how much the row holds is the second-order expression in
      that jet. */
  ghost predicate RowMeans(sqrt: Root, barrier: Barrier, g: Gains, p: Vec, v: Vec, u: Vec, c1: real, c2: real)
    requires barrier.Fits(|p|) && |v| == |p| == |u| && g.dt != 0.0
  {
    var row := EvalBarrier(sqrt, barrier, Effort, g, p, v);
    && row.h == StaticH(sqrt, barrier, |p|, p)
    && IsJet(barrier, p, v, u, row.h, c1, c2)
    && Dot(row.a, u) - row.b == c2 + g.k1 * c1 + g.k0 * row.h
  }

  /** At a non-degenerate pose the Effort row holds, within any slack, exactly when
      slope c1 and curvature c2 of the barrier satisfy c2 + k1*c1 + k0*h >= 0 within
      it, h being the static barrier value there. */
  lemma EffortRowIsSecondOrder(sqrt: Root, barrier: Barrier, g: Gains, p: Vec, v: Vec, u: Vec)
    returns (c1: real, c2: real)
    requires IsSqrt(sqrt) && barrier.Fits(|p|) && |v| == |p| == |u| && g.dt != 0.0
    requires EvalBarrier(sqrt, barrier, Effort, g, p, v).ok
    ensures RowMeans(sqrt, barrier, g, p, v, u, c1, c2)
  {
    hide EvalBarrier, RowMeans;
    match barrier
    case Half(n, rhs) => c1, c2 := HalfMeaning(sqrt, n, rhs, g, p, v, u);
    case Round(c, radius) => c1, c2 := RoundMeaning(sqrt, c, radius, g, p, v, u);
  }

  lemma HalfMeaning(sqrt: Root, n: Vec, rhs: real, g: Gains, p: Vec, v: Vec, u: Vec) returns (c1: real, c2: real)
    requires |n| == |p| == |v| == |u| && g.dt != 0.0
    ensures RowMeans(sqrt, Half(n, rhs), g, p, v, u, c1, c2)
  {
    hide EvalBarrier, Dot, StaticH, IsJet;
    HalfRow(sqrt, n, rhs, g, p, v);
    RowValue(sqrt, Half(n, rhs), g, p, v);
    c1, c2 := Dot(n, v), Dot(n, u);
    HalfJet(n, rhs, p, v, u);
    ExcessOfRow(Dot(n, u), EvalBarrier(sqrt, Half(n, rhs), Effort, g, p, v), 0.0, c1, c2, g);
  }

  lemma RoundMeaning(sqrt: Root, c: Vec, radius: real, g: Gains, p: Vec, v: Vec, u: Vec)
    returns (c1: real, c2: real)
    requires IsSqrt(sqrt) && |p| == |v| == |u| && g.dt != 0.0
    requires EvalBarrier(sqrt, Round(c, radius), Effort, g, p, v).ok
    ensures RowMeans(sqrt, Round(c, radius), g, p, v, u, c1, c2)
  {
    hide EvalBarrier, Norm2, Dot, Norm, IsSqrt, StaticH, IsJet;
    RowValue(sqrt, Round(c, radius), g, p, v);
    var row := EvalBarrier(sqrt, Round(c, radius), Effort, g, p, v);
    var curvature: real;
    c1, curvature := RoundRow(sqrt, c, radius, g, p, v);
    c2 := curvature + Dot(row.a, u);
    RoundJet(c, radius, p, v, u, Norm(sqrt, FromCentre(c, p, |p|)), row.a, c1, curvature, c2);
    ExcessOfRow(Dot(row.a, u), row, curvature, c1, c2, g);
  }

  lemma ExcessOfRow(au: real, row: Row, curvature: real, c1: real, c2: real, g: Gains)
    requires c2 == curvature + au && row.b == -(curvature + g.k1 * c1 + g.k0 * row.h)
    ensures au - row.b == c2 + g.k1 * c1 + g.k0 * row.h
  {}

  lemma HalfRow(sqrt: Root, n: Vec, rhs: real, g: Gains, p: Vec, v: Vec)
    requires |n| == |v| == |p| && g.dt != 0.0
    ensures
      var row := EvalBarrier(sqrt, Half(n, rhs), Effort, g, p, v);
      row.ok && row.a == n && row.h == Dot(n, p) - rhs && row.b == -(0.0 + g.k1 * Dot(n, v) + g.k0 * row.h)
  {}

  lemma RowValue(sqrt: Root, barrier: Barrier, g: Gains, p: Vec, v: Vec)
    requires barrier.Fits(|p|) && |v| == |p| && g.dt != 0.0
    requires EvalBarrier(sqrt, barrier, Effort, g, p, v).ok
    ensures EvalBarrier(sqrt, barrier, Effort, g, p, v).h == StaticH(sqrt, barrier, |p|, p)
  {}

  lemma RoundRow(sqrt: Root, c: Vec, radius: real, g: Gains, p: Vec, v: Vec)
    returns (hdot: real, curvature: real)
    requires IsSqrt(sqrt) && |v| == |p| && g.dt != 0.0
    requires EvalBarrier(sqrt, Round(c, radius), Effort, g, p, v).ok
    ensures
      var row, r := EvalBarrier(sqrt, Round(c, radius), Effort, g, p, v), FromCentre(c, p, |p|);
      var d := Norm(sqrt, r);
      && d > 0.0 && d * d == Norm2(r) && (forall i :: 0 <= i < |r| ==> r[i] == d * row.a[i])
      && row.h == d - radius
      && row.b == -(curvature + g.k1 * hdot + g.k0 * row.h)
      && hdot == Dot(row.a, v) && curvature == (Norm2(v) - hdot * hdot) / d
  {
    hide Norm2, Dot, Norm, IsSqrt;
    var row, r := EvalBarrier(sqrt, Round(c, radius), Effort, g, p, v), FromCentre(c, p, |p|);
    var d := Norm(sqrt, r);
    NormSquared(sqrt, r);
    hdot := Dot(row.a, v);
    curvature := (Norm2(v) - hdot * hdot) / d;
    forall i | 0 <= i < |r| ensures r[i] == d * row.a[i] {
      Undivided(r[i], d);
    }
  }

  lemma Undivided(x: real, d: real)
    requires d > 0.0
    ensures x == d * (x / d)
  {}

  lemma HalfJet(n: Vec, rhs: real, p: Vec, v: Vec, u: Vec)
    requires |n| == |p| == |v| == |u|
    ensures IsJet(Half(n, rhs), p, v, u, Dot(n, p) - rhs, Dot(n, v), Dot(n, u))
  {
    hide Dot, Taylor, Drifted;
    forall t: real
      ensures Dot(n, Drifted(p, v, u, t)) - rhs == Taylor(Dot(n, p) - rhs, Dot(n, v), Dot(n, u), t)
    {
      HalfAt(n, rhs, p, v, u, t);
    }
  }

  lemma HalfAt(n: Vec, rhs: real, p: Vec, v: Vec, u: Vec, t: real)
    requires |n| == |p| == |v| == |u|
    ensures Dot(n, Drifted(p, v, u, t)) - rhs == Taylor(Dot(n, p) - rhs, Dot(n, v), Dot(n, u), t)
  {
    hide Dot, Taylor, Drifted;
    DriftedDot(p, v, u, t, n);
    LinearTaylor(Dot(n, p), rhs, Dot(n, v), Dot(n, u), t);
  }

  lemma DriftedDot(p: Vec, v: Vec, u: Vec, t: real, n: Vec)
    requires |n| == |p| == |v| == |u|
    ensures Dot(n, Drifted(p, v, u, t)) == Dot(n, p) + t * Dot(n, v) + 0.5 * t * t * Dot(n, u)
  {
    hide Dot, Norm2;
    var m := Add(p, Scale(t, v));
    NormPlus(m, p, t, v, n);
    NormPlus(Drifted(p, v, u, t), m, 0.5 * t * t, u, n);
    DotSym(n, p);
    DotSym(n, v);
    DotSym(n, u);
    DotSym(n, Drifted(p, v, u, t));
  }

  lemma LinearTaylor(h: real, rhs: real, c1: real, c2: real, t: real)
    ensures h + t * c1 + 0.5 * t * t * c2 - rhs == Taylor(h - rhs, c1, c2, t)
  {}

  lemma RoundJet(c: Vec, radius: real, p: Vec, v: Vec, u: Vec, d: real, a: Vec, c1: real, curvature: real, c2: real)
    requires |p| == |v| == |u| == |a| && d > 0.0
    requires
      var r := FromCentre(c, p, |p|);
      && d * d == Norm2(r) && (forall i :: 0 <= i < |a| ==> r[i] == d * a[i])
      && c1 == Dot(a, v) && curvature == (Norm2(v) - c1 * c1) / d && c2 == curvature + Dot(a, u)
    ensures IsJet(Round(c, radius), p, v, u, d - radius, c1, c2)
  {
    hide Norm2, Dot, Taylor, AgreesToThirdOrder, Drifted, FromCentre;
    var r := FromCentre(c, p, |p|);
    DotMultiple(r, d, a, v);
    DotMultiple(r, d, a, u);
    Curved(d, Norm2(v), c1, Dot(a, u), c2);
    var e0, e1 := Dot(v, u) - c1 * c2, 0.25 * (Norm2(u) - c2 * c2);
    assert d - radius + radius == d;
    forall t: real
      ensures AgreesToThirdOrder(Norm2(FromCentre(c, Drifted(p, v, u, t), |p|)), Taylor(d, c1, c2, t), e0, e1, t)
    {
      OffsetDrifts(c, p, v, u, t);
      RoundAt(r, v, u, t, d, c1, c2, e0, e1);
    }
    assert DistanceJet(c, p, v, u, d, c1, c2, e0, e1);
  }

  lemma RoundAt(r: Vec, v: Vec, u: Vec, t: real, d: real, c1: real, c2: real, e0: real, e1: real)
    requires |r| == |v| == |u| && Norm2(r) == d * d && Dot(r, v) == d * c1
    requires Norm2(v) + Dot(r, u) == c1 * c1 + d * c2
    requires e0 == Dot(v, u) - c1 * c2 && e1 == 0.25 * (Norm2(u) - c2 * c2)
    ensures AgreesToThirdOrder(Norm2(Drifted(r, v, u, t)), Taylor(d, c1, c2, t), e0, e1, t)
  {
    hide Norm2, Dot, Taylor, AgreesToThirdOrder, Drifted;
    DriftedNorm(r, v, u, t);
    SquareOfTaylor(d, c1, c2, t, Norm2(r), Dot(r, v), Norm2(v) + Dot(r, u), Dot(v, u), Norm2(u),
      Norm2(Drifted(r, v, u, t)), e0, e1);
  }

  lemma OffsetDrifts(c: Vec, p: Vec, v: Vec, u: Vec, t: real)
    requires |p| == |v| == |u|
    ensures FromCentre(c, Drifted(p, v, u, t), |p|) == Drifted(FromCentre(c, p, |p|), v, u, t)
  {}

  lemma Curved(d: real, vv: real, c1: real, au: real, c2: real)
    requires d > 0.0 && c2 == (vv - c1 * c1) / d + au
    ensures vv + d * au == c1 * c1 + d * c2
  {
    assert d * ((vv - c1 * c1) / d) == vv - c1 * c1;
  }
}
