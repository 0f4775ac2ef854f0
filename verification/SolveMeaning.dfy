/** What a solve answers and when it certifies, in terms of the shield's own
    configuration and of nothing it computes on the way. */
module SolveMeaning {
  import opened Wrappers
  import opened Numbers
  import opened Vectors
  import opened SafetyModel
  import opened Barriers
  import opened EffortRows
  import opened Projections
  import opened Shields
  import opened ShieldTheorems

  /** The first n components are there and finite. */
  predicate Reaches(xs: seq<Float>, n: nat) {
    |xs| >= n && forall i :: 0 <= i < n ==> xs[i].Finite?
  }

  /** The vector the first n components spell. */
  predicate Spells(xs: seq<Float>, x: Vec) {
    Reaches(xs, |x|) && forall i :: 0 <= i < |x| ==> xs[i].r == x[i]
  }

  lemma GoodVectorIff(xs: seq<Float>, n: nat)
    ensures GoodVector(xs, n) <==> Reaches(xs, n)
    ensures Reaches(xs, n) ==> Spells(xs, Values(xs, n))
  {
    if |xs| >= n {
      assert forall i :: 0 <= i < n ==> xs[..n][i] == xs[i];
    }
  }

  /** A pose a barrier has a usable normal at: not within 1e-9 of a centre. */
  ghost predicate IsUsableFor(sqrt: Root, barrier: Barrier, p: Vec) {
    barrier.Round? ==> Norm(sqrt, FromCentre(barrier.center, p, |p|)) >= 1e-9
  }

  // ---- Malformed and degenerate input -------------------------------------------------

  /** A short or non-finite vector is refused, its margin minus infinity; a pose at a
      centre is refused too. Either way the proposal comes back, cut to length. */
  lemma UnusableIsRefused(par: Params, mode: ControlMode, p: seq<Float>, v: seq<Float>, x0: seq<Float>)
    requires par.Ok()
    ensures
      var out, n := Solve(par, mode, p, v, x0), par.dim;
      && (!Reaches(p, n) || !Reaches(v, n) || !Reaches(x0, n) ==>
          !out.certified && out.minH.NegInf? && out.action == x0[..if |x0| < n then |x0| else n])
      && (Reaches(p, n) && Reaches(v, n) && Reaches(x0, n)
          && (exists i :: 0 <= i < |par.barriers| && !IsUsableFor(par.sqrt, par.barriers[i], Values(p, n))) ==>
          !out.certified && out.action == x0[..n])
  {
    var n := par.dim;
    GoodVectorIff(p, n);
    GoodVectorIff(v, n);
    GoodVectorIff(x0, n);
    if Reaches(p, n) && Reaches(v, n) && Reaches(x0, n) {
      DegenerateIff(par, mode, Values(p, n), Values(v, n));
    }
    hide Rows, NoneDegenerate, Budgeted, Certified, MinMargin;
  }

  lemma DegenerateIff(par: Params, mode: ControlMode, p: Vec, v: Vec)
    requires par.Ok() && |p| == |v| == par.dim
    ensures NoneDegenerate(Rows(par, mode, p, v)) <==>
      forall i :: 0 <= i < |par.barriers| ==> IsUsableFor(par.sqrt, par.barriers[i], p)
  {
    var rows := Rows(par, mode, p, v);
    forall i | 0 <= i < |par.barriers| ensures rows[i].ok <==> IsUsableFor(par.sqrt, par.barriers[i], p) {}
  }

  /** The value a barrier is reported with: the static one, or minus the radius at the
      centre. */
  function ReportedValue(sqrt: Root, barrier: Barrier, p: Vec): real
    requires barrier.Fits(|p|)
  {
    if barrier.Round? && Norm(sqrt, FromCentre(barrier.center, p, |p|)) < 1e-9 then -barrier.radius
    else StaticH(sqrt, barrier, |p|, p)
  }

  /** The margin of a well-formed solve is the least of the reported values, plus
      infinity without barriers. */
  lemma MarginIsLeastReported(par: Params, mode: ControlMode, p: seq<Float>, v: seq<Float>, x0: seq<Float>)
    requires par.Ok() && Reaches(p, par.dim) && Reaches(v, par.dim) && Reaches(x0, par.dim)
    ensures
      var minH, pose := Solve(par, mode, p, v, x0).minH, Values(p, par.dim);
      && (par.barriers == [] ==> minH.PosInf?)
      && (par.barriers != [] ==>
          && minH.Fin?
          && (exists i :: 0 <= i < |par.barriers| && minH.v == ReportedValue(par.sqrt, par.barriers[i], pose))
          && forall i :: 0 <= i < |par.barriers| ==> minH.v <= ReportedValue(par.sqrt, par.barriers[i], pose))
  {
    GoodVectorIff(p, par.dim);
    GoodVectorIff(v, par.dim);
    GoodVectorIff(x0, par.dim);
    var pose, vel := Values(p, par.dim), Values(v, par.dim);
    var rows := Rows(par, mode, pose, vel);
    forall i | 0 <= i < |rows| ensures rows[i].h == ReportedValue(par.sqrt, par.barriers[i], pose) {}
    MinMarginIsLeast(rows, |rows|);
    hide EvalBarrier, ReportedValue, Budgeted, Certified, NoneDegenerate;
    assert Solve(par, mode, p, v, x0).minH == MinMargin(rows, |rows|);
    if |rows| > 0 {
      var i :| 0 <= i < |rows| && MinMargin(rows, |rows|) == Fin(rows[i].h);
      hide MinMargin;
    }
  }

  // ---- The answer ------------------------------------------------------------------------

  function CycleTimes(sqrt: Root, sets: seq<Convex>, it: Iterate, n: nat): (r: Iterate)
    requires Sized(sets, it)
    ensures Sized(sets, r) && |r.x| == |it.x|
  {
    if n == 0 then it else Cycle(sqrt, sets, CycleTimes(sqrt, sets, it, n - 1))
  }

  /** Cycle n moved the point by less than tol, to where every row holds within tol. */
  ghost predicate EndsAt(sqrt: Root, sets: seq<Convex>, rows: seq<Row>, tol: real, it: Iterate, n: nat)
    requires Sized(sets, it) && n > 0
  {
    var x, before := CycleTimes(sqrt, sets, it, n).x, CycleTimes(sqrt, sets, it, n - 1).x;
    && Norm2(Sub(x, before)) < tol * tol
    && forall j :: 0 <= j < |rows| ==> Dot(rows[j].a, x) >= rows[j].b - tol
  }

  lemma {:induction false} CycleFirst(sqrt: Root, sets: seq<Convex>, it: Iterate, n: nat)
    requires Sized(sets, it)
    ensures CycleTimes(sqrt, sets, Cycle(sqrt, sets, it), n) == CycleTimes(sqrt, sets, it, n + 1)
  {
    hide Cycle;
    if n > 0 {
      CycleFirst(sqrt, sets, it, n - 1);
    }
  }

  /** r is the n-th cycle end, the first that meets the stop test or the last in the budget. */
  ghost predicate RanUntil(
    sqrt: Root, sets: seq<Convex>, rows: seq<Row>, tol: real, it: Iterate, budget: nat, n: nat, r: Iterate)
    requires Sized(sets, it)
  {
    && n <= budget && r == CycleTimes(sqrt, sets, it, n)
    && (n == budget || (n > 0 && EndsAt(sqrt, sets, rows, tol, it, n)))
    && forall m: nat :: 0 < m < n ==> !EndsAt(sqrt, sets, rows, tol, it, m)
  }

  /** The loop runs cycle after cycle, and ends with the first that meets the stop test,
      or with the budget. */
  lemma {:induction false} LoopEndsAtFirstStop(
    sqrt: Root, sets: seq<Convex>, rows: seq<Row>, tol: real, it: Iterate, budget: nat) returns (n: nat)
    requires Sized(sets, it)
    ensures RanUntil(sqrt, sets, rows, tol, it, budget, n, Budgeted(sqrt, sets, rows, tol, it, budget))
    decreases budget
  {
    hide Cycle, Stops, RanUntil;
    n := 0;
    if budget == 0 {
      RanNothing(sqrt, sets, rows, tol, it);
    } else {
      var next := Cycle(sqrt, sets, it);
      if Stops(rows, tol, it.x, next.x) {
        n := 1;
        RanOnce(sqrt, sets, rows, tol, it, budget);
      } else {
        var k := LoopEndsAtFirstStop(sqrt, sets, rows, tol, next, budget - 1);
        n := k + 1;
        RanOn(sqrt, sets, rows, tol, it, budget, k, Budgeted(sqrt, sets, rows, tol, next, budget - 1));
      }
    }
  }

  lemma RanNothing(sqrt: Root, sets: seq<Convex>, rows: seq<Row>, tol: real, it: Iterate)
    requires Sized(sets, it)
    ensures RanUntil(sqrt, sets, rows, tol, it, 0, 0, it)
  {}

  lemma RanOnce(sqrt: Root, sets: seq<Convex>, rows: seq<Row>, tol: real, it: Iterate, budget: nat)
    requires Sized(sets, it) && budget > 0 && Stops(rows, tol, it.x, Cycle(sqrt, sets, it).x)
    ensures RanUntil(sqrt, sets, rows, tol, it, budget, 1, Cycle(sqrt, sets, it))
  {
    StopsIffEnds(sqrt, sets, rows, tol, it);
    FirstCycles(sqrt, sets, it);
    hide Cycle, Stops, EndsAt, CycleTimes;
  }

  lemma RanOn(sqrt: Root, sets: seq<Convex>, rows: seq<Row>, tol: real, it: Iterate, budget: nat, k: nat, r: Iterate)
    requires Sized(sets, it) && budget > 0 && !Stops(rows, tol, it.x, Cycle(sqrt, sets, it).x)
    requires RanUntil(sqrt, sets, rows, tol, Cycle(sqrt, sets, it), budget - 1, k, r)
    ensures RanUntil(sqrt, sets, rows, tol, it, budget, k + 1, r)
  {
    StopsIffEnds(sqrt, sets, rows, tol, it);
    hide Cycle, Stops, EndsAt, CycleTimes;
    CycleFirst(sqrt, sets, it, k);
    EndsLater(sqrt, sets, rows, tol, it, k);
    NotBefore(sqrt, sets, rows, tol, it, k);
  }

  lemma FirstCycles(sqrt: Root, sets: seq<Convex>, it: Iterate)
    requires Sized(sets, it)
    ensures CycleTimes(sqrt, sets, it, 0) == it && CycleTimes(sqrt, sets, it, 1) == Cycle(sqrt, sets, it)
  {
    hide Cycle;
  }

  lemma NotBefore(sqrt: Root, sets: seq<Convex>, rows: seq<Row>, tol: real, it: Iterate, k: nat)
    requires Sized(sets, it) && !EndsAt(sqrt, sets, rows, tol, it, 1)
    requires forall m: nat :: 0 < m < k ==> !EndsAt(sqrt, sets, rows, tol, Cycle(sqrt, sets, it), m)
    ensures forall m: nat :: 0 < m < k + 1 ==> !EndsAt(sqrt, sets, rows, tol, it, m)
  {
    hide Cycle, EndsAt;
    forall m: nat | 1 < m < k + 1 ensures !EndsAt(sqrt, sets, rows, tol, it, m) {
      var j: nat := m - 1;
      EndsLater(sqrt, sets, rows, tol, it, j);
    }
  }

  lemma StopsIffEnds(sqrt: Root, sets: seq<Convex>, rows: seq<Row>, tol: real, it: Iterate)
    requires Sized(sets, it)
    ensures Stops(rows, tol, it.x, Cycle(sqrt, sets, it).x) <==> EndsAt(sqrt, sets, rows, tol, it, 1)
  {
    hide Cycle;
    assert CycleTimes(sqrt, sets, it, 0) == it && CycleTimes(sqrt, sets, it, 1) == Cycle(sqrt, sets, it);
  }

  lemma EndsLater(sqrt: Root, sets: seq<Convex>, rows: seq<Row>, tol: real, it: Iterate, m: nat)
    requires Sized(sets, it)
    ensures m > 0 ==>
      (EndsAt(sqrt, sets, rows, tol, Cycle(sqrt, sets, it), m) <==> EndsAt(sqrt, sets, rows, tol, it, m + 1))
  {
    if m > 0 {
      CycleFirst(sqrt, sets, it, m);
      CycleFirst(sqrt, sets, it, m - 1);
      hide Cycle, CycleTimes, Norm2, Dot;
    }
  }

  // ---- Certification -----------------------------------------------------------------------

  /** x is within the channel's own ceiling, up to tol. */
  ghost predicate WithinCeiling(par: Params, mode: ControlMode, p: Vec, x: Vec)
    requires |p| == |x|
  {
    match mode
    case Effort => forall i :: 0 <= i < |x| ==> -par.uMax - par.cfg.tol <= x[i] <= par.uMax + par.cfg.tol
    case Velocity => par.sqrt(Norm2(x)) <= par.vMax + par.cfg.tol
    case Position => par.sqrt(Norm2(Sub(x, p))) <= par.stepMax + par.cfg.tol
  }

  /** Where x puts a kinematic plant, every barrier is at or above -tol. */
  ghost predicate LandsSafely(par: Params, mode: ControlMode, p: Vec, x: Vec)
    requires par.Ok() && |p| == |x| == par.dim && !mode.Effort?
  {
    var q := if mode.Velocity? then Add(p, Scale(par.dt, x)) else x;
    forall i :: 0 <= i < |par.barriers| ==> StaticH(par.sqrt, par.barriers[i], par.dim, q) >= -par.cfg.tol
  }

  /** On a usable tick the answer is the loop's, and it is certified exactly when it
      holds every row, is within its ceiling and, in a kinematic channel, lands
      safely, all within tol. */
  lemma CertifiedIff(par: Params, mode: ControlMode, p: seq<Float>, v: seq<Float>, x0: seq<Float>) returns (x: Vec)
    requires par.Ok() && Reaches(p, par.dim) && Reaches(v, par.dim) && Reaches(x0, par.dim)
    requires forall i :: 0 <= i < |par.barriers| ==> IsUsableFor(par.sqrt, par.barriers[i], Values(p, par.dim))
    ensures |x| == par.dim && Spells(Solve(par, mode, p, v, x0).action, x)
    ensures
      var (pose, goal) := (Values(p, par.dim), Values(x0, par.dim));
      var rows := Rows(par, mode, pose, Values(v, par.dim));
      var sets := SetsOf(par.Kinematic(mode, pose), rows);
      && SetsFit(sets, par.dim)
      && x == Budgeted(par.sqrt, sets, rows, par.cfg.tol, Start(sets, goal), par.cfg.maxIter).x
      && (Solve(par, mode, p, v, x0).certified <==>
          && (forall i :: 0 <= i < |rows| ==> Dot(rows[i].a, x) >= rows[i].b - par.cfg.tol)
          && WithinCeiling(par, mode, pose, x)
          && (!mode.Effort? ==> LandsSafely(par, mode, pose, x)))
  {
    GoodVectorIff(p, par.dim);
    GoodVectorIff(v, par.dim);
    GoodVectorIff(x0, par.dim);
    var pose, vel, goal := Values(p, par.dim), Values(v, par.dim), Values(x0, par.dim);
    var rows := Rows(par, mode, pose, vel);
    var sets := SetsOf(par.Kinematic(mode, pose), rows);
    DegenerateIff(par, mode, pose, vel);
    x := Budgeted(par.sqrt, sets, rows, par.cfg.tol, Start(sets, goal), par.cfg.maxIter).x;
    CertificateIs(par, mode, rows, pose, x);
    hide Rows, NoneDegenerate, Budgeted, Certified, WithinCeiling, LandsSafely, MinMargin;
    assert Solve(par, mode, p, v, x0).action == Lift(x);
  }

  lemma CertificateIs(par: Params, mode: ControlMode, rows: seq<Row>, p: Vec, x: Vec)
    requires par.Ok() && |p| == |x| == par.dim
    ensures Certified(par, mode, rows, p, x) <==>
      && (forall i :: 0 <= i < |rows| ==> Dot(rows[i].a, x) >= rows[i].b - par.cfg.tol)
      && WithinCeiling(par, mode, p, x) && (!mode.Effort? ==> LandsSafely(par, mode, p, x))
  {
    hide StaticH, Dot;
    if mode.Velocity? {
      assert NextPose(mode, par.dt, p, x) == Add(p, Scale(par.dt, x));
    }
  }

  // ---- The Effort channel ---------------------------------------------------------------------

  /** The second-order expression with the configured gains. */
  function SecondOrder(cfg: ShieldConfig, h: real, c1: real, c2: real): real { c2 + cfg.k1 * c1 + cfg.k0 * h }

  /** By how much the row of barrier i holds for a command u is the second-order
      expression in the barrier's jet under u, with the configured gains. */
  ghost predicate RowIsSecondOrder(par: Params, i: nat, p: Vec, v: Vec, u: Vec, h: real, c1: real, c2: real)
    requires par.Ok() && |p| == |v| == |u| == par.dim && i < |par.barriers|
  {
    var row := Rows(par, Effort, p, v)[i];
    && h == StaticH(par.sqrt, par.barriers[i], par.dim, p) && IsJet(par.barriers[i], p, v, u, h, c1, c2)
    && Dot(row.a, u) - row.b == SecondOrder(par.cfg, h, c1, c2)
  }

  lemma EffortRowsAreSecondOrder(par: Params, i: nat, p: Vec, v: Vec, u: Vec) returns (h: real, c1: real, c2: real)
    requires par.Ok() && |p| == |v| == |u| == par.dim && i < |par.barriers|
    requires IsUsableFor(par.sqrt, par.barriers[i], p)
    ensures RowIsSecondOrder(par, i, p, v, u, h, c1, c2)
  {
    assert EvalBarrier(par.sqrt, par.barriers[i], Effort, par.BarrierGains(), p, v).ok;
    hide EvalBarrier, IsJet, StaticH, Dot;
    c1, c2 := EffortRowIsSecondOrder(par.sqrt, par.barriers[i], par.BarrierGains(), p, v, u);
    h := StaticH(par.sqrt, par.barriers[i], par.dim, p);
  }

  /** Every certified Effort command keeps, for every barrier, slope c1 and curvature c2
      along the motion it causes such that c2 + k1*c1 + k0*h >= -tol. */
  lemma CertifiedEffortIsSecondOrderSafe(
    par: Params, p: seq<Float>, v: seq<Float>, x0: seq<Float>, i: nat) returns (u: Vec, h: real, c1: real, c2: real)
    requires par.Ok() && i < |par.barriers| && Solve(par, Effort, p, v, x0).certified
    ensures Reaches(p, par.dim) && Reaches(v, par.dim) && |u| == par.dim
    ensures Spells(Solve(par, Effort, p, v, x0).action, u)
    ensures
      var (pose, vel) := (Values(p, par.dim), Values(v, par.dim));
      && h == StaticH(par.sqrt, par.barriers[i], par.dim, pose) && IsJet(par.barriers[i], pose, vel, u, h, c1, c2)
      && SecondOrder(par.cfg, h, c1, c2) >= -par.cfg.tol
  {
    UnusableIsRefused(par, Effort, p, v, x0);
    u := CertifiedIff(par, Effort, p, v, x0);
    hide SecondOrder;
    hide Solve, IsJet, StaticH, Rows, Budgeted, Dot, WithinCeiling, NoneDegenerate, SetsOf, IsUsableFor, Values;
    h, c1, c2 := EffortRowsAreSecondOrder(par, i, Values(p, par.dim), Values(v, par.dim), u);
  }

  // ---- The parameters ------------------------------------------------------------------------

  /** The lower of a configured and an authored ceiling; no authored one leaves the
      configured one. */
  predicate IsLower(configured: real, authored: Option<real>, ceiling: real) {
    && (authored.None? ==> ceiling == configured)
    && (authored.Some? ==>
        && (ceiling == configured || ceiling == authored.value)
        && ceiling <= configured && ceiling <= authored.value)
  }

  /** What a shield is built with. */
  lemma ParamsAreAsConfigured(
    sqrt: Root, terms: seq<KeepOutTerm>, dim: nat, cfg: ShieldConfig, dt: real, limits: ActionLimits)
    requires dt > 0.0 && (limits.maxVelocity.Some? ==> limits.maxVelocity.value > 0.0)
    requires limits.maxAccel.Some? ==> limits.maxAccel.value > 0.0
    ensures
      var par := NewParams(sqrt, terms, dim, cfg, dt, limits);
      && par.dim == dim && par.cfg == cfg && par.dt == dt && par.BarrierGains() == Gains(cfg.k0, cfg.k1, dt)
      && IsLower(cfg.uMax, limits.maxAccel, par.uMax) && IsLower(cfg.vMax, limits.maxVelocity, par.vMax)
      && par.stepMax == par.vMax * dt
      && |par.barriers| == |terms| && forall i :: 0 <= i < |terms| ==> par.barriers[i] == FromTerm(sqrt, terms[i], dim)
  {}
}
