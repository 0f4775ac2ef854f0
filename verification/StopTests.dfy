/** When a tick that has a certifiable command is certified: the stop test compares
    cycle ends and rows only, and what that costs. */
module StopTests {
  import opened Wrappers
  import opened Numbers
  import opened Vectors
  import opened Barriers
  import opened Projections
  import opened Shields
  import opened ShieldTheorems

  // ---- A proposal that only the kinematic set cuts ------------------------------------

  /** The proposal moved into the first set, with that move as its only correction. */
  function Settled(sqrt: Root, sets: seq<Convex>, x0: Vec): (it: Iterate)
    requires SetsFit(sets, |x0|) && sets != []
    ensures Sized(sets, it) && |it.x| == |x0|
  {
    var x := Project(sqrt, sets[0], x0);
    Iterate(x, Start(sets, x0).corr[0 := Sub(x0, x)])
  }

  /** Every set but the first contains x. */
  ghost predicate Uncut(sqrt: Root, sets: seq<Convex>, x: Vec)
    requires SetsFit(sets, |x|)
  {
    forall k :: 1 <= k < |sets| ==> Contains(sqrt, sets[k], x)
  }

  lemma {:induction false} SettlesAtOnce(sqrt: Root, sets: seq<Convex>, x0: Vec, it: Iterate, j: nat)
    requires IsSqrt(sqrt) && SetsFit(sets, |x0|) && 0 < j <= |sets|
    requires it == Start(sets, x0) || it == Settled(sqrt, sets, x0)
    requires Uncut(sqrt, sets, Project(sqrt, sets[0], x0))
    ensures Sized(sets, it) && Stage(sqrt, sets, it, j) == Settled(sqrt, sets, x0)
  {
    var goal := Settled(sqrt, sets, x0);
    if j == 1 {
      FirstStage(sqrt, sets, x0, it);
    } else {
      SettlesAtOnce(sqrt, sets, x0, it, j - 1);
      var k: nat := j - 1;
      ProjectionFixesMembers(sqrt, sets[k], goal.x);
      ZeroMove(goal.x);
      assert goal.corr[k] == Zeros(|x0|);
      UnmovedStage(sqrt, sets[k], goal, k);
    }
  }

  lemma FirstStage(sqrt: Root, sets: seq<Convex>, x0: Vec, it: Iterate)
    requires SetsFit(sets, |x0|) && sets != []
    requires it == Start(sets, x0) || it == Settled(sqrt, sets, x0)
    ensures Sized(sets, it) && Stage(sqrt, sets, it, 1) == Settled(sqrt, sets, x0)
  {
    hide Project, Contains;
    assert Stage(sqrt, sets, it, 0) == it;
    var x := Project(sqrt, sets[0], x0);
    assert Add(it.x, it.corr[0]) == x0;
    assert it.corr[0 := Sub(x0, x)] == Settled(sqrt, sets, x0).corr;
  }

  /** If no other set cuts the proposal once it is in the first set, every budget
      answers exactly that point. */
  lemma {:induction false} UncutSettles(
    sqrt: Root, sets: seq<Convex>, rows: seq<Row>, tol: real, x0: Vec, it: Iterate, budget: nat)
    requires IsSqrt(sqrt) && SetsFit(sets, |x0|) && sets != [] && budget > 0
    requires it == Start(sets, x0) || it == Settled(sqrt, sets, x0)
    requires Uncut(sqrt, sets, Project(sqrt, sets[0], x0))
    ensures Sized(sets, it)
    ensures Budgeted(sqrt, sets, rows, tol, it, budget) == Settled(sqrt, sets, x0)
    decreases budget
  {
    SettlesAtOnce(sqrt, sets, x0, it, |sets|);
    hide Project, Contains, Stops;
    if budget > 1 {
      UncutSettles(sqrt, sets, rows, tol, x0, Settled(sqrt, sets, x0), budget - 1);
    }
  }

  lemma SwapSub(a: Vec, b: Vec)
    requires |a| == |b|
    ensures Norm2(Sub(a, b)) == Norm2(Sub(b, a))
  {
    Norm2Sub(a, b);
    Norm2Sub(b, a);
    DotSym(a, b);
  }

  /** A projection onto a set that holds z never leads away from z, and leads
      strictly closer unless the point was in the set already. */
  lemma ProjectionCloses(sqrt: Root, s: Convex, y: Vec, z: Vec)
    requires IsSqrt(sqrt) && |y| == |z| && s.Fits(|y|) && Contains(sqrt, s, z)
    ensures
      var x := Project(sqrt, s, y);
      && Norm2(Sub(z, x)) <= Norm2(Sub(z, y))
      && (Norm2(Sub(z, x)) == Norm2(Sub(z, y)) ==> x == y && Contains(sqrt, s, y))
  {
    var x := Project(sqrt, s, y);
    ProjectionIsNormal(sqrt, s, y, z);
    hide Project, Contains;
    CosineLaw(y, z, x);
    SwapSub(y, z);
    Norm2Nonneg(Sub(y, x));
    if Norm2(Sub(y, x)) == 0.0 {
      ZeroDistance(y, x);
    }
  }

  /** Stage j of the first cycle projects the point as it is. */
  lemma FreshStage(sqrt: Root, sets: seq<Convex>, x0: Vec, j: nat)
    requires SetsFit(sets, |x0|) && j < |sets|
    ensures
      var s := Stage(sqrt, sets, Start(sets, x0), j);
      && |s.x| == |x0| && s.corr[j] == Zeros(|x0|)
      && Stage(sqrt, sets, Start(sets, x0), j + 1).x == Project(sqrt, sets[j], s.x)
      && Stage(sqrt, sets, Start(sets, x0), j + 1).corr[j] == Sub(s.x, Project(sqrt, sets[j], s.x))
  {
    hide Project;
    StageKeepsCorrections(sqrt, sets, Start(sets, x0), 0, j, j);
    ZeroMove(Stage(sqrt, sets, Start(sets, x0), j).x);
  }

  /** If the first cycle ends no closer to a feasible z than its first stage, no set
      after the first cut that stage's point. */
  lemma {:induction false} FirstCycleCloses(sqrt: Root, sets: seq<Convex>, x0: Vec, z: Vec, j: nat)
    requires IsSqrt(sqrt) && |z| == |x0| && SetsFit(sets, |x0|) && Feasible(sqrt, sets, z) && 1 <= j <= |sets|
    ensures
      var s, t := Stage(sqrt, sets, Start(sets, x0), 1).x, Stage(sqrt, sets, Start(sets, x0), j).x;
      && Norm2(Sub(z, t)) <= Norm2(Sub(z, s))
      && (Norm2(Sub(z, t)) == Norm2(Sub(z, s)) ==>
          t == s && forall k :: 1 <= k < j ==> Contains(sqrt, sets[k], s))
  {
    if j > 1 {
      var k: nat := j - 1;
      FirstCycleCloses(sqrt, sets, x0, z, k);
      FreshStage(sqrt, sets, x0, k);
      ProjectionCloses(sqrt, sets[k], Stage(sqrt, sets, Start(sets, x0), k).x, z);
      hide Stage, Norm2, Sub, Project, Contains;
    }
  }

  /** On a solvable problem every budget answers the proposal moved into the first set
      alone exactly when no other set cuts that point. */
  lemma AnswersTheFirstSetIff(sqrt: Root, sets: seq<Convex>, rows: seq<Row>, tol: real, x0: Vec, z: Vec)
    requires IsSqrt(sqrt) && |z| == |x0| && SetsFit(sets, |x0|) && sets != [] && Feasible(sqrt, sets, z)
    ensures
      (forall n: nat :: n > 0 ==>
        Budgeted(sqrt, sets, rows, tol, Start(sets, x0), n).x == Project(sqrt, sets[0], x0))
      <==> Uncut(sqrt, sets, Project(sqrt, sets[0], x0))
  {
    var x := Project(sqrt, sets[0], x0);
    if Uncut(sqrt, sets, x) {
      forall n: nat | n > 0 ensures Budgeted(sqrt, sets, rows, tol, Start(sets, x0), n).x == x {
        UncutSettles(sqrt, sets, rows, tol, x0, Start(sets, x0), n);
      }
    } else {
      OneCycle(sqrt, sets, rows, tol, Start(sets, x0));
      FreshStage(sqrt, sets, x0, 0);
      assert Stage(sqrt, sets, Start(sets, x0), 0) == Start(sets, x0);
      FirstCycleCloses(sqrt, sets, x0, z, |sets|);
    }
  }

  lemma OneCycle(sqrt: Root, sets: seq<Convex>, rows: seq<Row>, tol: real, it: Iterate)
    requires Sized(sets, it)
    ensures Budgeted(sqrt, sets, rows, tol, it, 1) == Stage(sqrt, sets, it, |sets|)
  {}

  // ---- The same for a tick ------------------------------------------------------------------

  /** The proposal moved into the kinematic set alone. */
  function Clamped(par: Params, mode: ControlMode, p: Vec, x0: Vec): (x: Vec)
    requires par.uMax >= 0.0 && |p| == |x0| == par.dim
    ensures |x| == par.dim
  {
    Project(par.sqrt, par.Kinematic(mode, p), x0)
  }

  /** The tick is well formed and every barrier has a usable normal. */
  ghost predicate Usable(par: Params, mode: ControlMode, p: seq<Float>, v: seq<Float>, x0: seq<Float>)
    requires par.Ok()
  {
    && GoodVector(p, par.dim) && GoodVector(v, par.dim) && GoodVector(x0, par.dim)
    && NoneDegenerate(Rows(par, mode, Values(p, par.dim), Values(v, par.dim)))
  }

  lemma ClampedIsInside(par: Params, mode: ControlMode, p: Vec, x0: Vec)
    requires par.Ok() && par.vMax >= 0.0 && par.stepMax >= 0.0 && |p| == |x0| == par.dim
    ensures Contains(par.sqrt, par.Kinematic(mode, p), Clamped(par, mode, p, x0))
    ensures InKinematic(par, mode, p, Clamped(par, mode, p, x0), 0.0)
  {
    var c := if mode.Position? then p else Zeros(par.dim);
    assert Sub(c, c) == Zeros(par.dim);
    DotZeros(par.dim, Zeros(par.dim));
    NormSquared(par.sqrt, Zeros(par.dim));
    ZeroSquare(Norm(par.sqrt, Zeros(par.dim)));
    assert Contains(par.sqrt, par.Kinematic(mode, p), c);
    ProjectionIsNormal(par.sqrt, par.Kinematic(mode, p), x0, c);
    hide Project;
    assert Sub(Clamped(par, mode, p, x0), Zeros(par.dim)) == Clamped(par, mode, p, x0);
  }

  /** What a caller can check before the call: if the proposal, moved into the
      kinematic set alone, satisfies every row, the solve certifies exactly that
      command, in all three channels and for every positive budget, and every other
      feasible command is strictly farther from the proposal. */
  lemma ClampedProposalIsCertified(par: Params, mode: ControlMode, p: seq<Float>, v: seq<Float>, x0: seq<Float>)
    requires par.Ok() && par.vMax >= 0.0 && par.stepMax >= 0.0 && par.cfg.tol >= 0.0 && par.cfg.maxIter > 0
    requires Usable(par, mode, p, v, x0)
    requires
      var (pose, vel, x) := (Values(p, par.dim), Values(v, par.dim), Values(x0, par.dim));
      RowsFeasible(Rows(par, mode, pose, vel), Clamped(par, mode, pose, x), 0.0)
    ensures
      var (pose, vel, x) := (Values(p, par.dim), Values(v, par.dim), Values(x0, par.dim));
      var out, best := Solve(par, mode, p, v, x0), Clamped(par, mode, pose, x);
      && out.certified && out.action == Lift(best) && NeedsNoChange(par, mode, pose, vel, best)
      && forall z: Vec :: |z| == par.dim && z != best && NeedsNoChange(par, mode, pose, vel, z) ==>
          Norm2(Sub(x, best)) < Norm2(Sub(x, z))
  {
    var pose, vel, x := Values(p, par.dim), Values(v, par.dim), Values(x0, par.dim);
    var best := Clamped(par, mode, pose, x);
    var rows := Rows(par, mode, pose, vel);
    var sets := SetsOf(par.Kinematic(mode, pose), rows);
    hide Rows, Contains, Project, Budgeted, InKinematic, Solve;
    ClampedIsInside(par, mode, pose, x);
    ProposalIsFeasible(par, mode, rows, pose, best);
    UncutSettles(par.sqrt, sets, rows, par.cfg.tol, x, Start(sets, x), par.cfg.maxIter);
    FeasibleAnswerIsCertified(par, mode, p, v, x0, best);
    forall z: Vec | |z| == par.dim && z != best && NeedsNoChange(par, mode, pose, vel, z)
      ensures Norm2(Sub(x, best)) < Norm2(Sub(x, z))
    {
      ClampedIsCloser(par, mode, pose, vel, x, z);
    }
  }

  lemma ClampedIsCloser(par: Params, mode: ControlMode, p: Vec, v: Vec, x0: Vec, z: Vec)
    requires par.Ok() && |p| == |v| == |x0| == |z| == par.dim
    requires NeedsNoChange(par, mode, p, v, z) && z != Clamped(par, mode, p, x0)
    ensures Norm2(Sub(x0, Clamped(par, mode, p, x0))) < Norm2(Sub(x0, z))
  {
    var rows := Rows(par, mode, p, v);
    hide Rows, Contains, Project, InKinematic;
    ProposalIsFeasible(par, mode, rows, p, z);
    assert SetsOf(par.Kinematic(mode, p), rows)[0] == par.Kinematic(mode, p);
    StrictlyCloser(par.sqrt, par.Kinematic(mode, p), x0, z);
  }

  lemma StrictlyCloser(sqrt: Root, s: Convex, x0: Vec, z: Vec)
    requires IsSqrt(sqrt) && |z| == |x0| && s.Fits(|x0|) && Contains(sqrt, s, z) && z != Project(sqrt, s, x0)
    ensures Norm2(Sub(x0, Project(sqrt, s, x0))) < Norm2(Sub(x0, z))
  {
    var x := Project(sqrt, s, x0);
    ProjectionIsNormal(sqrt, s, x0, z);
    hide Project, Contains;
    CosineLaw(x0, z, x);
    Norm2Nonneg(Sub(z, x));
    if Norm2(Sub(z, x)) == 0.0 {
      ZeroDistance(z, x);
    }
  }

  /** So a usable tick is refused only if some row cuts the proposal after the
      kinematic set has. */
  lemma RefusedMeansARowCuts(par: Params, mode: ControlMode, p: seq<Float>, v: seq<Float>, x0: seq<Float>)
    requires par.Ok() && par.vMax >= 0.0 && par.stepMax >= 0.0 && par.cfg.tol >= 0.0 && par.cfg.maxIter > 0
    requires Usable(par, mode, p, v, x0) && !Solve(par, mode, p, v, x0).certified
    ensures
      var (pose, vel, x) := (Values(p, par.dim), Values(v, par.dim), Values(x0, par.dim));
      var rows := Rows(par, mode, pose, vel);
      exists i :: 0 <= i < |rows| && Dot(rows[i].a, Clamped(par, mode, pose, x)) < rows[i].b
  {
    var pose, vel, x := Values(p, par.dim), Values(v, par.dim), Values(x0, par.dim);
    if RowsFeasible(Rows(par, mode, pose, vel), Clamped(par, mode, pose, x), 0.0) {
      ClampedProposalIsCertified(par, mode, p, v, x0);
    }
  }
}
