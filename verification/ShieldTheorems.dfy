/** What a solve guarantees end to end: near-optimality at whatever cycle the
    budget ends, exact projection at a fixed point, no change to a command that
    needs none, and where the stop test falls short. */
module ShieldTheorems {
  import opened Wrappers
  import opened Numbers
  import opened Vectors
  import opened Barriers
  import opened Projections
  import opened Shields

  // ---- Wherever the budget ends ---------------------------------------------------

  /** The iterate a positive budget leaves is the end of some cycle, and that cycle
      began with the proposal conserved. */
  lemma {:induction false} BudgetEndsACycle(
    sqrt: Root, sets: seq<Convex>, rows: seq<Row>, tol: real, it: Iterate, x0: Vec, budget: nat)
    returns (last: Iterate)
    requires Conserved(sets, it, x0) && budget > 0
    ensures Conserved(sets, last, x0)
    ensures Budgeted(sqrt, sets, rows, tol, it, budget) == Cycle(sqrt, sets, last)
    decreases budget
  {
    var next := Cycle(sqrt, sets, it);
    StageConserves(sqrt, sets, it, x0, |sets|);
    if Stops(rows, tol, it.x, next.x) || budget == 1 {
      last := it;
    } else {
      last := BudgetEndsACycle(sqrt, sets, rows, tol, next, x0, budget - 1);
    }
  }

  /** The solve's answer is the end of a cycle whose drift bounds how much closer to
      the proposal any feasible command can be; with no drift it is the unique
      closest one. */
  lemma SolveIsNearOptimal(par: Params, mode: ControlMode, rows: seq<Row>, p: Vec, x0: Vec, z: Vec)
    returns (last: Iterate)
    requires par.Ok() && |p| == |x0| == |z| == par.dim && par.cfg.maxIter > 0
    requires forall i :: 0 <= i < |rows| ==> |rows[i].a| == par.dim
    requires SetsFit(SetsOf(par.Kinematic(mode, p), rows), par.dim)
    requires Feasible(par.sqrt, SetsOf(par.Kinematic(mode, p), rows), z)
    ensures
      var sets := SetsOf(par.Kinematic(mode, p), rows);
      var x := Budgeted(par.sqrt, sets, rows, par.cfg.tol, Start(sets, x0), par.cfg.maxIter).x;
      && Conserved(sets, last, x0) && x == Cycle(par.sqrt, sets, last).x
      && Norm2(Sub(x0, x)) + Norm2(Sub(z, x))
          <= Norm2(Sub(x0, z)) + 2.0 * Drift(par.sqrt, sets, last, |sets|)
      && (Cycle(par.sqrt, sets, last) == last ==>
          Feasible(par.sqrt, sets, x) && (z != x ==> Norm2(Sub(x0, x)) < Norm2(Sub(x0, z))))
  {
    var sets := SetsOf(par.Kinematic(mode, p), rows);
    StartConserves(sets, x0);
    last := BudgetEndsACycle(par.sqrt, sets, rows, par.cfg.tol, Start(sets, x0), x0, par.cfg.maxIter);
    CycleEndIsNearOptimal(par.sqrt, sets, last, x0, z);
    if Cycle(par.sqrt, sets, last) == last {
      FixedPointIffStill(par.sqrt, sets, last);
      StillCycleIsTheProjection(par.sqrt, sets, last, x0, z);
    }
  }

  // ---- A sound stop test -------------------------------------------------------------

  lemma {:induction false} StillStagesChangeNothing(sqrt: Root, sets: seq<Convex>, it: Iterate, j: nat)
    requires Sized(sets, it) && j <= |sets| && Still(sqrt, sets, it)
    ensures Stage(sqrt, sets, it, j) == it
  {
    if j > 0 {
      StillStagesChangeNothing(sqrt, sets, it, j - 1);
      var k: nat := j - 1;
      assert Stage(sqrt, sets, it, j) == OneStage(sqrt, sets[k], it, k);
      UnmovedStage(sqrt, sets[k], it, k);
    }
  }

  lemma UnmovedStage(sqrt: Root, s: Convex, it: Iterate, k: nat)
    requires k < |it.corr| && |it.corr[k]| == |it.x| && s.Fits(|it.x|)
    requires OneStage(sqrt, s, it, k).x == it.x
    ensures OneStage(sqrt, s, it, k) == it
  {
    ResidualOfUnmoved(it.x, it.corr[k]);
    assert it.corr[k := it.corr[k]] == it.corr;
  }

  lemma ResidualOfUnmoved(x: Vec, c: Vec)
    requires |x| == |c|
    ensures Sub(Add(x, c), x) == c
  {
    var r := Sub(Add(x, c), x);
    forall i | 0 <= i < |x| ensures r[i] == c[i] {
      assert Add(x, c)[i] == x[i] + c[i];
    }
  }

  lemma {:induction false} KeptCorrectionsMeanStill(sqrt: Root, sets: seq<Convex>, it: Iterate, j: nat)
    requires Sized(sets, it) && j <= |sets| && Stage(sqrt, sets, it, |sets|).corr == it.corr
    ensures Stage(sqrt, sets, it, j).x == it.x
  {
    hide *;
    StageZero(sqrt, sets, it);
    if j > 0 {
      KeptCorrectionsMeanStill(sqrt, sets, it, j - 1);
      StageKeepsCorrections(sqrt, sets, it, 0, j - 1, j - 1);
      StageKeepsCorrections(sqrt, sets, it, j, |sets|, j - 1);
      StageExchanges(sqrt, sets, it, j - 1);
    }
  }

  lemma StageZero(sqrt: Root, sets: seq<Convex>, it: Iterate)
    requires Sized(sets, it)
    ensures Stage(sqrt, sets, it, 0) == it
  {}

  /** If a stage leaves the correction of its set as it was, it leaves the point. */
  lemma StageExchanges(sqrt: Root, sets: seq<Convex>, it: Iterate, k: nat)
    requires Sized(sets, it) && k < |sets|
    requires Stage(sqrt, sets, it, k + 1).corr[k] == Stage(sqrt, sets, it, k).corr[k]
    ensures Stage(sqrt, sets, it, k + 1).x == Stage(sqrt, sets, it, k).x
  {
    var s := Stage(sqrt, sets, it, k);
    var next := OneStage(sqrt, sets[k], s, k);
    assert Stage(sqrt, sets, it, k + 1) == next;
    SameResidual(s.x, next.x, s.corr[k]);
  }

  lemma SameResidual(x: Vec, x': Vec, c: Vec)
    requires |x| == |x'| == |c| && Sub(Add(x, c), x') == c
    ensures x' == x
  {
    forall i | 0 <= i < |x| ensures x'[i] == x[i] {
      assert Sub(Add(x, c), x')[i] == c[i];
    }
  }

  /** No stage of a cycle moves the point exactly when the cycle leaves the whole
      iterate, corrections included, as it found it. */
  lemma FixedPointIffStill(sqrt: Root, sets: seq<Convex>, it: Iterate)
    requires Sized(sets, it)
    ensures Cycle(sqrt, sets, it) == it <==> Still(sqrt, sets, it)
  {
    if Still(sqrt, sets, it) {
      StillStagesChangeNothing(sqrt, sets, it, |sets|);
    }
    if Cycle(sqrt, sets, it) == it {
      forall j | 0 <= j <= |sets| ensures Stage(sqrt, sets, it, j).x == it.x {
        KeptCorrectionsMeanStill(sqrt, sets, it, j);
      }
    }
  }

  // ---- A command that needs no change ---------------------------------------------------

  lemma {:induction false} FeasibleSurvivesBudget(
    sqrt: Root, sets: seq<Convex>, rows: seq<Row>, tol: real, x0: Vec, budget: nat)
    requires IsSqrt(sqrt) && SetsFit(sets, |x0|) && Feasible(sqrt, sets, x0)
    ensures Budgeted(sqrt, sets, rows, tol, Start(sets, x0), budget) == Start(sets, x0)
    decreases budget
  {
    if budget > 0 {
      FeasibleIsFixed(sqrt, sets, x0, |sets|);
      FeasibleSurvivesBudget(sqrt, sets, rows, tol, x0, budget - 1);
    }
  }

  /** The proposal satisfies every row and the kinematic set exactly. */
  ghost predicate NeedsNoChange(par: Params, mode: ControlMode, p: Vec, v: Vec, x0: Vec)
    requires par.Ok() && |p| == |v| == |x0| == par.dim
  {
    var rows := Rows(par, mode, p, v);
    NoneDegenerate(rows) && RowsFeasible(rows, x0, 0.0) && InKinematic(par, mode, p, x0, 0.0)
  }

  /** Minimal intervention: such a proposal, at a non-degenerate pose, is certified
      and returned unchanged, in all three modes and for every budget. */
  lemma NoChangeIsMade(par: Params, mode: ControlMode, p: seq<Float>, v: seq<Float>, x0: seq<Float>)
    requires par.Ok() && par.cfg.tol >= 0.0
    requires GoodVector(p, par.dim) && GoodVector(v, par.dim) && GoodVector(x0, par.dim)
    requires NeedsNoChange(par, mode, Values(p, par.dim), Values(v, par.dim), Values(x0, par.dim))
    ensures
      var out := Solve(par, mode, p, v, x0);
      out.certified && out.action == x0[..par.dim]
  {
    var pose, vel, x := Values(p, par.dim), Values(v, par.dim), Values(x0, par.dim);
    hide InKinematic, Budgeted, Solve, NoneDegenerate;
    ProposalIsFeasible(par, mode, Rows(par, mode, pose, vel), pose, x);
    var rows := Rows(par, mode, pose, vel);
    FeasibleSurvivesBudget(par.sqrt, SetsOf(par.Kinematic(mode, pose), rows), rows, par.cfg.tol, x, par.cfg.maxIter);
    FeasibleAnswerIsCertified(par, mode, p, v, x0, x);
    assert Lift(x) == x0[..par.dim];
  }

  /** If the iteration's answer satisfies every row and the kinematic set, the solve
      certifies it. */
  lemma FeasibleAnswerIsCertified(
    par: Params, mode: ControlMode, p: seq<Float>, v: seq<Float>, x0: seq<Float>, x: Vec)
    requires par.Ok() && par.cfg.tol >= 0.0 && |x| == par.dim
    requires GoodVector(p, par.dim) && GoodVector(v, par.dim) && GoodVector(x0, par.dim)
    requires NeedsNoChange(par, mode, Values(p, par.dim), Values(v, par.dim), x)
    requires
      var pose, rows := Values(p, par.dim), Rows(par, mode, Values(p, par.dim), Values(v, par.dim));
      var sets := SetsOf(par.Kinematic(mode, pose), rows);
      && SetsFit(sets, par.dim)
      && Budgeted(par.sqrt, sets, rows, par.cfg.tol, Start(sets, Values(x0, par.dim)), par.cfg.maxIter).x == x
    ensures
      var out := Solve(par, mode, p, v, x0);
      out.certified && out.action == Lift(x)
  {
    hide InKinematic, Budgeted, Solve;
    var pose, vel := Values(p, par.dim), Values(v, par.dim);
    if !mode.Effort? {
      SatisfiedRowsAreSafe(par, mode, pose, vel, x, 0.0);
      assert par.dt * 0.0 == 0.0;
    }
    SlackOnlyHelps(par, mode, Rows(par, mode, pose, vel), pose, x);
    SolveReturnsTheIterate(par, mode, p, v, x0, x);
  }

  lemma SolveReturnsTheIterate(par: Params, mode: ControlMode, p: seq<Float>, v: seq<Float>, x0: seq<Float>, x: Vec)
    requires par.Ok()
    requires GoodVector(p, par.dim) && GoodVector(v, par.dim) && GoodVector(x0, par.dim)
    requires
      var pose, rows := Values(p, par.dim), Rows(par, mode, Values(p, par.dim), Values(v, par.dim));
      var sets := SetsOf(par.Kinematic(mode, pose), rows);
      && NoneDegenerate(rows) && SetsFit(sets, par.dim) && |x| == par.dim
      && Budgeted(par.sqrt, sets, rows, par.cfg.tol, Start(sets, Values(x0, par.dim)), par.cfg.maxIter).x == x
      && Certified(par, mode, rows, pose, x)
    ensures
      var out := Solve(par, mode, p, v, x0);
      out.certified && out.action == Lift(x)
  {
    hide Rows, Budgeted, Certified, NoneDegenerate;
  }

  lemma SlackOnlyHelps(par: Params, mode: ControlMode, rows: seq<Row>, p: Vec, x: Vec)
    requires par.Ok() && |p| == |x| == par.dim && par.cfg.tol >= 0.0
    requires RowsFeasible(rows, x, 0.0) && InKinematic(par, mode, p, x, 0.0)
    requires !mode.Effort? ==> SafeAt(par, NextPose(mode, par.dt, p, x), 0.0)
    ensures Certified(par, mode, rows, p, x)
  {
    hide StaticH, Norm, Dot, NextPose;
  }

  /** Rows satisfied within s put the next pose outside every keep-out, within dt*s
      in the Velocity channel and s in the Position channel. */
  lemma SatisfiedRowsAreSafe(par: Params, mode: ControlMode, p: Vec, v: Vec, x: Vec, s: real)
    requires par.Ok() && |p| == |v| == |x| == par.dim && !mode.Effort?
    requires
      var rows := Rows(par, mode, p, v);
      NoneDegenerate(rows) && RowsFeasible(rows, x, s)
    ensures SafeAt(par, NextPose(mode, par.dt, p, x), if mode.Velocity? then par.dt * s else s)
  {
    var rows := Rows(par, mode, p, v);
    forall i | 0 <= i < |par.barriers|
      ensures StaticH(par.sqrt, par.barriers[i], par.dim, NextPose(mode, par.dt, p, x))
        >= -(if mode.Velocity? then par.dt * s else s)
    {
      assert rows[i].ok && Dot(rows[i].a, x) >= rows[i].b - s;
      OneRowIsSafe(par, mode, p, v, x, s, i);
    }
  }

  lemma OneRowIsSafe(par: Params, mode: ControlMode, p: Vec, v: Vec, x: Vec, s: real, i: nat)
    requires par.Ok() && |p| == |v| == |x| == par.dim && !mode.Effort? && i < |par.barriers|
    requires
      var row := Rows(par, mode, p, v)[i];
      row.ok && Dot(row.a, x) >= row.b - s
    ensures StaticH(par.sqrt, par.barriers[i], par.dim, NextPose(mode, par.dt, p, x))
      >= -(if mode.Velocity? then par.dt * s else s)
  {
    hide EvalBarrier, StaticH, Dot, NextPose;
    RowImpliesSafety(par.sqrt, par.barriers[i], mode, par.BarrierGains(), p, v, x, s);
  }

  lemma ProposalIsFeasible(par: Params, mode: ControlMode, rows: seq<Row>, p: Vec, x: Vec)
    requires par.Ok() && |p| == |x| == par.dim && forall i :: 0 <= i < |rows| ==> |rows[i].a| == par.dim
    requires RowsFeasible(rows, x, 0.0) && InKinematic(par, mode, p, x, 0.0)
    ensures
      var sets := SetsOf(par.Kinematic(mode, p), rows);
      SetsFit(sets, par.dim) && Feasible(par.sqrt, sets, x)
  {
    var sets := SetsOf(par.Kinematic(mode, p), rows);
    assert Sub(x, Zeros(par.dim)) == x;
    forall k | 0 <= k < |sets| ensures sets[k].Fits(par.dim) && Contains(par.sqrt, sets[k], x) {
      if k > 0 {
        assert sets[k] == HalfSet(rows[k - 1].a, rows[k - 1].b);
        assert Dot(rows[k - 1].a, x) >= rows[k - 1].b - 0.0;
      }
    }
  }

  // ---- The margin reported ----------------------------------------------------------------

  lemma {:induction false} MinMarginIsLeast(rows: seq<Row>, k: nat)
    requires k <= |rows|
    ensures forall i :: 0 <= i < k ==> Le(MinMargin(rows, k), Fin(rows[i].h))
    ensures k > 0 ==> exists i :: 0 <= i < k && MinMargin(rows, k) == Fin(rows[i].h)
  {
    if k > 0 {
      MinMarginIsLeast(rows, k - 1);
    }
  }

  /** The margin a solve reports for a well-formed state is never above the static
      value of any barrier at the pose, and at a non-degenerate pose it is the least
      of them. */
  lemma ReportedMarginIsLeast(par: Params, mode: ControlMode, p: seq<Float>, v: seq<Float>, x0: seq<Float>)
    requires par.Ok() && |par.barriers| > 0
    requires GoodVector(p, par.dim) && GoodVector(v, par.dim) && GoodVector(x0, par.dim)
    ensures
      var minH, pose := Solve(par, mode, p, v, x0).minH, Values(p, par.dim);
      && (forall i :: 0 <= i < |par.barriers| ==> Le(minH, Fin(StaticH(par.sqrt, par.barriers[i], par.dim, pose))))
      && (NoneDegenerate(Rows(par, mode, pose, Values(v, par.dim))) ==>
          exists i :: 0 <= i < |par.barriers| && minH == Fin(StaticH(par.sqrt, par.barriers[i], par.dim, pose)))
  {
    var pose, vel := Values(p, par.dim), Values(v, par.dim);
    var rows := Rows(par, mode, pose, vel);
    MinMarginIsLeast(rows, |rows|);
    assert Solve(par, mode, p, v, x0).minH == MinMargin(rows, |rows|);
    hide Solve, MinMargin;
    forall i | 0 <= i < |par.barriers|
      ensures rows[i].h <= StaticH(par.sqrt, par.barriers[i], par.dim, pose)
      ensures rows[i].ok ==> rows[i].h == StaticH(par.sqrt, par.barriers[i], par.dim, pose)
    {
      RowHeight(par.sqrt, par.barriers[i], mode, par.BarrierGains(), pose, vel);
    }
  }

  lemma RowHeight(sqrt: Root, barrier: Barrier, mode: ControlMode, g: Gains, p: Vec, v: Vec)
    requires IsSqrt(sqrt) && barrier.Fits(|p|) && |v| == |p| && g.dt != 0.0
    ensures
      var row := EvalBarrier(sqrt, barrier, mode, g, p, v);
      && row.h <= StaticH(sqrt, barrier, |p|, p)
      && (row.ok ==> row.h == StaticH(sqrt, barrier, |p|, p))
  {
    if barrier.Round? {
      NormSquared(sqrt, FromCentre(barrier.center, p, |p|));
    }
  }
}
