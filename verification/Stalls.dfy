/** Exactly when no solvable tick is ever refused: on one axis, with a positive
    budget. With two axes or more the stop test can end outside the kinematic set. */
module Stalls {
  import opened Wrappers
  import opened Numbers
  import opened Vectors
  import opened Barriers
  import opened Projections
  import opened Shields
  import opened ShieldTheorems
  import opened StopTests
  import opened OneAxis

  // ---- A stalled pair of sets -----------------------------------------------------------

  /** The vector (x, y, 0, ..., 0). */
  function Pad(x: real, y: real, n: nat): (v: Vec)
    ensures |v| == n
  {
    seq(n, i => if i == 0 then x else if i == 1 then y else 0.0)
  }

  lemma {:induction false} DotNPad(a: real, b: real, c: real, d: real, n: nat, k: nat)
    requires 2 <= k <= n
    ensures DotN(Pad(a, b, n), Pad(c, d, n), k) == a * c + b * d
  {
    if k > 2 {
      DotNPad(a, b, c, d, n, k - 1);
    } else {
      assert DotN(Pad(a, b, n), Pad(c, d, n), 1) == a * c;
    }
  }

  lemma DotPad(a: real, b: real, c: real, d: real, n: nat)
    requires n >= 2
    ensures Dot(Pad(a, b, n), Pad(c, d, n)) == a * c + b * d
  {
    DotNPad(a, b, c, d, n, n);
  }

  /** The box [-s, s]^n and the row 0.6 x + 0.8 y >= 0.2 s. */
  function StallSets(s: real, n: nat): (sets: seq<Convex>)
    requires s > 0.0
    ensures SetsFit(sets, n)
  {
    [BoxSet(s), HalfSet(Pad(0.6, 0.8, n), 0.2 * s)]
  }

  function StallPoint(s: real, n: nat): Vec { Pad(1.24 * s, -0.68 * s, n) }

  lemma BoxCorner(sqrt: Root, s: real, x: real, y: real, n: nat)
    requires s > 0.0 && x >= s && y <= -s
    ensures Project(sqrt, BoxSet(s), Pad(x, y, n)) == Pad(s, -s, n)
  {}

  lemma OntoStallPoint(sqrt: Root, s: real, t: real, n: nat)
    requires s > 0.0 && t >= 0.0 && n >= 2
    ensures Project(sqrt, HalfSet(Pad(0.6, 0.8, n), 0.2 * s), Pad(s - 0.6 * t, -s - 0.8 * t, n)) == StallPoint(s, n)
  {
    var a, y := Pad(0.6, 0.8, n), Pad(s - 0.6 * t, -s - 0.8 * t, n);
    DotPad(0.6, 0.8, s - 0.6 * t, -s - 0.8 * t, n);
    DotPad(0.6, 0.8, 0.6, 0.8, n);
    assert Norm2(a) == 1.0 && Dot(a, y) == -0.2 * s - t;
    assert (0.2 * s - Dot(a, y)) / Norm2(a) == 0.4 * s + t;
    hide Dot, Norm2;
    var x := Project(sqrt, HalfSet(a, 0.2 * s), y);
    forall i | 0 <= i < n ensures x[i] == StallPoint(s, n)[i] {
      assert x[i] == Along(y[i], 0.4 * s + t, a[i]);
    }
  }

  lemma AddPad(a: real, b: real, c: real, d: real, n: nat)
    ensures Add(Pad(a, b, n), Pad(c, d, n)) == Pad(a + c, b + d, n)
    ensures Sub(Pad(a, b, n), Pad(c, d, n)) == Pad(a - c, b - d, n)
  {}

  /** The iterate at x with corrections c and -t times the row's normal. */
  function StallIterate(x: Vec, c: Vec, t: real, n: nat): Iterate {
    Iterate(x, [c, Pad(-0.6 * t, -0.8 * t, n)])
  }

  /** One cycle of the stalled pair: the box corner, then back to the same point. */
  lemma StallCycle(sqrt: Root, s: real, x: real, y: real, cx: real, cy: real, t: real, n: nat)
    requires s > 0.0 && t >= 0.0 && n >= 2 && x + cx >= s && y + cy <= -s
    ensures
      var it := StallIterate(Pad(x, y, n), Pad(cx, cy, n), t, n);
      && Sized(StallSets(s, n), it)
      && Cycle(sqrt, StallSets(s, n), it)
          == StallIterate(StallPoint(s, n), Pad(x + cx - s, y + cy + s, n), t + 0.4 * s, n)
  {
    hide Project, Pad, Add, Sub;
    var sets, it := StallSets(s, n), StallIterate(Pad(x, y, n), Pad(cx, cy, n), t, n);
    assert Stage(sqrt, sets, it, 0) == it;
    BoxStage(sqrt, s, it, x, y, cx, cy, n);
    var mid := Stage(sqrt, sets, it, 1);
    assert mid == OneStage(sqrt, sets[0], it, 0);
    RowStage(sqrt, s, mid, t, n);
    assert Stage(sqrt, sets, it, 2) == OneStage(sqrt, sets[1], mid, 1);
  }

  lemma BoxStage(sqrt: Root, s: real, it: Iterate, x: real, y: real, cx: real, cy: real, n: nat)
    requires s > 0.0 && x + cx >= s && y + cy <= -s
    requires |it.corr| == 2 && it.x == Pad(x, y, n) && it.corr[0] == Pad(cx, cy, n)
    ensures OneStage(sqrt, BoxSet(s), it, 0)
      == Iterate(Pad(s, -s, n), [Pad(x + cx - s, y + cy + s, n), it.corr[1]])
  {
    AddPad(x, y, cx, cy, n);
    BoxCorner(sqrt, s, x + cx, y + cy, n);
    AddPad(x + cx, y + cy, s, -s, n);
    hide Project, Pad, Add, Sub;
  }

  lemma RowStage(sqrt: Root, s: real, it: Iterate, t: real, n: nat)
    requires s > 0.0 && t >= 0.0 && n >= 2
    requires |it.corr| == 2 && it.x == Pad(s, -s, n) && it.corr[1] == Pad(-0.6 * t, -0.8 * t, n)
    ensures OneStage(sqrt, HalfSet(Pad(0.6, 0.8, n), 0.2 * s), it, 1)
      == StallIterate(StallPoint(s, n), it.corr[0], t + 0.4 * s, n)
  {
    hide Project, Pad, Add, Sub;
    AddPad(s, -s, -0.6 * t, -0.8 * t, n);
    OntoStallPoint(sqrt, s, t, n);
    AddPad(s - 0.6 * t, -s - 0.8 * t, 1.24 * s, -0.68 * s, n);
  }

  function StallRow(s: real, h: real, n: nat): Row { Row(Pad(0.6, 0.8, n), 0.2 * s, h, true) }

  /** From the proposal (10 s, -10 s) every cycle the loop runs ends at the same point,
      which satisfies the row, so the loop stops there, outside the box. */
  lemma StallStops(sqrt: Root, s: real, tol: real, budget: nat, h: real, n: nat)
    requires s > 0.0 && tol > 0.0 && budget > 0 && n >= 2
    ensures
      Budgeted(sqrt, StallSets(s, n), [StallRow(s, h, n)], tol,
        Start(StallSets(s, n), Pad(10.0 * s, -10.0 * s, n)), budget).x == StallPoint(s, n)
  {
    var sets, rows := StallSets(s, n), [StallRow(s, h, n)];
    var first := StallIterate(Pad(10.0 * s, -10.0 * s, n), Pad(0.0, 0.0, n), 0.0, n);
    StallStart(s, n);
    StallMeetsRow(s, tol, h, n);
    hide Cycle, Stops, Pad, StallSets;
    StallCycle(sqrt, s, 10.0 * s, -10.0 * s, 0.0, 0.0, 0.0, n);
    StallCycle(sqrt, s, 1.24 * s, -0.68 * s, 9.0 * s, -9.0 * s, 0.4 * s, n);
    UnmovedStops(rows, tol, StallPoint(s, n));
    TwoCyclesSuffice(sqrt, sets, rows, tol, first, budget);
  }

  lemma StallStart(s: real, n: nat)
    requires s > 0.0
    ensures StallIterate(Pad(10.0 * s, -10.0 * s, n), Pad(0.0, 0.0, n), 0.0, n)
      == Start(StallSets(s, n), Pad(10.0 * s, -10.0 * s, n))
  {
    assert Pad(0.0, 0.0, n) == Zeros(n);
  }

  lemma StallMeetsRow(s: real, tol: real, h: real, n: nat)
    requires s > 0.0 && tol > 0.0 && n >= 2
    ensures RowsFeasible([StallRow(s, h, n)], StallPoint(s, n), tol)
  {
    DotPad(0.6, 0.8, 1.24 * s, -0.68 * s, n);
  }

  /** If the first two cycles end at the same point and the test accepts it, every
      positive budget ends there. */
  lemma TwoCyclesSuffice(sqrt: Root, sets: seq<Convex>, rows: seq<Row>, tol: real, first: Iterate, budget: nat)
    requires Sized(sets, first) && budget > 0
    requires
      var x := Cycle(sqrt, sets, first).x;
      Cycle(sqrt, sets, Cycle(sqrt, sets, first)).x == x && Stops(rows, tol, x, x)
    ensures Budgeted(sqrt, sets, rows, tol, first, budget).x == Cycle(sqrt, sets, first).x
  {
    hide Cycle, Stops;
    var second := Cycle(sqrt, sets, first);
    if budget > 1 && !Stops(rows, tol, first.x, second.x) {
      assert Budgeted(sqrt, sets, rows, tol, second, budget - 1) == Cycle(sqrt, sets, second);
    }
  }

  lemma UnmovedStops(rows: seq<Row>, tol: real, x: Vec)
    requires tol > 0.0 && RowsFeasible(rows, x, tol)
    ensures Stops(rows, tol, x, x)
  {
    var z := Zeros(|x|);
    ZeroMove(x);
    DotZeros(|x|, z);
    assert Norm2(Sub(x, x)) == Dot(z, z) == 0.0;
    if tol * tol <= 0.0 {
      NonposFactor(tol, tol);
    }
  }

  // ---- A tick that is refused although it has a certifiable command --------------------------

  /** The stop test compares cycle ends and rows only. So in every dimension from two
      on, for every tolerance and positive budget, a solve can stop outside the
      kinematic set and be refused, although another command satisfies everything and
      would have been certified unchanged: an Effort solve at the boundary of a
      half-space, closing on it, in a control box s that is large against tol. */
  lemma StopTestCanRefuseASolvableTick(par: Params, s: real)
    requires par.Ok() && par.dim >= 2 && par.barriers == [Half(Pad(0.6, 0.8, par.dim), 0.0)]
    requires par.uMax == s > 0.0 && par.cfg.k1 == 6.0 && 0.0 < par.cfg.tol < 0.24 * s && par.cfg.maxIter > 0
    ensures
      var n := par.dim;
      var p, v, x0 := Lift(Pad(0.0, 0.0, n)), Lift(Pad(0.0, -s / 24.0, n)), Lift(Pad(10.0 * s, -10.0 * s, n));
      && Solvable(par, Effort, p, v, x0) && !Solve(par, Effort, p, v, x0).certified
  {
    var n := par.dim;
    var p, v, x0 := Pad(0.0, 0.0, n), Pad(0.0, -s / 24.0, n), Pad(10.0 * s, -10.0 * s, n);
    LiftedIsGood(p);
    LiftedIsGood(v);
    LiftedIsGood(x0);
    StallRows(par, s);
    hide Budgeted, EvalBarrier;
    var rows := Rows(par, Effort, p, v);
    StallIsSolvable(par, s, rows);
    assert NeedsNoChange(par, Effort, p, v, Pad(s, -0.5 * s, n));
    StallStops(par.sqrt, s, par.cfg.tol, par.cfg.maxIter, rows[0].h, n);
    assert SetsOf(par.Kinematic(Effort, p), rows) == StallSets(s, n);
    hide Rows, NoneDegenerate, RowsFeasible;
    assert RAbs(StallPoint(s, n)[0]) > s + par.cfg.tol;
    OutsideIsRefused(par, Effort, Lift(p), Lift(v), Lift(x0), StallPoint(s, n));
  }

  /** An answer outside the kinematic set is not certified. */
  lemma OutsideIsRefused(par: Params, mode: ControlMode, p: seq<Float>, v: seq<Float>, x0: seq<Float>, x: Vec)
    requires par.Ok() && Usable(par, mode, p, v, x0) && |x| == par.dim
    requires
      var (pose, rows) := (Values(p, par.dim), Rows(par, mode, Values(p, par.dim), Values(v, par.dim)));
      var sets := SetsOf(par.Kinematic(mode, pose), rows);
      && SetsFit(sets, par.dim)
      && Budgeted(par.sqrt, sets, rows, par.cfg.tol, Start(sets, Values(x0, par.dim)), par.cfg.maxIter).x == x
      && !InKinematic(par, mode, pose, x, par.cfg.tol)
    ensures !Solve(par, mode, p, v, x0).certified
  {
    hide Rows, Budgeted, NoneDegenerate, InKinematic;
  }

  lemma LiftedIsGood(xs: Vec)
    ensures Values(Lift(xs), |xs|) == xs && GoodVector(Lift(xs), |xs|)
  {
    ValuesOfLift(xs);
    assert Lift(xs)[..|xs|] == Lift(xs);
  }

  lemma StallRows(par: Params, s: real)
    requires par.Ok() && par.dim >= 2 && par.barriers == [Half(Pad(0.6, 0.8, par.dim), 0.0)] && par.cfg.k1 == 6.0
    ensures
      var rows := Rows(par, Effort, Pad(0.0, 0.0, par.dim), Pad(0.0, -s / 24.0, par.dim));
      |rows| == 1 && rows == [StallRow(s, rows[0].h, par.dim)]
  {
    var n := par.dim;
    DotPad(0.6, 0.8, 0.0, 0.0, n);
    DotPad(0.6, 0.8, 0.0, -s / 24.0, n);
  }

  lemma StallIsSolvable(par: Params, s: real, rows: seq<Row>)
    requires par.Ok() && par.dim >= 2 && par.uMax == s > 0.0 && |rows| == 1
    requires rows == [StallRow(s, rows[0].h, par.dim)]
    ensures RowsFeasible(rows, Pad(s, -0.5 * s, par.dim), 0.0)
    ensures InKinematic(par, Effort, Pad(0.0, 0.0, par.dim), Pad(s, -0.5 * s, par.dim), 0.0)
  {
    DotPad(0.6, 0.8, s, -0.5 * s, par.dim);
  }

  // ---- A tick that is certified although a row cuts the proposal -------------------------------

  /** The unit box and the half-space y >= 0. */
  function CutSets(n: nat): (sets: seq<Convex>)
    ensures SetsFit(sets, n)
  {
    [BoxSet(1.0), HalfSet(Pad(0.0, 1.0, n), 0.0)]
  }

  function CutIterate(y: real, c: real, d: real, n: nat): Iterate {
    Iterate(Pad(0.0, y, n), [Pad(0.0, c, n), Pad(0.0, d, n)])
  }

  lemma CutCycle(sqrt: Root, y: real, c: real, d: real, n: nat)
    requires n >= 2 && y + c <= -1.0 && d <= 0.0
    ensures
      && Sized(CutSets(n), CutIterate(y, c, d, n))
      && Cycle(sqrt, CutSets(n), CutIterate(y, c, d, n)) == CutIterate(0.0, y + c + 1.0, d - 1.0, n)
  {
    var sets, it := CutSets(n), CutIterate(y, c, d, n);
    hide Project;
    assert Stage(sqrt, sets, it, 0) == it;
    AddPad(0.0, y, 0.0, c, n);
    OntoBox(sqrt, y + c, n);
    AddPad(0.0, y + c, 0.0, -1.0, n);
    var mid := Stage(sqrt, sets, it, 1);
    assert mid == OneStage(sqrt, sets[0], it, 0);
    assert mid == Iterate(Pad(0.0, -1.0, n), [Pad(0.0, y + c + 1.0, n), Pad(0.0, d, n)]);
    AddPad(0.0, -1.0, 0.0, d, n);
    OntoAxis(sqrt, d - 1.0, n);
    AddPad(0.0, d - 1.0, 0.0, 0.0, n);
    assert Stage(sqrt, sets, it, 2) == OneStage(sqrt, sets[1], mid, 1);
  }

  lemma OntoBox(sqrt: Root, y: real, n: nat)
    requires y <= -1.0
    ensures Project(sqrt, BoxSet(1.0), Pad(0.0, y, n)) == Pad(0.0, -1.0, n)
  {}

  lemma OntoAxis(sqrt: Root, y: real, n: nat)
    requires n >= 2 && y < 0.0
    ensures Project(sqrt, HalfSet(Pad(0.0, 1.0, n), 0.0), Pad(0.0, y, n)) == Pad(0.0, 0.0, n)
  {
    var a := Pad(0.0, 1.0, n);
    DotPad(0.0, 1.0, 0.0, y, n);
    DotPad(0.0, 1.0, 0.0, 1.0, n);
    assert (0.0 - Dot(a, Pad(0.0, y, n))) / Norm2(a) == -y;
    hide Dot, Norm2;
    forall i | 0 <= i < n
      ensures Project(sqrt, HalfSet(a, 0.0), Pad(0.0, y, n))[i] == Pad(0.0, 0.0, n)[i]
    {
      assert Project(sqrt, HalfSet(a, 0.0), Pad(0.0, y, n))[i] == Along(Pad(0.0, y, n)[i], -y, a[i]);
    }
  }

  /** The condition of ClampedProposalIsCertified is not necessary: from (0, -10), in
      the unit box over the half-space y >= 0, the row cuts the clamped proposal and
      every cycle still ends at the closest feasible command, while its corrections
      keep changing. */
  lemma RowCutCanStillBeCertified(par: Params)
    requires par.Ok() && par.dim >= 2 && par.barriers == [Half(Pad(0.0, 1.0, par.dim), 0.0)] && par.uMax == 1.0
    requires par.cfg.tol > 0.0 && par.cfg.maxIter > 0
    ensures
      var n := par.dim;
      var rest, x0 := Lift(Zeros(n)), Lift(Pad(0.0, -10.0, n));
      var rows := Rows(par, Effort, Zeros(n), Zeros(n));
      && !RowsFeasible(rows, Clamped(par, Effort, Zeros(n), Pad(0.0, -10.0, n)), 0.0)
      && Solve(par, Effort, rest, rest, x0).certified && Solve(par, Effort, rest, rest, x0).action == Lift(Zeros(n))
    ensures
      var first := Cycle(par.sqrt, CutSets(par.dim), Start(CutSets(par.dim), Pad(0.0, -10.0, par.dim)));
      Cycle(par.sqrt, CutSets(par.dim), first).x == first.x && Cycle(par.sqrt, CutSets(par.dim), first) != first
  {
    var n := par.dim;
    var zero, x0 := Zeros(n), Pad(0.0, -10.0, n);
    LiftedIsGood(zero);
    LiftedIsGood(x0);
    CutRows(par);
    var rows := Rows(par, Effort, zero, zero);
    assert SetsOf(par.Kinematic(Effort, zero), rows) == CutSets(n);
    OntoBox(par.sqrt, -10.0, n);
    CutSolve(par.sqrt, rows, par.cfg.tol, par.cfg.maxIter, n);
    assert NeedsNoChange(par, Effort, zero, zero, zero);
    hide Rows, Budgeted, Project, InKinematic;
    FeasibleAnswerIsCertified(par, Effort, Lift(zero), Lift(zero), Lift(x0), zero);
  }

  lemma CutRows(par: Params)
    requires par.Ok() && par.dim >= 2 && par.barriers == [Half(Pad(0.0, 1.0, par.dim), 0.0)]
    ensures
      var rows := Rows(par, Effort, Zeros(par.dim), Zeros(par.dim));
      && rows == [Row(Pad(0.0, 1.0, par.dim), 0.0, 0.0, true)]
      && RowsFeasible(rows, Zeros(par.dim), 0.0) && !RowsFeasible(rows, Pad(0.0, -1.0, par.dim), 0.0)
  {
    var n := par.dim;
    assert Pad(0.0, 0.0, n) == Zeros(n);
    DotPad(0.0, 1.0, 0.0, 0.0, n);
    DotPad(0.0, 1.0, 0.0, -1.0, n);
    var rows := Rows(par, Effort, Zeros(n), Zeros(n));
    assert Dot(rows[0].a, Pad(0.0, -1.0, n)) < rows[0].b - 0.0;
  }

  lemma CutSolve(sqrt: Root, rows: seq<Row>, tol: real, budget: nat, n: nat)
    requires n >= 2 && tol > 0.0 && budget > 0 && RowsFeasible(rows, Zeros(n), 0.0)
    ensures
      var sets, x0 := CutSets(n), Pad(0.0, -10.0, n);
      var first := Cycle(sqrt, sets, Start(sets, x0));
      && Budgeted(sqrt, sets, rows, tol, Start(sets, x0), budget).x == Zeros(n)
      && Cycle(sqrt, sets, first).x == first.x && Cycle(sqrt, sets, first) != first
  {
    var sets, x0 := CutSets(n), Pad(0.0, -10.0, n);
    assert Pad(0.0, 0.0, n) == Zeros(n);
    assert Start(sets, x0) == CutIterate(-10.0, 0.0, 0.0, n);
    CutCycle(sqrt, -10.0, 0.0, 0.0, n);
    CutCycle(sqrt, 0.0, -9.0, -1.0, n);
    assert CutIterate(0.0, -8.0, -2.0, n).corr[1][1] == -2.0;
    assert CutIterate(0.0, -9.0, -1.0, n).corr[1][1] == -1.0;
    hide Cycle, Stops, Pad, CutSets;
    UnmovedStops(rows, tol, Zeros(n));
    TwoCyclesSuffice(sqrt, sets, rows, tol, Start(sets, x0), budget);
  }

  // ---- The exact scope -------------------------------------------------------------------------

  /** A usable tick with at least one command that satisfies every row and the
      kinematic set. */
  ghost predicate Solvable(par: Params, mode: ControlMode, p: seq<Float>, v: seq<Float>, x0: seq<Float>)
    requires par.Ok()
  {
    && Usable(par, mode, p, v, x0)
    && exists z: Vec :: |z| == par.dim && NeedsNoChange(par, mode, Values(p, par.dim), Values(v, par.dim), z)
  }

  /** On one axis every solvable tick is certified, in all three channels, with the
      closest command there is. */
  lemma OneAxisIsNeverRefused(par: Params, mode: ControlMode, p: seq<Float>, v: seq<Float>, x0: seq<Float>)
    returns (x: Vec)
    requires par.Ok() && par.dim == 1 && par.cfg.tol >= 0.0 && par.cfg.maxIter > 0
    requires Solvable(par, mode, p, v, x0)
    ensures
      var (pose, vel, goal) := (Values(p, 1), Values(v, 1), Values(x0, 1));
      var out := Solve(par, mode, p, v, x0);
      && out.certified && |x| == 1 && out.action == Lift(x) && NeedsNoChange(par, mode, pose, vel, x)
      && forall z: Vec :: |z| == 1 && NeedsNoChange(par, mode, pose, vel, z) ==>
          RAbs(goal[0] - x[0]) <= RAbs(goal[0] - z[0])
  {
    var pose, vel, goal := Values(p, 1), Values(v, 1), Values(x0, 1);
    var rows := Rows(par, mode, pose, vel);
    var sets := SetsOf(par.Kinematic(mode, pose), rows);
    hide Rows, Budgeted, Solve, InKinematic;
    var z0: Vec :| |z0| == 1 && NeedsNoChange(par, mode, pose, vel, z0);
    ProposalIsFeasible(par, mode, rows, pose, z0);
    x := Budgeted(par.sqrt, sets, rows, par.cfg.tol, Start(sets, goal), par.cfg.maxIter).x;
    OneAxisIsExact(par.sqrt, sets, rows, par.cfg.tol, goal, z0, par.cfg.maxIter);
    FeasibleNeedsNoChange(par, mode, rows, pose, x);
    FeasibleAnswerIsCertified(par, mode, p, v, x0, x);
    forall z: Vec | |z| == 1 && NeedsNoChange(par, mode, pose, vel, z)
      ensures RAbs(goal[0] - x[0]) <= RAbs(goal[0] - z[0])
    {
      ProposalIsFeasible(par, mode, rows, pose, z);
      OneAxisIsExact(par.sqrt, sets, rows, par.cfg.tol, goal, z, par.cfg.maxIter);
    }
  }

  lemma FeasibleNeedsNoChange(par: Params, mode: ControlMode, rows: seq<Row>, p: Vec, x: Vec)
    requires par.Ok() && |p| == |x| == par.dim && forall i :: 0 <= i < |rows| ==> |rows[i].a| == par.dim
    requires Feasible(par.sqrt, SetsOf(par.Kinematic(mode, p), rows), x)
    ensures RowsFeasible(rows, x, 0.0) && InKinematic(par, mode, p, x, 0.0)
  {
    var sets := SetsOf(par.Kinematic(mode, p), rows);
    assert Contains(par.sqrt, sets[0], x);
    assert Sub(x, Zeros(par.dim)) == x;
    forall i | 0 <= i < |rows| ensures Dot(rows[i].a, x) >= rows[i].b - 0.0 {
      var k: nat := i + 1;
      assert sets[k] == HalfSet(rows[i].a, rows[i].b);
      assert Contains(par.sqrt, sets[k], x);
    }
  }

  /** Shields of this dimension, tolerance and budget. */
  ghost predicate Built(par: Params, sqrt: Root, dim: nat, tol: real, budget: nat) {
    par.sqrt == sqrt && par.dim == dim && par.cfg.tol == tol && par.cfg.maxIter == budget
  }

  /** None of them refuses any solvable tick. */
  ghost predicate NeverRefuses(sqrt: Root, dim: nat, tol: real, budget: nat) {
    forall par: Params, mode: ControlMode, p: seq<Float>, v: seq<Float>, x0: seq<Float> ::
      par.Ok() && Built(par, sqrt, dim, tol, budget) && Solvable(par, mode, p, v, x0)
      ==> Solve(par, mode, p, v, x0).certified
  }

  /** The shields that refuse no solvable tick are exactly those of one axis with a
      positive budget. */
  lemma NeverRefusesIff(sqrt: Root, dim: nat, tol: real, budget: nat)
    requires IsSqrt(sqrt) && dim > 0 && tol > 0.0
    ensures NeverRefuses(sqrt, dim, tol, budget) <==> dim == 1 && budget > 0
  {
    if budget == 0 {
      NoBudgetRefuses(sqrt, dim, tol);
    } else if dim == 1 {
      forall par: Params, mode: ControlMode, p: seq<Float>, v: seq<Float>, x0: seq<Float>
        | par.Ok() && Built(par, sqrt, dim, tol, budget) && Solvable(par, mode, p, v, x0)
        ensures Solve(par, mode, p, v, x0).certified
      {
        var _ := OneAxisIsNeverRefused(par, mode, p, v, x0);
      }
    } else {
      var s := 5.0 * tol;
      var cfg := ShieldConfig(9.0, 6.0, s, 1.0, tol, budget);
      var par := Params(sqrt, dim, [Half(Pad(0.6, 0.8, dim), 0.0)], cfg, 1.0, s, 1.0, 1.0);
      StopTestCanRefuseASolvableTick(par, s);
      hide Solvable, Solve;
      assert Built(par, sqrt, dim, tol, budget);
    }
  }

  /** Without a budget the proposal comes back as it was. */
  lemma NoBudgetRefuses(sqrt: Root, dim: nat, tol: real)
    requires IsSqrt(sqrt) && dim > 0 && tol > 0.0
    ensures !NeverRefuses(sqrt, dim, tol, 0)
  {
    var zero := Zeros(dim);
    var par := Params(sqrt, dim, [Half(zero, -1.0)], ShieldConfig(1.0, 1.0, 1.0, 1.0, tol, 0), 1.0, 1.0, 1.0, 1.0);
    var x0: Vec := seq(dim, _ => 2.0 + tol);
    LiftedIsGood(zero);
    LiftedIsGood(x0);
    DotZeros(dim, zero);
    var rows := Rows(par, Effort, zero, zero);
    assert rows == [Row(zero, -1.0, 1.0, true)];
    assert NeedsNoChange(par, Effort, zero, zero, zero);
    assert Solvable(par, Effort, Lift(zero), Lift(zero), Lift(x0));
    assert RAbs(x0[0]) > par.uMax + tol;
    assert !Solve(par, Effort, Lift(zero), Lift(zero), Lift(x0)).certified;
    assert Built(par, sqrt, dim, tol, 0);
  }
}
