/** The CBF-QP safety filter: build the rows, run Dykstra over flat workspaces,
    certify the result. */
module Shields {
  import opened Wrappers
  import opened Numbers
  import opened Vectors
  import opened SafetyModel
  import opened Barriers
  import opened Projections

  datatype ShieldConfig = ShieldConfig(
    k0: real, k1: real, uMax: real, vMax: real, tol: real, maxIter: nat)

  /** An authored positive limit can only lower the configured ceiling. */
  function Tighten(configured: real, authored: Option<real>): real {
    if authored.Some? && authored.value > 0.0 then RMin(configured, authored.value) else configured
  }

  /** Everything about a shield that is fixed at construction. */
  datatype Params = Params(
    sqrt: Root, dim: nat, barriers: seq<Barrier>, cfg: ShieldConfig,
    dt: real, uMax: real, vMax: real, stepMax: real)
  {
    ghost predicate Ok() {
      && IsSqrt(sqrt) && dim > 0 && dt > 0.0 && uMax >= 0.0
      && forall i :: 0 <= i < |barriers| ==> barriers[i].Fits(dim)
    }

    function BarrierGains(): Gains { Gains(cfg.k0, cfg.k1, dt) }

    /** The kinematic set of a mode about pose p. */
    function Kinematic(mode: ControlMode, p: Vec): Convex {
      match mode
      case Effort => BoxSet(uMax)
      case Velocity => BallSet(Zeros(dim), vMax)
      case Position => BallSet(p, stepMax)
    }
  }

  function NewParams(
    sqrt: Root, terms: seq<KeepOutTerm>, dim: nat, cfg: ShieldConfig, dt: real, limits: ActionLimits): Params
  {
    var step := if dt > 0.0 then dt else 1.0;
    var vMax := Tighten(cfg.vMax, limits.maxVelocity);
    Params(sqrt, dim, seq(|terms|, i requires 0 <= i < |terms| => FromTerm(sqrt, terms[i], dim)), cfg,
      step, Tighten(cfg.uMax, limits.maxAccel), vMax, vMax * step)
  }

  ghost function Rows(par: Params, mode: ControlMode, p: Vec, v: Vec): (rows: seq<Row>)
    requires par.Ok() && |p| == |v| == par.dim
    ensures |rows| == |par.barriers| && forall i :: 0 <= i < |rows| ==> |rows[i].a| == par.dim
  {
    seq(|par.barriers|, i requires 0 <= i < |par.barriers| =>
      EvalBarrier(par.sqrt, par.barriers[i], mode, par.BarrierGains(), p, v))
  }

  /** The kinematic set first, then one half-space per row. */
  function SetsOf(kinematic: Convex, rows: seq<Row>): (sets: seq<Convex>)
    ensures |sets| == |rows| + 1
  {
    [kinematic] + seq(|rows|, i requires 0 <= i < |rows| => HalfSet(rows[i].a, rows[i].b))
  }

  predicate RowsFeasible(rows: seq<Row>, x: Vec, tol: real) {
    forall i :: 0 <= i < |rows| ==> Dot(rows[i].a, x) >= rows[i].b - tol
  }

  predicate SetsFit(sets: seq<Convex>, n: nat) {
    forall k :: 0 <= k < |sets| ==> sets[k].Fits(n)
  }

  /** Stop when the cycle moved the iterate by less than tol and it satisfies the rows. */
  predicate Stops(rows: seq<Row>, tol: real, before: Vec, after: Vec)
    requires |before| == |after|
  {
    Norm2(Sub(after, before)) < tol * tol && RowsFeasible(rows, after, tol)
  }

  /** The iterate the fixed budget leaves, starting from `it`. */
  function Budgeted(sqrt: Root, sets: seq<Convex>, rows: seq<Row>, tol: real, it: Iterate, budget: nat): (r: Iterate)
    requires Sized(sets, it)
    ensures Sized(sets, r) && |r.x| == |it.x|
    decreases budget
  {
    if budget == 0 then it
    else
      var next := Cycle(sqrt, sets, it);
      if Stops(rows, tol, it.x, next.x) then next else Budgeted(sqrt, sets, rows, tol, next, budget - 1)
  }

  predicate InKinematic(par: Params, mode: ControlMode, p: Vec, x: Vec, slack: real)
    requires |p| == |x| == par.dim
  {
    match mode
    case Effort => forall i :: 0 <= i < |x| ==> RAbs(x[i]) <= par.uMax + slack
    case Velocity => Norm(par.sqrt, x) <= par.vMax + slack
    case Position => Norm(par.sqrt, Sub(x, p)) <= par.stepMax + slack
  }

  /** The pose is outside every keep-out, up to a tolerance. */
  ghost predicate SafeAt(par: Params, x: Vec, slack: real)
    requires par.Ok() && |x| == par.dim
  {
    forall i :: 0 <= i < |par.barriers| ==> StaticH(par.sqrt, par.barriers[i], par.dim, x) >= -slack
  }

  /** Hard certification of a command. */
  ghost predicate Certified(par: Params, mode: ControlMode, rows: seq<Row>, p: Vec, x: Vec)
    requires par.Ok() && |p| == |x| == par.dim
  {
    && RowsFeasible(rows, x, par.cfg.tol)
    && InKinematic(par, mode, p, x, par.cfg.tol)
    && (!mode.Effort? ==> SafeAt(par, NextPose(mode, par.dt, p, x), par.cfg.tol))
  }

  function MinMargin(rows: seq<Row>, k: nat): Ext
    requires k <= |rows|
  {
    if k == 0 then PosInf else Min(MinMargin(rows, k - 1), Fin(rows[k - 1].h))
  }

  datatype Outcome = Outcome(certified: bool, minH: Ext, action: seq<Float>)

  predicate GoodVector(xs: seq<Float>, dim: nat) {
    |xs| >= dim && AllFinite(xs[..dim])
  }

  predicate NoneDegenerate(rows: seq<Row>) {
    forall i :: 0 <= i < |rows| ==> rows[i].ok
  }

  /** What the shield answers for a proposal. */
  ghost function Solve(par: Params, mode: ControlMode, p: seq<Float>, v: seq<Float>, x0: seq<Float>): Outcome
    requires par.Ok()
  {
    var dim := par.dim;
    if !GoodVector(p, dim) || !GoodVector(v, dim) || !GoodVector(x0, dim) then
      Outcome(false, NegInf, x0[..if |x0| < dim then |x0| else dim])
    else
      var pose := Values(p, dim);
      var rows := Rows(par, mode, pose, Values(v, dim));
      var minH := MinMargin(rows, |rows|);
      if !NoneDegenerate(rows) then Outcome(false, minH, x0[..dim])
      else
        var sets := SetsOf(par.Kinematic(mode, pose), rows);
        var x := Budgeted(par.sqrt, sets, rows, par.cfg.tol, Start(sets, Values(x0, dim)), par.cfg.maxIter).x;
        Outcome(Certified(par, mode, rows, pose, x), minH, Lift(x))
  }

  // ---- Flat row-major storage -------------------------------------------------

  /** Row j of m rows of length dim. */
  function RowOf(flat: seq<real>, dim: nat, m: nat, j: nat): (r: Vec)
    requires j < m && |flat| == m * dim
    ensures |r| == dim
  {
    RowBounds(dim, j, m);
    flat[j * dim..j * dim + dim]
  }

  lemma {:induction false} RowBounds(dim: nat, j: nat, m: nat)
    requires j < m
    ensures 0 <= j * dim && j * dim + dim == (j + 1) * dim <= m * dim
    decreases m
  {
    if j + 1 < m {
      RowBounds(dim, j, m - 1);
      assert m * dim == (m - 1) * dim + dim;
    }
  }

  function RowsOf(flat: seq<real>, dim: nat, m: nat): (rs: seq<Vec>)
    requires |flat| == m * dim
    ensures |rs| == m && forall j :: 0 <= j < m ==> |rs[j]| == dim
  {
    seq(m, j requires 0 <= j < m => RowOf(flat, dim, m, j))
  }

  /** `after` is `before` with row j overwritten by c. */
  ghost predicate RowWritten(before: seq<real>, after: seq<real>, off: nat, c: Vec) {
    && |before| == |after| && off + |c| <= |before|
    && after == before[..off] + c + before[off + |c|..]
  }

  lemma RowsAfterWrite(before: seq<real>, after: seq<real>, dim: nat, m: nat, j: nat, c: Vec)
    requires j < m && |before| == m * dim && |c| == dim && RowWritten(before, after, j * dim, c)
    ensures |after| == m * dim && RowsOf(after, dim, m) == RowsOf(before, dim, m)[j := c]
  {
    RowBounds(dim, j, m);
    forall k | 0 <= k < m
      ensures RowOf(after, dim, m, k) == if k == j then c else RowOf(before, dim, m, k)
    {
      RowBounds(dim, k, m);
      if k < j {
        RowBounds(dim, k, j);
      } else if k > j {
        RowBounds(dim, j, k);
      }
    }
  }

  // ---- The shield itself -------------------------------------------------------

  /** The filter with its pre-allocated workspace. Everything it keeps between
      ticks is scratch: a solve depends on its arguments alone. */
  class Shield {
    const par: Params
    const amat: array<real>
    const bvec: array<real>
    const corrections: array<real>
    const x: array<real>
    const y: array<real>
    const xprev: array<real>

    ghost predicate Valid() {
      && par.Ok()
      && amat.Length == |par.barriers| * par.dim && bvec.Length == |par.barriers|
      && corrections.Length == (|par.barriers| + 1) * par.dim
      && x.Length == y.Length == xprev.Length == par.dim
      && amat != bvec && amat != corrections && amat != x && amat != y && amat != xprev
      && bvec != corrections && bvec != x && bvec != y && bvec != xprev
      && corrections != x && corrections != y && corrections != xprev
      && x != y && x != xprev && y != xprev
    }

    ghost function Repr(): set<object> {
      {amat, bvec, corrections, x, y, xprev}
    }

    constructor (params: Params)
      requires params.Ok()
      ensures Valid() && par == params && fresh(Repr())
    {
      par := params;
      amat := new real[|params.barriers| * params.dim](_ => 0.0);
      bvec := new real[|params.barriers|](_ => 0.0);
      corrections := new real[(|params.barriers| + 1) * params.dim](_ => 0.0);
      x := new real[params.dim](_ => 0.0);
      y := new real[params.dim](_ => 0.0);
      xprev := new real[params.dim](_ => 0.0);
    }

    /** The workspace holds exactly these rows. */
    ghost predicate Holds(rows: seq<Row>)
      requires Valid()
      reads amat, bvec
    {
      && |rows| == |par.barriers|
      && forall i :: 0 <= i < |rows| ==>
          rows[i].a == RowOf(amat[..], par.dim, |rows|, i) && rows[i].b == bvec[i]
    }

    /** The iterate and corrections the workspace holds. */
    ghost function Now(): Iterate
      requires Valid()
      reads x, corrections
    {
      Iterate(x[..], RowsOf(corrections[..], par.dim, |par.barriers| + 1))
    }

    /** y := x + the correction of set `corr`. */
    method LoadPoint(corr: nat)
      requires Valid() && corr <= |par.barriers|
      modifies y
      ensures y[..] == Add(x[..], Now().corr[corr])
    {
      var dim := par.dim;
      RowBounds(dim, corr, |par.barriers| + 1);
      ghost var c := Now().corr[corr];
      for i := 0 to dim
        invariant forall k :: 0 <= k < i ==> y[k] == x[k] + c[k]
      {
        y[i] := x[i] + corrections[corr * dim + i];
      }
    }

    /** Set 0: the kinematic set. */
    method StageKinematic(mode: ControlMode, p: Vec)
      requires Valid() && |p| == par.dim
      modifies x, y, corrections
      ensures Now() == OneStage(par.sqrt, par.Kinematic(mode, p), old(Now()), 0)
    {
      hide Project, RowsOf, Add, Sub;
      LoadPoint(0);
      ProjectKinematic(mode, p);
      StoreResidual(0);
    }

    /** The correction of set `corr` := y - x. */
    method StoreResidual(corr: nat)
      requires Valid() && corr <= |par.barriers|
      modifies corrections
      ensures Now().corr == old(Now().corr)[corr := Sub(y[..], x[..])]
    {
      var off := corr * par.dim;
      RowBounds(par.dim, corr, |par.barriers| + 1);
      ghost var before := corrections[..];
      for i := 0 to par.dim
        invariant WrittenUpTo(before, off, i)
      {
        corrections[off + i] := y[i] - x[i];
      }
      WrittenRow(before, corr);
    }

    /** Project y onto the mode's kinematic set, into x. */
    method ProjectKinematic(mode: ControlMode, p: Vec)
      requires Valid() && |p| == par.dim
      modifies x
      ensures x[..] == Project(par.sqrt, par.Kinematic(mode, p), y[..])
    {
      match mode {
        case Effort => ClampAxes();
        case Velocity => ScaleVelocity();
        case Position => ScaleStep(p);
      }
    }

    method ClampAxes()
      requires Valid()
      modifies x
      ensures x[..] == Project(par.sqrt, BoxSet(par.uMax), y[..])
    {
      for i := 0 to par.dim
        invariant forall k :: 0 <= k < i ==> x[k] == Clamp(y[k], -par.uMax, par.uMax)
      {
        x[i] := Clamp(y[i], -par.uMax, par.uMax);
      }
    }

    method ScaleVelocity()
      requires Valid()
      modifies x
      ensures x[..] == Project(par.sqrt, BallSet(Zeros(par.dim), par.vMax), y[..])
    {
      hide BallScale, Norm, Toward;
      var scale := BallScale(Norm(par.sqrt, y[..]), par.vMax);
      assert Sub(y[..], Zeros(par.dim)) == y[..];
      for i := 0 to par.dim
        invariant forall k :: 0 <= k < i ==> x[k] == Toward(0.0, y[k], scale)
      {
        x[i] := y[i] * scale;
        TowardZero(y[i], scale);
      }
    }

    static lemma TowardZero(y: real, scale: real)
      ensures y * scale == Toward(0.0, y, scale)
    {}

    method ScaleStep(p: Vec)
      requires Valid() && |p| == par.dim
      modifies x
      ensures x[..] == Project(par.sqrt, BallSet(p, par.stepMax), y[..])
    {
      hide BallScale, Toward;
      ghost var d := Sub(y[..], p);
      var d2 := 0.0;
      for i := 0 to par.dim
        invariant d2 == DotN(d, d, i)
      {
        d2 := d2 + (y[i] - p[i]) * (y[i] - p[i]);
      }
      var scale := BallScale(par.sqrt(d2), par.stepMax);
      hide DotN;
      for i := 0 to par.dim
        invariant forall k :: 0 <= k < i ==> x[k] == Toward(p[k], y[k], scale)
      {
        x[i] := Toward(p[i], y[i], scale);
      }
    }

    /** Sets 1..m: the half-space of row j. */
    method StageRow(j: nat, ghost row: Row)
      requires Valid() && j < |par.barriers|
      requires row.a == RowOf(amat[..], par.dim, |par.barriers|, j) && row.b == bvec[j]
      modifies x, y, corrections
      ensures Now() == OneStage(par.sqrt, HalfSet(row.a, row.b), old(Now()), j + 1)
    {
      hide RowsOf, Add, Sub, Along;
      LoadPoint(j + 1);
      RowBounds(par.dim, j, |par.barriers|);
      var a := amat[j * par.dim..j * par.dim + par.dim];
      var ay := Dot(a, y[..]);
      var nn := Norm2(a);
      if ay < bvec[j] && nn > 0.0 {
        PushOntoRow(j + 1, a, (bvec[j] - ay) / nn);
      } else {
        KeepPoint(j + 1);
      }
      assert x[..] == Project(par.sqrt, HalfSet(a, bvec[j]), y[..]);
    }

    method PushOntoRow(corr: nat, a: Vec, t: real)
      requires Valid() && corr <= |par.barriers| && |a| == par.dim
      modifies x, corrections
      ensures Now().corr == old(Now().corr)[corr := Sub(y[..], x[..])]
      ensures forall k :: 0 <= k < par.dim ==> x[k] == Along(y[k], t, a[k])
    {
      hide Along;
      ghost var before := corrections[..];
      var off := corr * par.dim;
      RowBounds(par.dim, corr, |par.barriers| + 1);
      for i := 0 to par.dim
        invariant forall k :: 0 <= k < i ==> x[k] == Along(y[k], t, a[k])
        invariant WrittenUpTo(before, off, i)
      {
        var proj := Along(y[i], t, a[i]);
        corrections[off + i] := y[i] - proj;
        x[i] := proj;
      }
      WrittenRow(before, corr);
    }

    method KeepPoint(corr: nat)
      requires Valid() && corr <= |par.barriers|
      modifies x, corrections
      ensures Now().corr == old(Now().corr)[corr := Sub(y[..], x[..])]
      ensures x[..] == y[..]
    {
      ghost var before := corrections[..];
      var off := corr * par.dim;
      RowBounds(par.dim, corr, |par.barriers| + 1);
      for i := 0 to par.dim
        invariant forall k :: 0 <= k < i ==> x[k] == y[k]
        invariant WrittenUpTo(before, off, i)
      {
        corrections[off + i] := 0.0;
        x[i] := y[i];
      }
      WrittenRow(before, corr);
    }

    /** The first i entries of the row at `off` hold y - x, the rest is `before`. */
    ghost predicate WrittenUpTo(before: seq<real>, off: nat, i: nat)
      requires Valid() && i <= par.dim
      reads x, y, corrections
    {
      && |before| == corrections.Length && off + par.dim <= |before|
      && (forall k :: 0 <= k < i ==> corrections[off + k] == y[k] - x[k])
      && forall k :: 0 <= k < |before| && !(off <= k < off + i) ==> corrections[k] == before[k]
    }

    lemma WrittenRow(before: seq<real>, corr: nat)
      requires Valid() && corr <= |par.barriers| && |before| == corrections.Length
      requires WrittenUpTo(before, corr * par.dim, par.dim)
      ensures Now().corr == RowsOf(before, par.dim, |par.barriers| + 1)[corr := Sub(y[..], x[..])]
    {
      var off, c := corr * par.dim, Sub(y[..], x[..]);
      RowBounds(par.dim, corr, |par.barriers| + 1);
      forall k | off <= k < off + par.dim ensures corrections[k] == c[k - off] {
        assert corrections[off + (k - off)] == y[k - off] - x[k - off];
      }
      assert RowWritten(before, corrections[..], off, c);
      RowsAfterWrite(before, corrections[..], par.dim, |par.barriers| + 1, corr, c);
    }

    /** Dykstra's alternating projection from x0, on the fixed budget. */
    method Dykstra(mode: ControlMode, p: Vec, x0: Vec, ghost rows: seq<Row>)
      requires Valid() && |p| == |x0| == par.dim && Holds(rows)
      modifies x, y, xprev, corrections
      ensures
        var sets := SetsOf(par.Kinematic(mode, p), rows);
        && SetsFit(sets, par.dim)
        && x[..] == Budgeted(par.sqrt, sets, rows, par.cfg.tol, Start(sets, x0), par.cfg.maxIter).x
    {
      hide RowsOf, Project, RowOf;
      ghost var sets := SetsOf(par.Kinematic(mode, p), rows);
      ghost var tol := par.cfg.tol;
      Reset(x0);
      assert Now() == Start(sets, x0);
      ghost var goal := Budgeted(par.sqrt, sets, rows, tol, Now(), par.cfg.maxIter);
      for cycle := 0 to par.cfg.maxIter
        invariant Holds(rows) && Sized(sets, Now())
        invariant Budgeted(par.sqrt, sets, rows, tol, Now(), par.cfg.maxIter - cycle) == goal
      {
        ghost var it := Now();
        var stop := OneCycle(mode, p, rows, sets);
        assert Now() == Cycle(par.sqrt, sets, it);
        if stop {
          break;
        }
      }
    }

    method Reset(x0: Vec)
      requires Valid() && |x0| == par.dim
      modifies x, corrections
      ensures Now() == Iterate(x0, seq(|par.barriers| + 1, _ => Zeros(par.dim)))
    {
      for i := 0 to par.dim
        invariant forall k :: 0 <= k < i ==> x[k] == x0[k]
      {
        x[i] := x0[i];
      }
      for i := 0 to corrections.Length
        invariant forall k :: 0 <= k < i ==> corrections[k] == 0.0
        invariant x[..] == x0
      {
        corrections[i] := 0.0;
      }
      ghost var m := |par.barriers| + 1;
      forall j | 0 <= j < m ensures RowOf(corrections[..], par.dim, m, j) == Zeros(par.dim) {
        RowBounds(par.dim, j, m);
      }
    }

    /** One cycle over all the sets, and whether the loop may stop after it. */
    method OneCycle(mode: ControlMode, p: Vec, ghost rows: seq<Row>, ghost sets: seq<Convex>) returns (stop: bool)
      requires Valid() && |p| == par.dim && Holds(rows)
      requires sets == SetsOf(par.Kinematic(mode, p), rows) && Sized(sets, Now())
      modifies x, y, xprev, corrections
      ensures Now() == Cycle(par.sqrt, sets, old(Now()))
      ensures stop <==> Stops(rows, par.cfg.tol, old(x[..]), x[..])
    {
      hide RowsOf, Project, RowOf, Norm2;
      ghost var it := Now();
      Remember();
      StageKinematic(mode, p);
      assert Stage(par.sqrt, sets, it, 0) == it;
      assert Now() == Stage(par.sqrt, sets, it, 1);
      for j := 0 to |par.barriers|
        invariant Holds(rows) && xprev[..] == it.x
        invariant Now() == Stage(par.sqrt, sets, it, j + 1)
      {
        assert sets[j + 1] == HalfSet(rows[j].a, rows[j].b);
        StageRow(j, rows[j]);
      }
      var delta := MovedBy();
      stop := delta < par.cfg.tol * par.cfg.tol;
      if stop {
        stop := RowsHold(rows);
      }
    }

    method Remember()
      requires Valid()
      modifies xprev
      ensures xprev[..] == x[..]
    {
      for i := 0 to par.dim
        invariant forall k :: 0 <= k < i ==> xprev[k] == x[k]
      {
        xprev[i] := x[i];
      }
    }

    method MovedBy() returns (delta: real)
      requires Valid()
      ensures delta == Norm2(Sub(x[..], xprev[..]))
    {
      ghost var d := Sub(x[..], xprev[..]);
      delta := 0.0;
      for i := 0 to par.dim
        invariant delta == DotN(d, d, i)
      {
        delta := delta + (x[i] - xprev[i]) * (x[i] - xprev[i]);
      }
    }

    /** Whether the iterate satisfies every barrier row within tol. */
    method RowsHold(ghost rows: seq<Row>) returns (ok: bool)
      requires Valid() && Holds(rows)
      ensures ok <==> RowsFeasible(rows, x[..], par.cfg.tol)
    {
      for i := 0 to |par.barriers|
        invariant forall k :: 0 <= k < i ==> Dot(rows[k].a, x[..]) >= rows[k].b - par.cfg.tol
      {
        RowBounds(par.dim, i, |par.barriers|);
        var row := amat[i * par.dim..i * par.dim + par.dim];
        if Dot(row, x[..]) < bvec[i] - par.cfg.tol {
          return false;
        }
      }
      ok := true;
    }

    /** Hard certification of the iterate. */
    method Certify(mode: ControlMode, p: Vec, ghost rows: seq<Row>) returns (ok: bool)
      requires Valid() && |p| == par.dim && Holds(rows)
      ensures ok <==> Certified(par, mode, rows, p, x[..])
    {
      ok := RowsHold(rows);
      if ok {
        ok := InKinematic(par, mode, p, x[..], par.cfg.tol);
      }
      if !ok {
        return;
      }
      if mode != Effort {
        var next := NextPose(mode, par.dt, p, x[..]);
        for i := 0 to |par.barriers|
          invariant forall k :: 0 <= k < i ==> StaticH(par.sqrt, par.barriers[k], par.dim, next) >= -par.cfg.tol
        {
          if StaticH(par.sqrt, par.barriers[i], par.dim, next) < -par.cfg.tol {
            return false;
          }
        }
      }
    }

    /** Evaluate barrier i at (p, v), writing its normal into row i. */
    method BuildRow(i: nat, mode: ControlMode, p: Vec, v: Vec) returns (b: real, h: real, ok: bool)
      requires Valid() && i < |par.barriers| && |p| == |v| == par.dim
      modifies amat
      ensures
        var row := EvalBarrier(par.sqrt, par.barriers[i], mode, par.BarrierGains(), p, v);
        && b == row.b && h == row.h && ok == row.ok
        && RowsOf(amat[..], par.dim, |par.barriers|)
            == old(RowsOf(amat[..], par.dim, |par.barriers|))[i := row.a]
    {
      var g := par.BarrierGains();
      match par.barriers[i] {
        case Round(center, radius) =>
          ghost var r := FromCentre(center, p, par.dim);
          var d2 := WriteOffset(i, center, p);
          var d := par.sqrt(d2);
          if d < CENTRE_TOL {
            return 0.0, -radius, false;
          }
          ghost var a := DivideRow(i, r, d);
          RowBounds(par.dim, i, |par.barriers|);
          var normal := amat[i * par.dim..i * par.dim + par.dim];
          assert normal == RowsOf(amat[..], par.dim, |par.barriers|)[i] == a;
          var hdot := Dot(normal, v);
          h := d - radius;
          b := RowBound(mode, g, normal, h, hdot, (Norm2(v) - hdot * hdot) / d, p);
        case Half(normal, rhs) =>
          CopyRow(i, normal);
          h := Dot(normal, p) - rhs;
          b := RowBound(mode, g, normal, h, Dot(normal, v), 0.0, p);
      }
      ok := true;
    }

    method CopyRow(i: nat, c: Vec)
      requires Valid() && i < |par.barriers| && |c| == par.dim
      modifies amat
      ensures RowsOf(amat[..], par.dim, |par.barriers|) == old(RowsOf(amat[..], par.dim, |par.barriers|))[i := c]
    {
      var off := i * par.dim;
      RowBounds(par.dim, i, |par.barriers|);
      ghost var before := amat[..];
      for k := 0 to par.dim
        invariant forall j :: 0 <= j < k ==> amat[off + j] == c[j]
        invariant forall j :: 0 <= j < |before| && !(off <= j < off + k) ==> amat[j] == before[j]
      {
        amat[off + k] := c[k];
      }
      RowFilled(before, off, c);
      RowsAfterWrite(before, amat[..], par.dim, |par.barriers|, i, c);
    }

    lemma RowFilled(before: seq<real>, off: nat, c: Vec)
      requires |before| == amat.Length && off + |c| <= |before|
      requires forall j :: 0 <= j < |c| ==> amat[off + j] == c[j]
      requires forall j :: 0 <= j < |before| && !(off <= j < off + |c|) ==> amat[j] == before[j]
      ensures RowWritten(before, amat[..], off, c)
    {
      forall k | off <= k < off + |c| ensures amat[k] == c[k - off] {
        assert amat[off + (k - off)] == c[k - off];
      }
    }

    method WriteOffset(i: nat, center: Vec, p: Vec) returns (d2: real)
      requires Valid() && i < |par.barriers| && |p| == par.dim
      modifies amat
      ensures
        var r := FromCentre(center, p, par.dim);
        && d2 == Norm2(r)
        && RowsOf(amat[..], par.dim, |par.barriers|) == old(RowsOf(amat[..], par.dim, |par.barriers|))[i := r]
    {
      ghost var r := FromCentre(center, p, par.dim);
      var off := i * par.dim;
      RowBounds(par.dim, i, |par.barriers|);
      ghost var before := amat[..];
      d2 := 0.0;
      for k := 0 to par.dim
        invariant d2 == DotN(r, r, k)
        invariant forall j :: 0 <= j < k ==> amat[off + j] == r[j]
        invariant forall j :: 0 <= j < |before| && !(off <= j < off + k) ==> amat[j] == before[j]
      {
        var rk := p[k] - At(center, k);
        amat[off + k] := rk;
        d2 := d2 + rk * rk;
      }
      RowFilled(before, off, r);
      RowsAfterWrite(before, amat[..], par.dim, |par.barriers|, i, r);
    }

    method DivideRow(i: nat, ghost r: Vec, d: real) returns (ghost a: Vec)
      requires Valid() && i < |par.barriers| && |r| == par.dim && d > 0.0
      requires RowsOf(amat[..], par.dim, |par.barriers|)[i] == r
      modifies amat
      ensures a == seq(|r|, k requires 0 <= k < |r| => r[k] / d)
      ensures RowsOf(amat[..], par.dim, |par.barriers|) == old(RowsOf(amat[..], par.dim, |par.barriers|))[i := a]
    {
      a := seq(|r|, k requires 0 <= k < |r| => r[k] / d);
      var off := i * par.dim;
      RowBounds(par.dim, i, |par.barriers|);
      ghost var before := amat[..];
      for k := 0 to par.dim
        invariant forall j :: 0 <= j < k ==> amat[off + j] == a[j]
        invariant forall j :: 0 <= j < |before| && !(off <= j < off + k) ==> amat[j] == before[j]
      {
        assert amat[off + k] == RowOf(before, par.dim, |par.barriers|, i)[k];
        amat[off + k] := amat[off + k] / d;
      }
      RowFilled(before, off, a);
      RowsAfterWrite(before, amat[..], par.dim, |par.barriers|, i, a);
    }

    /** Run the shield: the certified minimally-perturbed command and the smallest
        barrier margin. */
    method SolveMode(mode: ControlMode, p: seq<Float>, v: seq<Float>, x0: seq<Float>)
      returns (certified: bool, minH: Ext, action: seq<Float>)
      requires Valid()
      modifies Repr()
      ensures Outcome(certified, minH, action) == Solve(par, mode, p, v, x0)
    {
      var dim := par.dim;
      if !GoodVector(p, dim) || !GoodVector(v, dim) || !GoodVector(x0, dim) {
        return false, NegInf, x0[..if |x0| < dim then |x0| else dim];
      }
      action := x0[..dim];
      var pose, vel := Values(p, dim), Values(v, dim);
      ghost var rows := Rows(par, mode, pose, vel);
      var degenerate: bool;
      minH, degenerate := BuildRows(mode, pose, vel);
      if degenerate {
        return false, minH, action;
      }
      Dykstra(mode, pose, Values(x0, dim), rows);
      action := Lift(x[..]);
      certified := Certify(mode, pose, rows);
    }

    lemma SameRows(rows: seq<Row>)
      requires Valid() && |rows| == |par.barriers|
      requires forall k :: 0 <= k < |rows| ==>
        rows[k].a == RowsOf(amat[..], par.dim, |rows|)[k] && rows[k].b == bvec[k]
      ensures Holds(rows)
    {}

    method BuildRows(mode: ControlMode, p: Vec, v: Vec) returns (minH: Ext, degenerate: bool)
      requires Valid() && |p| == |v| == par.dim
      modifies amat, bvec
      ensures
        var rows := Rows(par, mode, p, v);
        && Holds(rows) && minH == MinMargin(rows, |rows|) && degenerate == !NoneDegenerate(rows)
    {
      hide EvalBarrier, RowsOf;
      ghost var rows := Rows(par, mode, p, v);
      minH := PosInf;
      degenerate := false;
      for i := 0 to |par.barriers|
        invariant minH == MinMargin(rows, i)
        invariant !degenerate <==> forall k :: 0 <= k < i ==> rows[k].ok
        invariant forall k :: 0 <= k < i ==>
          rows[k].a == RowsOf(amat[..], par.dim, |rows|)[k] && rows[k].b == bvec[k]
      {
        var b, h, ok := BuildRow(i, mode, p, v);
        bvec[i] := b;
        minH := Min(minH, Fin(h));
        degenerate := degenerate || !ok;
      }
      SameRows(rows);
    }
  }
}
