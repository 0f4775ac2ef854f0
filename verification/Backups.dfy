/** The simplex backup: three guarded recovery laws in three actuation channels. */
module Backups {
  import opened Wrappers
  import opened Numbers
  import opened Vectors
  import opened SafetyModel
  import opened Barriers
  import opened Projections
  import opened Shields

  /** Relative and absolute slack of the energy test. */
  const DIST_TOL: real := 1e-9

  /** A predicted position is in the safe set down to minus this. */
  const SET_TOL: real := 1e-7

  datatype BackupKind = BrakeToStop | HoldPose | Retreat

  /** Decelerate one axis, within the control box. */
  function BrakeAxis(v: real, kBrake: real, uMax: real): real
    requires uMax >= 0.0
  {
    Clamp(-kBrake * v, -uMax, uMax)
  }

  /** Saturated pull of one axis towards g, damped by its velocity. */
  function PullAxis(kP: real, kD: real, uMax: real, g: real, p: real, v: real): real
    requires uMax >= 0.0
  {
    Clamp(kP * (g - p) - kD * v, -uMax, uMax)
  }

  /** The exact constant-acceleration step. */
  function StepPosition(p: real, v: real, u: real, dt: real): real { p + v * dt + 0.5 * dt * dt * u }

  function StepVelocity(v: real, u: real, dt: real): real { v + u * dt }

  function AxisEnergy(kP: real, e: real, v: real): real { 0.5 * kP * e * e + 0.5 * v * v }

  /** Target energy of the first n axes. */
  function Energy(kP: real, p: Vec, v: Vec, g: Vec, n: nat): real
    requires n <= |p| && n <= |v| && n <= |g|
  {
    if n == 0 then 0.0 else Energy(kP, p, v, g, n - 1) + AxisEnergy(kP, p[n - 1] - g[n - 1], v[n - 1])
  }

  /** The controller, fixed at construction. */
  datatype Backup = Backup(
    sqrt: Root, dim: nat, uMax: real, vMax: real, stepMax: real, kBrake: real, dt: real,
    kP: real, kD: real, safePose: Option<seq<Float>>, barriers: seq<Barrier>)
  {
    ghost predicate Ok() {
      && IsSqrt(sqrt) && uMax >= 0.0 && dt > 0.0
      && forall i :: 0 <= i < |barriers| ==> barriers[i].Fits(dim)
    }

    function CtrlDim(): (n: nat)
      ensures n >= dim
    {
      if dim < 1 then 1 else dim
    }

    predicate SafeAt(x: Vec)
      requires |x| == dim && forall i :: 0 <= i < |barriers| ==> barriers[i].Fits(dim)
    {
      forall i :: 0 <= i < |barriers| ==> StaticH(sqrt, barriers[i], dim, x) >= -SET_TOL
    }

    /** The guarded laws need a spatial frame and well-formed vectors. */
    predicate CanMove(g: seq<Float>, p: seq<Float>) {
      dim != 0 && GoodVector(p, dim) && GoodVector(g, dim)
    }

    // ---- The laws as functions ------------------------------------------------

    ghost function BrakeLaw(v: seq<Float>): (u: Vec)
      requires uMax >= 0.0
      ensures |u| == CtrlDim()
    {
      seq(CtrlDim(), i requires 0 <= i => BrakeAxis(FiniteAt(v, i), kBrake, uMax))
    }

    ghost function StayLaw(p: seq<Float>): (q: Vec)
      ensures |q| == CtrlDim()
    {
      Values(p, CtrlDim())
    }

    ghost function PullVelocity(g: Vec, p: Vec): (w: Vec)
      requires |g| == |p|
      ensures |w| == |p|
    {
      var pull := Scale(kP, Sub(g, p));
      Scale(BallScale(Norm(sqrt, pull), vMax), pull)
    }

    ghost function VelocityLaw(g: seq<Float>, p: seq<Float>): (w: Vec)
      requires Ok()
      ensures |w| == CtrlDim()
    {
      if !CanMove(g, p) then Zeros(CtrlDim())
      else
        var pose := Values(p, dim);
        var w := PullVelocity(Values(g, dim), pose);
        if SafeAt(NextPose(Velocity, dt, pose, w)) then w else Zeros(CtrlDim())
    }

    ghost function PullPosition(g: Vec, p: Vec): (q: Vec)
      requires |g| == |p|
      ensures |q| == |p|
    {
      Add(p, Scale(BallScale(Norm(sqrt, Sub(g, p)), stepMax), Sub(g, p)))
    }

    ghost function PositionLaw(g: seq<Float>, p: seq<Float>): (q: Vec)
      requires Ok()
      ensures |q| == CtrlDim()
    {
      if !CanMove(g, p) then StayLaw(p)
      else
        var q := PullPosition(Values(g, dim), Values(p, dim));
        if SafeAt(q) then q else StayLaw(p)
    }

    ghost function PullEffort(g: Vec, p: Vec, v: Vec): (u: Vec)
      requires |g| == |p| == |v| && uMax >= 0.0
      ensures |u| == |p|
    {
      seq(|p|, i requires 0 <= i < |p| => PullAxis(kP, kD, uMax, g[i], p[i], v[i]))
    }

    ghost function Predicted(p: Vec, v: Vec, u: Vec): (q: Vec)
      requires |p| == |v| == |u|
      ensures |q| == |p|
    {
      seq(|p|, i requires 0 <= i < |p| => StepPosition(p[i], v[i], u[i], dt))
    }

    ghost function PredictedVelocity(v: Vec, u: Vec): (w: Vec)
      requires |v| == |u|
      ensures |w| == |v|
    {
      seq(|v|, i requires 0 <= i < |v| => StepVelocity(v[i], u[i], dt))
    }

    /** The predicted energy does not grow, up to the slack. */
    ghost predicate EnergyAdmitted(g: Vec, p: Vec, v: Vec, u: Vec)
      requires |g| == |p| == |v| == |u| == dim
    {
      Energy(kP, Predicted(p, v, u), PredictedVelocity(v, u), g, dim)
        <= Energy(kP, p, v, g, dim) * (1.0 + DIST_TOL) + DIST_TOL
    }

    /** And the predicted position is in the safe set. */
    ghost predicate MoveAdmitted(g: Vec, p: Vec, v: Vec, u: Vec)
      requires Ok() && |g| == |p| == |v| == |u| == dim
    {
      EnergyAdmitted(g, p, v, u) && SafeAt(Predicted(p, v, u))
    }

    ghost function EffortLaw(g: seq<Float>, p: seq<Float>, v: seq<Float>): (u: Vec)
      requires Ok()
      ensures |u| == CtrlDim()
    {
      if !CanMove(g, p) || !GoodVector(v, dim) then BrakeLaw(v)
      else
        var goal, pose, vel := Values(g, dim), Values(p, dim), Values(v, dim);
        var u := PullEffort(goal, pose, vel);
        if MoveAdmitted(goal, pose, vel, u) then u else BrakeLaw(v)
    }

    function Target(kind: BackupKind, holdTarget: Option<seq<Float>>): Option<seq<Float>> {
      match kind
      case BrakeToStop => None
      case HoldPose => holdTarget
      case Retreat => safePose
    }

    ghost function Law(kind: BackupKind, mode: ControlMode, p: seq<Float>, v: seq<Float>,
                       holdTarget: Option<seq<Float>>): (action: Vec)
      requires Ok()
      ensures |action| == CtrlDim()
    {
      match (mode, Target(kind, holdTarget))
      case (Effort, None) => BrakeLaw(v)
      case (Effort, Some(g)) => EffortLaw(g, p, v)
      case (Velocity, None) => Zeros(CtrlDim())
      case (Velocity, Some(g)) => VelocityLaw(g, p)
      case (Position, None) => StayLaw(p)
      case (Position, Some(g)) => PositionLaw(g, p)
    }

    // ---- The laws as the controller runs them -----------------------------------

    /** The certified backup command for `kind`, in channel `mode`. */
    method Control(kind: BackupKind, mode: ControlMode, p: seq<Float>, v: seq<Float>,
                   holdTarget: Option<seq<Float>>) returns (action: Vec)
      requires Ok()
      ensures action == Law(kind, mode, p, v, holdTarget)
    {
      var target := Target(kind, holdTarget);
      match (mode, target) {
        case (Effort, None) => action := RunBrake(v);
        case (Effort, Some(g)) => action := GuardedMove(g, p, v);
        case (Velocity, None) => action := StopVelocity();
        case (Velocity, Some(g)) => action := GuardedVelocity(g, p);
        case (Position, None) => action := HoldPosition(p);
        case (Position, Some(g)) => action := GuardedPosition(g, p);
      }
    }

    method RunBrake(v: seq<Float>) returns (action: Vec)
      requires Ok()
      ensures action == BrakeLaw(v)
    {
      action := [];
      for i := 0 to CtrlDim()
        invariant action == BrakeLaw(v)[..i]
      {
        action := action + [BrakeAxis(FiniteAt(v, i), kBrake, uMax)];
      }
    }

    method StopVelocity() returns (action: Vec)
      ensures action == Zeros(CtrlDim())
    {
      action := Zeros(CtrlDim());
    }

    method HoldPosition(p: seq<Float>) returns (action: Vec)
      ensures action == StayLaw(p)
    {
      action := [];
      for i := 0 to CtrlDim()
        invariant action == StayLaw(p)[..i]
      {
        action := action + [FiniteAt(p, i)];
      }
    }

    method GuardedVelocity(g: seq<Float>, p: seq<Float>) returns (action: Vec)
      requires Ok()
      ensures action == VelocityLaw(g, p)
    {
      if !CanMove(g, p) {
        action := StopVelocity();
        return;
      }
      var pose := Values(p, dim);
      var w := CappedPull(Values(g, dim), pose);
      if SafeAt(NextPose(Velocity, dt, pose, w)) {
        action := w;
      } else {
        action := StopVelocity();
      }
    }

    method CappedPull(goal: Vec, pose: Vec) returns (w: Vec)
      requires |goal| == |pose|
      ensures w == PullVelocity(goal, pose)
    {
      hide BallScale, Norm;
      ghost var pull := Scale(kP, Sub(goal, pose));
      var action: Vec := [];
      for i := 0 to |pose|
        invariant |action| == i && forall k :: 0 <= k < i ==> action[k] == pull[k]
      {
        action := action + [kP * (goal[i] - pose[i])];
      }
      assert action == pull;
      var scale := BallScale(Norm(sqrt, action), vMax);
      ghost var capped := Scale(scale, pull);
      w := [];
      for i := 0 to |pose|
        invariant |w| == i && forall k :: 0 <= k < i ==> w[k] == capped[k]
      {
        w := w + [scale * action[i]];
      }
    }

    method GuardedPosition(g: seq<Float>, p: seq<Float>) returns (action: Vec)
      requires Ok()
      ensures action == PositionLaw(g, p)
    {
      if !CanMove(g, p) {
        action := HoldPosition(p);
        return;
      }
      var q := StepToward(Values(g, dim), Values(p, dim));
      if SafeAt(q) {
        action := q;
      } else {
        action := HoldPosition(p);
      }
    }

    method StepToward(goal: Vec, pose: Vec) returns (q: Vec)
      requires |goal| == |pose|
      ensures q == PullPosition(goal, pose)
    {
      hide BallScale, Norm;
      ghost var pull := Sub(goal, pose);
      var action: Vec := [];
      for i := 0 to |pose|
        invariant |action| == i && forall k :: 0 <= k < i ==> action[k] == pull[k]
      {
        action := action + [goal[i] - pose[i]];
      }
      assert action == pull;
      var scale := BallScale(Norm(sqrt, action), stepMax);
      ghost var capped := Scale(scale, pull);
      q := [];
      for i := 0 to |pose|
        invariant |q| == i && forall k :: 0 <= k < i ==> q[k] == pose[k] + capped[k]
      {
        q := q + [pose[i] + scale * action[i]];
      }
    }

    method GuardedMove(g: seq<Float>, p: seq<Float>, v: seq<Float>) returns (action: Vec)
      requires Ok()
      ensures action == EffortLaw(g, p, v)
    {
      if !CanMove(g, p) || !GoodVector(v, dim) {
        action := RunBrake(v);
        return;
      }
      var goal, pose, vel := Values(g, dim), Values(p, dim), Values(v, dim);
      action := PullCommand(goal, pose, vel);
      var progress := EnergyOk(goal, pose, vel, action);
      var inSet := InSet(pose, vel, action);
      if !(progress && inSet) {
        action := RunBrake(v);
      }
    }

    method PullCommand(g: Vec, p: Vec, v: Vec) returns (action: Vec)
      requires Ok() && |g| == |p| == |v| == dim
      ensures action == PullEffort(g, p, v)
    {
      hide PullAxis;
      action := [];
      for i := 0 to dim
        invariant action == PullEffort(g, p, v)[..i]
      {
        action := action + [PullAxis(kP, kD, uMax, g[i], p[i], v[i])];
      }
    }

    method EnergyOk(g: Vec, p: Vec, v: Vec, u: Vec) returns (ok: bool)
      requires Ok() && |g| == |p| == |v| == |u| == dim
      ensures ok <==> EnergyAdmitted(g, p, v, u)
    {
      hide StepPosition, StepVelocity, AxisEnergy;
      ghost var q, w := Predicted(p, v, u), PredictedVelocity(v, u);
      var now, next := 0.0, 0.0;
      for i := 0 to dim
        invariant now == Energy(kP, p, v, g, i) && next == Energy(kP, q, w, g, i)
      {
        now := now + AxisEnergy(kP, p[i] - g[i], v[i]);
        next := next + AxisEnergy(kP, StepPosition(p[i], v[i], u[i], dt) - g[i], StepVelocity(v[i], u[i], dt));
      }
      ok := next <= now * (1.0 + DIST_TOL) + DIST_TOL;
    }

    method InSet(p: Vec, v: Vec, u: Vec) returns (ok: bool)
      requires Ok() && |p| == |v| == |u| == dim
      ensures ok <==> SafeAt(Predicted(p, v, u))
    {
      hide StepPosition;
      var q := seq(dim, i requires 0 <= i < dim => StepPosition(p[i], v[i], u[i], dt));
      assert q == Predicted(p, v, u);
      for k := 0 to |barriers|
        invariant forall j :: 0 <= j < k ==> StaticH(sqrt, barriers[j], dim, q) >= -SET_TOL
      {
        if StaticH(sqrt, barriers[k], dim, q) < -SET_TOL {
          return false;
        }
      }
      ok := true;
    }
  }

  function NewBackup(
    sqrt: Root, dim: nat, cfg: ShieldConfig, kBrake: real, dt: real,
    safePose: Option<Vec>, terms: seq<KeepOutTerm>, limits: ActionLimits): Backup
  {
    var step := if dt > 0.0 then dt else 1.0;
    var vMax := Tighten(cfg.vMax, limits.maxVelocity);
    Backup(sqrt, dim, Tighten(cfg.uMax, limits.maxAccel), vMax, vMax * step, kBrake, step,
      kBrake * kBrake / 4.0, kBrake,
      if safePose.Some? then Some(Lift(safePose.value)) else None,
      seq(|terms|, i requires 0 <= i < |terms| => FromTerm(sqrt, terms[i], dim)))
  }
}
