/** What each recovery law answers, spelled out: when it moves, with what command, and
    what it falls back to. */
module RecoveryMeaning {
  import opened Wrappers
  import opened Numbers
  import opened Vectors
  import opened SafetyModel
  import opened Barriers
  import opened Projections
  import opened Shields
  import opened SolveMeaning
  import opened Backups
  import opened Arbiters
  import opened Runs
  import opened Decisions

  // ---- One axis ------------------------------------------------------------------------

  /** u is x, cut to the control box. */
  predicate IsCut(x: real, uMax: real, u: real) {
    && (-uMax <= x <= uMax ==> u == x) && (x > uMax ==> u == uMax) && (x < -uMax ==> u == -uMax)
  }

  /** A missing or malformed component counts as zero. */
  predicate ReadsAs(xs: seq<Float>, i: nat, x: real) {
    if i < |xs| && xs[i].Finite? then x == xs[i].r else x == 0.0
  }

  /** The brake: the gain times the velocity, against it, cut to the box, on each axis
      there is, one at least. */
  ghost predicate IsBrake(b: Backup, v: seq<Float>, u: Vec) {
    && |u| == (if b.dim == 0 then 1 else b.dim)
    && forall i :: 0 <= i < |u| ==> BrakesAxis(b, v, i, u[i])
  }

  predicate BrakesAxis(b: Backup, v: seq<Float>, i: nat, u: real) {
    if i < |v| && v[i].Finite? then IsCut(-(b.kBrake * v[i].r), b.uMax, u) else IsCut(0.0, b.uMax, u)
  }

  lemma BrakeLawIsBrake(b: Backup, v: seq<Float>)
    requires b.uMax >= 0.0
    ensures IsBrake(b, v, b.BrakeLaw(v))
  {
    forall i | 0 <= i < |b.BrakeLaw(v)| ensures BrakesAxis(b, v, i, b.BrakeLaw(v)[i]) {
      assert -b.kBrake * FiniteAt(v, i) == -(b.kBrake * FiniteAt(v, i));
    }
  }

  // ---- Effort ---------------------------------------------------------------------------

  /** The damped pull to g, cut to the box. */
  ghost predicate IsPull(b: Backup, g: Vec, p: Vec, v: Vec, u: Vec)
    requires |g| == |p| == |v|
  {
    |u| == |p| && forall i :: 0 <= i < |u| ==> IsCut(b.kP * (g[i] - p[i]) - b.kD * v[i], b.uMax, u[i])
  }

  /** Kinetic energy plus that of the spring to g. */
  function TargetEnergy(b: Backup, g: Vec, p: Vec, v: Vec): real
    requires |g| == |p|
  {
    Halves(b.kP, Norm2(Sub(p, g)), Norm2(v))
  }

  function Halves(kP: real, s: real, t: real): real { 0.5 * kP * s + 0.5 * t }

  /** Where the exact constant-acceleration step of one period leads. */
  function Ahead(b: Backup, p: Vec, v: Vec, u: Vec): (q: Vec)
    requires |p| == |v| == |u|
    ensures |q| == |p|
  {
    Add(Add(p, Scale(b.dt, v)), Scale(0.5 * b.dt * b.dt, u))
  }

  /** Every barrier at or above -1e-7. */
  ghost predicate IsOutside(b: Backup, q: Vec)
    requires b.Ok() && |q| == b.dim
  {
    forall i :: 0 <= i < |b.barriers| ==> StaticH(b.sqrt, b.barriers[i], b.dim, q) >= -1e-7
  }

  /** The step under u lands outside every keep-out and the energy does not grow, but
      for a slack of 1e-9, relative and absolute. */
  ghost predicate IsGuarded(b: Backup, g: Vec, p: Vec, v: Vec, u: Vec)
    requires b.Ok() && |g| == |p| == |v| == |u| == b.dim
  {
    && IsOutside(b, Ahead(b, p, v, u))
    && TargetEnergy(b, g, Ahead(b, p, v, u), Add(v, Scale(b.dt, u)))
        <= TargetEnergy(b, g, p, v) * (1.0 + 1e-9) + 1e-9
  }

  /** The Effort law for a target: the pull if goal and state are well formed and the
      pull is guarded, the brake in every other case. */
  ghost predicate EffortAnswer(b: Backup, target: Option<seq<Float>>, p: seq<Float>, v: seq<Float>, u: Vec)
    requires b.Ok()
  {
    if target.Some? && b.dim > 0 && Reaches(target.value, b.dim) && Reaches(p, b.dim) && Reaches(v, b.dim)
       && (exists pull: Vec ::
             && IsPull(b, Values(target.value, b.dim), Values(p, b.dim), Values(v, b.dim), pull)
             && IsGuarded(b, Values(target.value, b.dim), Values(p, b.dim), Values(v, b.dim), pull))
    then
      && IsPull(b, Values(target.value, b.dim), Values(p, b.dim), Values(v, b.dim), u)
      && IsGuarded(b, Values(target.value, b.dim), Values(p, b.dim), Values(v, b.dim), u)
    else IsBrake(b, v, u)
  }

  lemma {:induction false} EnergyIs(kP: real, p: Vec, v: Vec, g: Vec, n: nat)
    requires n <= |p| == |g| && n <= |v|
    ensures Energy(kP, p, v, g, n) == Halves(kP, DotN(Sub(p, g), Sub(p, g), n), DotN(v, v, n))
  {
    if n > 0 {
      EnergyIs(kP, p, v, g, n - 1);
      var e, w := p[n - 1] - g[n - 1], v[n - 1];
      AxisAdds(kP, DotN(Sub(p, g), Sub(p, g), n - 1), e, DotN(v, v, n - 1), w);
    }
  }

  lemma AxisAdds(kP: real, s: real, e: real, t: real, w: real)
    ensures Halves(kP, s, t) + AxisEnergy(kP, e, w) == Halves(kP, s + e * e, t + w * w)
  {}

  lemma PullIs(b: Backup, g: Vec, p: Vec, v: Vec)
    requires b.uMax >= 0.0 && |g| == |p| == |v|
    ensures IsPull(b, g, p, v, b.PullEffort(g, p, v))
    ensures forall u: Vec :: IsPull(b, g, p, v, u) ==> u == b.PullEffort(g, p, v)
  {
    var pull := b.PullEffort(g, p, v);
    forall i | 0 <= i < |p| ensures IsCut(b.kP * (g[i] - p[i]) - b.kD * v[i], b.uMax, pull[i]) {
      CutIs(b.kP * (g[i] - p[i]) - b.kD * v[i], b.uMax);
    }
    hide Backup.PullEffort, IsCut;
    forall u: Vec | IsPull(b, g, p, v, u) ensures u == pull {
      forall i | 0 <= i < |u| ensures u[i] == pull[i] {
        CutIsUnique(b.kP * (g[i] - p[i]) - b.kD * v[i], b.uMax, u[i], pull[i]);
      }
    }
  }

  lemma CutIs(x: real, uMax: real)
    requires uMax >= 0.0
    ensures IsCut(x, uMax, Clamp(x, -uMax, uMax))
  {}

  lemma CutIsUnique(x: real, uMax: real, u: real, u': real)
    requires uMax >= 0.0 && IsCut(x, uMax, u) && IsCut(x, uMax, u')
    ensures u == u'
  {}

  lemma GuardIs(b: Backup, g: Vec, p: Vec, v: Vec, u: Vec)
    requires b.Ok() && |g| == |p| == |v| == |u| == b.dim
    ensures b.MoveAdmitted(g, p, v, u) <==> IsGuarded(b, g, p, v, u)
  {
    AheadIs(b, p, v, u);
    EnergyIsTarget(b, g, Ahead(b, p, v, u), Add(v, Scale(b.dt, u)));
    EnergyIsTarget(b, g, p, v);
    hide TargetEnergy, Ahead, Add, Scale;
  }

  lemma EnergyIsTarget(b: Backup, g: Vec, p: Vec, v: Vec)
    requires |g| == |p| == |v| == b.dim
    ensures Energy(b.kP, p, v, g, b.dim) == TargetEnergy(b, g, p, v)
  {
    hide Halves, DotN, Energy;
    EnergyIs(b.kP, p, v, g, b.dim);
  }

  lemma AheadIs(b: Backup, p: Vec, v: Vec, u: Vec)
    requires |p| == |v| == |u|
    ensures b.Predicted(p, v, u) == Ahead(b, p, v, u) && b.PredictedVelocity(v, u) == Add(v, Scale(b.dt, u))
  {
    forall i | 0 <= i < |p|
      ensures b.Predicted(p, v, u)[i] == Ahead(b, p, v, u)[i]
      ensures b.PredictedVelocity(v, u)[i] == Add(v, Scale(b.dt, u))[i]
    {
      Steps(p[i], v[i], u[i], b.dt);
    }
  }

  lemma Steps(p: real, v: real, u: real, dt: real)
    ensures StepPosition(p, v, u, dt) == (p + dt * v) + 0.5 * dt * dt * u && StepVelocity(v, u, dt) == v + dt * u
  {}

  lemma EffortLawAnswers(b: Backup, g: seq<Float>, p: seq<Float>, v: seq<Float>)
    requires b.Ok()
    ensures EffortAnswer(b, Some(g), p, v, b.EffortLaw(g, p, v))
  {
    GoodVectorIff(g, b.dim);
    GoodVectorIff(p, b.dim);
    GoodVectorIff(v, b.dim);
    BrakeLawIsBrake(b, v);
    var goal, pose, vel := Values(g, b.dim), Values(p, b.dim), Values(v, b.dim);
    PullIs(b, goal, pose, vel);
    var pull := b.PullEffort(goal, pose, vel);
    GuardIs(b, goal, pose, vel, pull);
    hide IsPull, IsGuarded, IsBrake, Backup.MoveAdmitted, Backup.PullEffort, Backup.BrakeLaw, Values;
  }

  // ---- Velocity and position ---------------------------------------------------------------

  /** w points along x and is as long, or as long as the ceiling if x is longer. */
  ghost predicate IsCapped(sqrt: Root, x: Vec, ceiling: real, w: Vec) {
    var len := sqrt(Norm2(x));
    && |w| == |x|
    && (len <= ceiling ==> w == x)
    && (len > ceiling ==> forall i :: 0 <= i < |w| ==> w[i] * len == ceiling * x[i])
  }

  lemma CapIs(sqrt: Root, x: Vec, ceiling: real)
    requires IsSqrt(sqrt) && ceiling >= 0.0
    ensures IsCapped(sqrt, x, ceiling, Scale(BallScale(Norm(sqrt, x), ceiling), x))
  {
    var len := Norm(sqrt, x);
    NormSquared(sqrt, x);
    BallScaleIsExact(len, ceiling);
    var s := BallScale(len, ceiling);
    hide BallScale;
    assert len == sqrt(Norm2(x));
    forall i | 0 <= i < |x|
      ensures len <= ceiling ==> Scale(s, x)[i] == x[i]
      ensures len > ceiling ==> Scale(s, x)[i] * len == ceiling * x[i]
    {
      Recap(s, x[i], len, ceiling);
    }
  }

  lemma Recap(s: real, x: real, len: real, ceiling: real)
    requires len * s == (if len <= ceiling then len else ceiling) && (len <= ceiling ==> s == 1.0)
    ensures len <= ceiling ==> s * x == x
    ensures len > ceiling ==> s * x * len == ceiling * x
  {
    assert s * x * len == (len * s) * x;
  }

  /** At most one vector is x, capped. */
  lemma CapIsUnique(sqrt: Root, x: Vec, ceiling: real, w: Vec, w': Vec)
    requires IsSqrt(sqrt) && ceiling >= 0.0 && IsCapped(sqrt, x, ceiling, w) && IsCapped(sqrt, x, ceiling, w')
    ensures w == w'
  {
    var len := sqrt(Norm2(x));
    if len > ceiling {
      forall i | 0 <= i < |w| ensures w[i] == w'[i] {
        Cancels(w[i], w'[i], len);
      }
    }
  }

  lemma Cancels(a: real, b: real, len: real)
    requires len > 0.0 && a * len == b * len
    ensures a == b
  {
    assert (a - b) * len == 0.0;
  }

  /** Nothing but zeros, on each axis there is, one at least. */
  ghost predicate IsStop(b: Backup, w: Vec) {
    |w| == (if b.dim == 0 then 1 else b.dim) && forall i :: 0 <= i < |w| ==> w[i] == 0.0
  }

  /** The pose as it is, malformed components read as zero. */
  ghost predicate IsStay(b: Backup, p: seq<Float>, q: Vec) {
    |q| == (if b.dim == 0 then 1 else b.dim) && forall i :: 0 <= i < |q| ==> ReadsAs(p, i, q[i])
  }

  /** The capped pull to g if it lands outside every keep-out, else the stop; the stop
      without a well-formed target and pose. */
  ghost predicate VelocityAnswer(b: Backup, target: Option<seq<Float>>, p: seq<Float>, w: Vec)
    requires b.Ok()
  {
    if target.Some? && b.dim > 0 && Reaches(target.value, b.dim) && Reaches(p, b.dim)
       && (exists pull: Vec :: VelocityMove(b, Values(target.value, b.dim), Values(p, b.dim), pull))
    then VelocityMove(b, Values(target.value, b.dim), Values(p, b.dim), w)
    else IsStop(b, w)
  }

  ghost predicate VelocityMove(b: Backup, g: Vec, p: Vec, w: Vec)
    requires b.Ok() && |g| == |p| == b.dim
  {
    IsCapped(b.sqrt, Scale(b.kP, Sub(g, p)), b.vMax, w) && IsOutside(b, Add(p, Scale(b.dt, w)))
  }

  /** The pose moved to g by at most a step, if that is outside every keep-out, else the
      pose; the pose too without a well-formed target and pose. */
  ghost predicate PositionAnswer(b: Backup, target: Option<seq<Float>>, p: seq<Float>, q: Vec)
    requires b.Ok()
  {
    if target.Some? && b.dim > 0 && Reaches(target.value, b.dim) && Reaches(p, b.dim)
       && (exists to: Vec :: PositionMove(b, Values(target.value, b.dim), Values(p, b.dim), to))
    then PositionMove(b, Values(target.value, b.dim), Values(p, b.dim), q)
    else IsStay(b, p, q)
  }

  ghost predicate PositionMove(b: Backup, g: Vec, p: Vec, q: Vec)
    requires b.Ok() && |g| == |p| == b.dim
  {
    |q| == b.dim && IsCapped(b.sqrt, Sub(g, p), b.stepMax, Sub(q, p)) && IsOutside(b, q)
  }

  lemma VelocityMoveIff(b: Backup, g: Vec, p: Vec, w: Vec)
    requires b.Ok() && b.vMax >= 0.0 && |g| == |p| == b.dim
    ensures VelocityMove(b, g, p, w) <==>
      w == b.PullVelocity(g, p) && b.SafeAt(NextPose(Velocity, b.dt, p, b.PullVelocity(g, p)))
  {
    var x, pull := Scale(b.kP, Sub(g, p)), b.PullVelocity(g, p);
    CapIs(b.sqrt, x, b.vMax);
    if IsCapped(b.sqrt, x, b.vMax, w) {
      CapIsUnique(b.sqrt, x, b.vMax, w, pull);
    }
    assert NextPose(Velocity, b.dt, p, pull) == Add(p, Scale(b.dt, pull));
    hide StaticH, IsCapped, BallScale;
  }

  lemma PositionMoveIff(b: Backup, g: Vec, p: Vec, q: Vec)
    requires b.Ok() && b.stepMax >= 0.0 && |g| == |p| == b.dim
    ensures PositionMove(b, g, p, q) <==> q == b.PullPosition(g, p) && b.SafeAt(b.PullPosition(g, p))
  {
    var x, to := Sub(g, p), b.PullPosition(g, p);
    CapIs(b.sqrt, x, b.stepMax);
    assert Sub(to, p) == Scale(BallScale(Norm(b.sqrt, x), b.stepMax), x);
    if |q| == b.dim && IsCapped(b.sqrt, x, b.stepMax, Sub(q, p)) {
      CapIsUnique(b.sqrt, x, b.stepMax, Sub(q, p), Sub(to, p));
      forall i | 0 <= i < |q| ensures q[i] == to[i] {
        assert Sub(q, p)[i] == Sub(to, p)[i];
      }
    }
    hide StaticH, IsCapped, BallScale;
  }

  lemma VelocityLawAnswers(b: Backup, g: seq<Float>, p: seq<Float>)
    requires b.Ok() && b.vMax >= 0.0
    ensures VelocityAnswer(b, Some(g), p, b.VelocityLaw(g, p))
  {
    GoodVectorIff(g, b.dim);
    GoodVectorIff(p, b.dim);
    var goal, pose := Values(g, b.dim), Values(p, b.dim);
    forall w: Vec
      ensures VelocityMove(b, goal, pose, w) <==>
        w == b.PullVelocity(goal, pose) && b.SafeAt(NextPose(Velocity, b.dt, pose, b.PullVelocity(goal, pose)))
    {
      VelocityMoveIff(b, goal, pose, w);
    }
    hide VelocityMove, Backup.PullVelocity, Backup.SafeAt, Values;
    assert IsStop(b, Zeros(b.CtrlDim()));
  }

  lemma PositionLawAnswers(b: Backup, g: seq<Float>, p: seq<Float>)
    requires b.Ok() && b.stepMax >= 0.0
    ensures PositionAnswer(b, Some(g), p, b.PositionLaw(g, p))
  {
    GoodVectorIff(g, b.dim);
    GoodVectorIff(p, b.dim);
    var goal, pose := Values(g, b.dim), Values(p, b.dim);
    forall q: Vec
      ensures PositionMove(b, goal, pose, q) <==>
        q == b.PullPosition(goal, pose) && b.SafeAt(b.PullPosition(goal, pose))
    {
      PositionMoveIff(b, goal, pose, q);
    }
    StayIs(b, p);
    hide PositionMove, Backup.PullPosition, Backup.SafeAt, Values, IsStay, Backup.StayLaw;
  }

  lemma StayIs(b: Backup, p: seq<Float>)
    ensures IsStay(b, p, b.StayLaw(p))
  {}

  // ---- The three kinds in the three channels -------------------------------------------------

  /** The law of a channel, given its target. */
  ghost predicate Answers(b: Backup, mode: ControlMode, target: Option<seq<Float>>, p: seq<Float>, v: seq<Float>, u: Vec)
    requires b.Ok()
  {
    match mode
    case Effort => EffortAnswer(b, target, p, v, u)
    case Velocity => VelocityAnswer(b, target, p, u)
    case Position => PositionAnswer(b, target, p, u)
  }

  /** A brake has no target, a hold the anchor it is given, a retreat the safe pose. */
  lemma LawAnswers(b: Backup, mode: ControlMode, p: seq<Float>, v: seq<Float>, hold: Option<seq<Float>>)
    requires b.Ok() && b.vMax >= 0.0 && b.stepMax >= 0.0
    ensures Answers(b, mode, None, p, v, b.Law(BrakeToStop, mode, p, v, hold))
    ensures Answers(b, mode, hold, p, v, b.Law(HoldPose, mode, p, v, hold))
    ensures Answers(b, mode, b.safePose, p, v, b.Law(Retreat, mode, p, v, hold))
  {
    NoTargetAnswers(b, mode, p, v);
    if hold.Some? {
      TargetAnswers(b, mode, hold.value, p, v);
    }
    if b.safePose.Some? {
      TargetAnswers(b, mode, b.safePose.value, p, v);
    }
    hide Answers, Backup.BrakeLaw, Backup.StayLaw, Backup.EffortLaw, Backup.VelocityLaw, Backup.PositionLaw;
  }

  lemma NoTargetAnswers(b: Backup, mode: ControlMode, p: seq<Float>, v: seq<Float>)
    requires b.Ok()
    ensures Answers(b, mode, None, p, v,
      match mode case Effort => b.BrakeLaw(v) case Velocity => Zeros(b.CtrlDim()) case Position => b.StayLaw(p))
  {
    BrakeLawIsBrake(b, v);
    StayIs(b, p);
    hide IsBrake, IsStay, Backup.BrakeLaw, Backup.StayLaw;
    assert IsStop(b, Zeros(b.CtrlDim()));
  }

  lemma TargetAnswers(b: Backup, mode: ControlMode, g: seq<Float>, p: seq<Float>, v: seq<Float>)
    requires b.Ok() && b.vMax >= 0.0 && b.stepMax >= 0.0
    ensures Answers(b, mode, Some(g), p, v,
      match mode case Effort => b.EffortLaw(g, p, v) case Velocity => b.VelocityLaw(g, p) case Position => b.PositionLaw(g, p))
  {
    EffortLawAnswers(b, g, p, v);
    VelocityLawAnswers(b, g, p);
    PositionLawAnswers(b, g, p);
    hide EffortAnswer, VelocityAnswer, PositionAnswer, Backup.EffortLaw, Backup.VelocityLaw, Backup.PositionLaw;
  }

  // ---- On every run ---------------------------------------------------------------------------

  /** The backup of a core has the configured brake gain, a critically damped pull, the
      model's period and keep-outs, the lower of each pair of ceilings, and the
      authored safe pose. */
  lemma BackupIsAsConfigured(sqrt: Root, model: CompiledSafetyModel, cfg: CoreConfig)
    requires ModelOk(model)
    ensures
      var b := NewCore(sqrt, model, cfg).backup;
      && b.sqrt == sqrt && b.dim == (if model.spatialDim.Some? then model.spatialDim.value else 0)
      && b.kBrake == cfg.kBrake && b.kD == cfg.kBrake && 4.0 * b.kP == cfg.kBrake * cfg.kBrake
      && b.dt == model.samplePeriod
      && IsLower(cfg.shield.uMax, model.actionLimits.maxAccel, b.uMax)
      && IsLower(cfg.shield.vMax, model.actionLimits.maxVelocity, b.vMax) && b.stepMax == b.vMax * b.dt
      && (b.safePose.Some? <==> model.safePose.Some?)
      && (b.safePose.Some? ==> |b.safePose.value| == |model.safePose.value| && Spells(b.safePose.value, model.safePose.value))
      && |b.barriers| == |model.keepOutTerms|
      && forall i :: 0 <= i < |b.barriers| ==> b.barriers[i] == FromTerm(sqrt, model.keepOutTerms[i], b.dim)
  {}

  /** What a fallback of this kind steers to: nothing, the position at the first call of
      the unbroken Hold streak, or the authored safe pose. */
  ghost predicate SteersTo(core: Core, es: seq<Event>, kind: BackupKind, target: Option<seq<Float>>)
    requires core.Ok() && es != []
  {
    match kind
    case BrakeToStop => target.None?
    case Retreat => target == core.backup.safePose
    case HoldPose =>
      && target.Some? && exists k: nat ::
          && k < |es| && HoldStreak(core, es, k) && |es[k].input.position| >= core.dim
          && target.value == es[k].input.position[..core.dim]
  }

  /** On every run of a spatial core every fallback is what the law of its channel answers
      for that target, from the position and velocity of the call: in Effort a guarded
      pull, or the brake and nothing else. */
  lemma EveryFallbackAnswers(
    sqrt: Root, model: CompiledSafetyModel, cfg: CoreConfig, core: Core, es: seq<Event>)
    returns (target: Option<seq<Float>>, u: Vec)
    requires BuiltFrom(sqrt, model, cfg, core) && es != [] && core.dim > 0
    requires core.backup.vMax >= 0.0 && core.backup.stepMax >= 0.0
    ensures
      var v, input := VerdictAfterRun(core, es), es[|es| - 1].input;
      v.layer == BackupLayer ==>
        && v.backupKind.Some? && SteersTo(core, es, v.backupKind.value, target)
        && |v.action| == |u| && Spells(v.action, u)
        && core.backup.Ok() && Answers(core.backup, v.mode, target, input.position, input.velocity, u)
  {
    var v, input := VerdictAfterRun(core, es), es[|es| - 1].input;
    target, u := None, [];
    VerdictIsHonest(core, StateAfter(core, es[..|es| - 1]), es[|es| - 1]);
    if v.layer == BackupLayer {
      target := FallbackIsLaw(sqrt, model, cfg, core, es);
      CoreParts(core);
      hide NewCore, Core.Ok, VerdictAfterRun, Answers, HoldStreak, Backup.Law, Backup.Ok, SteersTo;
      var kind, b := v.backupKind.value, core.backup;
      u := b.Law(kind, v.mode, input.position, input.velocity, target);
      LawAnswers(b, v.mode, input.position, input.velocity, target);
      TargetIsSafePose(core, es, kind, target);
    }
  }

  lemma TargetIsSafePose(core: Core, es: seq<Event>, kind: BackupKind, target: Option<seq<Float>>)
    requires core.Ok() && es != [] && SteersTo(core, es, kind, target)
    ensures kind.BrakeToStop? ==> target.None?
    ensures kind.Retreat? ==> target == core.backup.safePose
  {}

  /** Which law the last call of a run was answered with. */
  lemma FallbackIsLaw(
    sqrt: Root, model: CompiledSafetyModel, cfg: CoreConfig, core: Core, es: seq<Event>)
    returns (target: Option<seq<Float>>)
    requires BuiltFrom(sqrt, model, cfg, core) && es != [] && core.dim > 0
    requires VerdictAfterRun(core, es).layer == BackupLayer
    ensures
      var v, input := VerdictAfterRun(core, es), es[|es| - 1].input;
      && v.backupKind.Some? && core.backup.Ok() && SteersTo(core, es, v.backupKind.value, target)
      && v.action == Lift(core.backup.Law(v.backupKind.value, v.mode, input.position, input.velocity, target))
  {
    var e, st := es[|es| - 1], StateAfter(core, es[..|es| - 1]);
    var v, input := VerdictAfterRun(core, es), e.input;
    EveryVerdictIsProper(sqrt, model, cfg, core, st, e);
    VerdictIsHonest(core, st, e);
    ChannelIsCommanded(input.proposed);
    CoreParts(core);
    assert core.cfg.policy.fallbackMode == cfg.policy.fallbackMode;
    var kind := v.backupKind.value;
    hide NewCore, Core.Ok, After, HoldStreak, ModelOk, Backup.Ok, Commanded, Latch;
    match kind
    case BrakeToStop =>
      target := None;
      SameLaw(core.backup, kind, v.mode, input.position, input.velocity, None);
    case Retreat =>
      target := core.backup.safePose;
      SameLaw(core.backup, kind, v.mode, input.position, input.velocity, target);
    case HoldPose =>
      LatchFollowsVerdict(core, st, e);
      var k := HoldLatch(core, es);
      target := Some(es[k].input.position[..core.dim]);
  }

  /** Only a hold looks at the anchor. */
  lemma SameLaw(b: Backup, kind: BackupKind, mode: ControlMode, p: seq<Float>, v: seq<Float>, hold: Option<seq<Float>>)
    requires b.Ok() && !kind.HoldPose?
    ensures b.Law(kind, mode, p, v, hold) == b.Law(kind, mode, p, v, None)
  {}
}
