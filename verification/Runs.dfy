/** Whole runs of the core: what decides each verdict, what the monitors have
    seen, what the hold anchor is, and what every command is bounded by. */
module Runs {
  import opened Wrappers
  import opened Numbers
  import opened Vectors
  import opened TraceSemantics
  import opened SafetyModel
  import opened Barriers
  import opened Projections
  import opened Shields
  import opened ShieldTheorems
  import opened Backups
  import opened RecoveryTheorems
  import opened Arbiters

  /** One call of the core: a step within its deadline, a step that overran it, or
      the forced watchdog path. */
  datatype Event = OnTime(input: SafetyInput) | Overran(input: SafetyInput) | Forced(input: SafetyInput)

  ghost function After(core: Core, st: State, e: Event): (r: (State, Verdict))
    requires core.Ok() && TraceOf(st.trace, core.Atoms())
    ensures TraceOf(r.0.trace, core.Atoms())
  {
    match e
    case OnTime(input) => Decision(core, st, input, false)
    case Overran(input) => Watchdog(core, Decision(core, st, input, false).0, input)
    case Forced(input) => Decision(core, st, input, true)
  }

  ghost function StateAfter(core: Core, es: seq<Event>): (st: State)
    requires core.Ok()
    ensures TraceOf(st.trace, core.Atoms())
  {
    if es == [] then INITIAL
    else After(core, StateAfter(core, es[..|es| - 1]), es[|es| - 1]).0
  }

  /** The verdict of the last call of a run. */
  ghost function VerdictAfterRun(core: Core, es: seq<Event>): Verdict
    requires core.Ok() && es != []
  {
    After(core, StateAfter(core, es[..|es| - 1]), es[|es| - 1]).1
  }

  // ---- What the monitors have seen --------------------------------------------------

  /** The ticks of a run whose input was well formed and which were not forced. */
  ghost function GoodTicks(core: Core, es: seq<Event>): (tr: Trace)
    requires ModelOk(core.model)
    ensures TraceOf(tr, core.Atoms())
  {
    if es == [] then []
    else
      var before, e := GoodTicks(core, es[..|es| - 1]), es[|es| - 1];
      if !e.Forced? && GoodInput(core, e.input) then before + [Tick(core, e.input.signals)] else before
  }

  /** The monitors' trace is the fold over exactly those ticks: bad input and a
      forced watchdog leave a gap, an overrun does not. */
  lemma {:induction false} TraceIsGoodTicks(core: Core, es: seq<Event>)
    requires core.Ok()
    ensures StateAfter(core, es).trace == GoodTicks(core, es)
  {
    if es != [] {
      TraceIsGoodTicks(core, es[..|es| - 1]);
    }
  }

  lemma {:induction false} GoodTicksCount(core: Core, es: seq<Event>)
    requires ModelOk(core.model)
    ensures |GoodTicks(core, es)| <= |es|
    ensures |GoodTicks(core, es)| == |es| <==>
      forall k :: 0 <= k < |es| ==> !es[k].Forced? && GoodInput(core, es[k].input)
  {
    hide GoodInput, Tick;
    if es != [] {
      var before := es[..|es| - 1];
      GoodTicksCount(core, before);
      assert forall k :: 0 <= k < |before| ==> before[k] == es[k];
    }
  }

  /** The monitors have seen every tick of a run exactly when every call of it was
      well formed and none was forced. */
  lemma MonitorsSeeEveryTickIff(core: Core, es: seq<Event>)
    requires core.Ok()
    ensures |StateAfter(core, es).trace| == |es| <==>
      forall k :: 0 <= k < |es| ==> !es[k].Forced? && GoodInput(core, es[k].input)
  {
    TraceIsGoodTicks(core, es);
    GoodTicksCount(core, es);
  }

  /** The gap at a concrete run: one forced call, and one with a missing signal,
      leave every monitor as it was built. */
  lemma ForcedAndMalformedCallsLeaveAGap(core: Core, input: SafetyInput)
    requires core.Ok() && |input.signals| != |core.model.signals|
    ensures StateAfter(core, [Forced(input), OnTime(input)]).trace == []
  {
    var one, two := [Forced(input)], [Forced(input), OnTime(input)];
    TraceIsGoodTicks(core, two);
    assert one[..0] == [] && two[..1] == one;
    assert GoodTicks(core, one) == GoodTicks(core, []);
    assert GoodTicks(core, two) == GoodTicks(core, one);
  }

  // ---- What decides each verdict -------------------------------------------------------

  /** Nothing the detect layers look at has fired on the last tick of the run. */
  ghost predicate Quiet(core: Core, es: seq<Event>)
    requires core.Ok() && es != [] && GoodInput(core, es[|es| - 1].input) && es[|es| - 1].OnTime?
  {
    var tr, tick := GoodTicks(core, es), Tick(core, es[|es| - 1].input.signals);
    && (forall k :: 0 <= k < |core.model.scalarBounds| ==> !BoundViolated(core, tick, k))
    && forall k :: 0 <= k < |core.model.monitors| ==> !MonitorFires(core, tr, k)
  }

  /** A directive is granted only if both the configuration and the model name it. */
  predicate Granted(cfg: CoreConfig, model: CompiledSafetyModel, proposed: ProposedAction) {
    && model.admissibleDirectives.Some?
    && match proposed
       case ModeDirective(name) => name in cfg.policy.certifiedModes && name in model.admissibleDirectives.value.modes
       case TaskDirective(name) => name in cfg.policy.certifiedTasks && name in model.admissibleDirectives.value.tasks
       case _ => false
  }

  lemma AdmitsExactlyGranted(sqrt: Root, model: CompiledSafetyModel, cfg: CoreConfig, proposed: ProposedAction)
    ensures NewCore(sqrt, model, cfg).cfg.policy.Admits(proposed) <==> Granted(cfg, model, proposed)
  {}

  /** What the last layer needs: a granted directive, a model without keep-outs, or
      a command the shield certified. */
  ghost predicate Certifiable(core: Core, cfg: CoreConfig, input: SafetyInput)
    requires core.Ok()
  {
    match input.proposed.Channel()
    case None => Granted(cfg, core.model, input.proposed)
    case Some(mode) =>
      core.shield.None?
      || Solve(core.shield.value, mode, input.position, input.velocity, input.proposed.Setpoint()).certified
  }

  /** On every run the verdict is not a fallback exactly when the call was on time,
      its input well formed, every detect layer quiet and the action certifiable;
      otherwise the reason names the first layer that failed. */
  lemma VerdictPrecedence(sqrt: Root, model: CompiledSafetyModel, cfg: CoreConfig, core: Core, es: seq<Event>)
    requires core == NewCore(sqrt, model, cfg) && core.Ok() && es != []
    ensures
      var e, v := es[|es| - 1], VerdictAfterRun(core, es);
      && (v.reason.WatchdogExpired? <==> !e.OnTime?)
      && (v.reason.BadInput? <==> e.OnTime? && !GoodInput(core, e.input))
      && (v.layer != BackupLayer <==>
          e.OnTime? && GoodInput(core, e.input) && Quiet(core, es) && Certifiable(core, cfg, e.input))
      && (v.reason.NotCertifiable? || v.reason.QpUncertifiable? <==>
          e.OnTime? && GoodInput(core, e.input) && Quiet(core, es) && !Certifiable(core, cfg, e.input))
  {
    hide Backup.Law, Solve, MonitorFires, BoundViolated, Tick, Perturbed, Latch;
    var e := es[|es| - 1];
    TraceIsGoodTicks(core, es);
    AdmitsExactlyGranted(sqrt, model, cfg, e.input.proposed);
    if e.OnTime? && GoodInput(core, e.input) {
      QuietIff(core, es);
    }
  }

  lemma QuietIff(core: Core, es: seq<Event>)
    requires core.Ok() && es != [] && GoodInput(core, es[|es| - 1].input) && es[|es| - 1].OnTime?
    ensures
      var tr := GoodTicks(core, es);
      && tr != []
      && (Quiet(core, es) <==>
          FirstBound(core, Tick(core, es[|es| - 1].input.signals), 0).None? && FirstMonitor(core, tr, 0).None?)
  {}

  /** A detect fallback names the first violated scalar bound, or, when no bound is
      violated, the first monitor that fired. */
  lemma FiredNamesTheFirst(core: Core, es: seq<Event>)
    requires core.Ok() && es != [] && es[|es| - 1].OnTime? && GoodInput(core, es[|es| - 1].input)
    ensures
      var v, tick, tr := VerdictAfterRun(core, es), Tick(core, es[|es| - 1].input.signals), GoodTicks(core, es);
      var bounds := |core.model.scalarBounds|;
      && tr != []
      && (v.reason.ScalarViolated? <==> exists k :: 0 <= k < bounds && BoundViolated(core, tick, k))
      && (v.reason.ScalarViolated? ==>
          && |v.fired| == 1 && v.fired[0] < bounds && BoundViolated(core, tick, v.fired[0])
          && v.backupKind == Some(KindOf(core.model.scalarBounds[v.fired[0]].onUncertain))
          && forall k :: 0 <= k < v.fired[0] ==> !BoundViolated(core, tick, k))
      && (v.reason.MonitorFired? <==>
          && !v.reason.ScalarViolated?
          && exists k :: 0 <= k < |core.model.monitors| && MonitorFires(core, tr, k))
      && (v.reason.MonitorFired? ==>
          && |v.fired| == 1 && bounds <= v.fired[0] < bounds + |core.model.monitors|
          && MonitorFires(core, tr, v.fired[0] - bounds)
          && v.backupKind == Some(KindOf(core.model.monitors[v.fired[0] - bounds].onUncertain))
          && forall k :: 0 <= k < v.fired[0] - bounds ==> !MonitorFires(core, tr, k))
  {
    hide Backup.Law, Correct, MonitorFires, BoundViolated, Tick, FallbackMode, Latch, LeavesInRange;
    TraceIsGoodTicks(core, es);
    var st, e := StateAfter(core, es[..|es| - 1]), es[|es| - 1];
    CorrectReason(core, st.(trace := GoodTicks(core, es)), e.input);
  }

  /** Past the detect layers no detect reason is given. */
  lemma CorrectReason(core: Core, st: State, input: SafetyInput)
    requires core.Ok() && GoodInput(core, input)
    ensures
      var reason := Correct(core, st, input).1.reason;
      !reason.ScalarViolated? && !reason.MonitorFired?
  {
    hide Backup.Law, Solve, Core.Ok, Perturbed;
  }

  /** What a verdict says about itself is true: fallback, correction and acceptance
      exclude each other, a correction differs from the proposal by more than the
      tolerance somewhere and an acceptance nowhere, both in the proposal's channel. */
  lemma VerdictIsHonest(core: Core, st: State, e: Event)
    requires core.Ok() && TraceOf(st.trace, core.Atoms())
    ensures
      var v, input := After(core, st, e).1, e.input;
      && (v.layer == BackupLayer <==> v.intervention == FellBack) && (v.layer == BackupLayer <==> v.backupKind.Some?)
      && (v.layer == ShieldLayer <==> v.intervention == Modified)
      && (v.layer == ShieldLayer <==> v.reason == ShieldCorrected)
      && (v.layer == Primary <==> v.intervention == NoIntervention) && (v.layer == Primary <==> v.reason == Accepted)
      && (v.layer != BackupLayer && input.proposed.Channel().Some? ==>
          && v.mode == input.proposed.Channel().value
          && |v.action| >= core.dim && |input.proposed.Setpoint()| >= core.dim
          && (core.cfg.unchangedTol >= 0.0 ==>
              (v.layer == ShieldLayer <==> Perturbed(v.action, input.proposed.Setpoint(), core.dim, core.cfg.unchangedTol))))
      && (v.fired != [] <==> v.reason.ScalarViolated? || v.reason.MonitorFired?)
  {
    hide Backup.Law, MonitorFires, BoundViolated, Tick;
  }

  // ---- The hold anchor ------------------------------------------------------------------

  ghost predicate HeldAt(core: Core, es: seq<Event>, n: nat)
    requires core.Ok() && 0 < n <= |es|
  {
    VerdictAfterRun(core, es[..n]).backupKind == Some(HoldPose)
  }

  /** Calls k to the last are one unbroken streak of Hold fallbacks, and k is its first. */
  ghost predicate HoldStreak(core: Core, es: seq<Event>, k: nat)
    requires core.Ok() && k < |es|
  {
    && (forall n: nat :: k < n <= |es| ==> HeldAt(core, es, n))
    && (k > 0 ==> !HeldAt(core, es, k))
  }

  /** One call either latches, keeps or releases the anchor, as its verdict says. */
  lemma LatchFollowsVerdict(core: Core, st: State, e: Event)
    requires core.Ok() && core.dim > 0 && TraceOf(st.trace, core.Atoms())
    ensures
      var (next, v) := After(core, st, e);
      && (next.holdActive <==> v.backupKind == Some(HoldPose))
      && (next.holdActive ==>
          && |e.input.position| >= core.dim
          && next.holdAnchor == (if st.holdActive then st.holdAnchor else e.input.position[..core.dim])
          && v.action == Lift(core.backup.Law(HoldPose, FallbackMode(core, e.input), e.input.position,
               e.input.velocity, Some(next.holdAnchor))))
  {
    hide Core.Ok, Backup.Law, Solve, MonitorFires, BoundViolated, Perturbed;
  }

  /** In every reachable state of a spatial core the latch is set exactly when the
      last outcome was a Hold fallback, and then the anchor it steers to is the
      position at the first call of the current unbroken streak. */
  lemma {:induction false} HoldLatch(core: Core, es: seq<Event>) returns (k: nat)
    requires core.Ok() && core.dim > 0
    ensures StateAfter(core, es).holdActive <==> es != [] && HeldAt(core, es, |es|)
    ensures StateAfter(core, es).holdActive ==>
      && k < |es| && HoldStreak(core, es, k) && |es[k].input.position| >= core.dim
      && StateAfter(core, es).holdAnchor == es[k].input.position[..core.dim]
  {
    hide After, Core.Ok, TraceOf;
    k := 0;
    if es != [] {
      var n: nat := |es| - 1;
      var before := es[..n];
      k := HoldLatch(core, before);
      LatchFollowsVerdict(core, StateAfter(core, before), es[n]);
      assert es[..|es|] == es;
      forall m: nat | 0 < m <= n ensures HeldAt(core, es, m) == HeldAt(core, before, m) {
        assert es[..m] == before[..m];
      }
      if StateAfter(core, es).holdActive && !StateAfter(core, before).holdActive {
        k := n;
      }
    }
  }

  // ---- What every command is bounded by ---------------------------------------------------

  /** Whatever the input, the emitted command is finite. */
  lemma EveryCommandIsFinite(core: Core, st: State, e: Event)
    requires core.Ok() && TraceOf(st.trace, core.Atoms())
    ensures AllFinite(After(core, st, e).1.action)
  {}

  /** The verdict carries a numeric command rather than a certified directive. */
  predicate IsNumeric(v: Verdict, input: SafetyInput) {
    v.layer != Primary || input.proposed.Channel().Some?
  }

  /** The ceilings both layers enforce: the lower of configured and authored. */
  function SpeedCeiling(model: CompiledSafetyModel, cfg: CoreConfig): real {
    if model.actionLimits.maxVelocity.Some?
    then RMin(cfg.shield.vMax, model.actionLimits.maxVelocity.value) else cfg.shield.vMax
  }

  function AccelCeiling(model: CompiledSafetyModel, cfg: CoreConfig): real {
    if model.actionLimits.maxAccel.Some?
    then RMin(cfg.shield.uMax, model.actionLimits.maxAccel.value) else cfg.shield.uMax
  }

  /** A command within the ceilings of its channel, up to slack. */
  ghost predicate WithinCeilings(sqrt: Root, model: CompiledSafetyModel, cfg: CoreConfig,
                                 mode: ControlMode, p: Vec, x: Vec, slack: real) {
    match mode
    case Effort => forall i :: 0 <= i < |x| ==> RAbs(x[i]) <= AccelCeiling(model, cfg) + slack
    case Velocity => Norm(sqrt, x) <= SpeedCeiling(model, cfg) + slack
    case Position => |x| == |p| && Norm(sqrt, Sub(x, p)) <= SpeedCeiling(model, cfg) * model.samplePeriod + slack
  }

  /** The shield and the backup of a core share period, geometry and ceilings. */
  ghost predicate Envelope(sqrt: Root, model: CompiledSafetyModel, cfg: CoreConfig, core: Core) {
    && core.Ok() && core.dim > 0 && core.shield.Some? && core.backup.Ok() && core.shield.value.Ok()
    && core.model == model && core.shield.value.cfg == cfg.shield
    && var (s, b) := (core.shield.value, core.backup);
      && b.sqrt == s.sqrt == sqrt && b.dt == s.dt == model.samplePeriod && s.dim == b.dim == core.dim
      && b.barriers == s.barriers
      && b.uMax == s.uMax == AccelCeiling(model, cfg)
      && b.vMax == s.vMax == SpeedCeiling(model, cfg) >= 0.0
      && b.stepMax == s.stepMax == SpeedCeiling(model, cfg) * model.samplePeriod >= 0.0
  }

  /** A core built from a decoded keep-out model with non-negative configured ceilings. */
  ghost predicate KeepOutCore(sqrt: Root, model: CompiledSafetyModel, cfg: CoreConfig, core: Core) {
    && IsSqrt(sqrt) && ModelOk(model) && LeavesInRange(model) && model.keepOutTerms != []
    && cfg.shield.vMax >= 0.0 && cfg.shield.uMax >= 0.0 && core == NewCore(sqrt, model, cfg)
  }

  lemma EnvelopeParts(sqrt: Root, model: CompiledSafetyModel, cfg: CoreConfig, core: Core)
    requires KeepOutCore(sqrt, model, cfg, core)
    ensures Envelope(sqrt, model, cfg, core)
  {
    NewCoreIsOk(sqrt, model, cfg);
    assert SpeedCeiling(model, cfg) >= 0.0;
    assert SpeedCeiling(model, cfg) * model.samplePeriod >= 0.0;
  }

  /** Where a command comes from: a recovery law in the fallback channel, or a
      certified solve in the proposal's own. */
  ghost predicate FromBackup(core: Core, input: SafetyInput, v: Verdict)
    requires core.Ok()
  {
    && v.mode == FallbackMode(core, input)
    && exists kind, hold ::
        v.action == Lift(core.backup.Law(kind, v.mode, input.position, input.velocity, hold))
  }

  ghost predicate FromShield(core: Core, input: SafetyInput, v: Verdict)
    requires core.Ok() && core.shield.Some?
  {
    && input.proposed.Channel() == Some(v.mode)
    && var out := Solve(core.shield.value, v.mode, input.position, input.velocity, input.proposed.Setpoint());
      out.certified && v.action == out.action
  }

  lemma FallBackIsFromBackup(core: Core, st: State, input: SafetyInput, kind: BackupKind, reason: Reason,
                             fired: seq<nat>, margin: Ext)
    requires core.Ok()
    ensures FromBackup(core, input, FallBack(core, st, input, kind, reason, fired, margin).1)
  {
    hide Core.Ok, Backup.Law;
  }

  lemma EveryCommandHasASource(core: Core, st: State, e: Event)
    requires core.Ok() && core.shield.Some? && TraceOf(st.trace, core.Atoms())
    ensures
      var v := After(core, st, e).1;
      && (v.layer == BackupLayer ==> FromBackup(core, e.input, v))
      && (v.layer != BackupLayer && IsNumeric(v, e.input) ==> FromShield(core, e.input, v))
  {
    hide Core.Ok, FromBackup, FallBack, Solve, MonitorFires, BoundViolated, Perturbed, ModelOk;
    forall s: State, kind, reason, fired, margin
      ensures FromBackup(core, e.input, FallBack(core, s, e.input, kind, reason, fired, margin).1)
    {
      FallBackIsFromBackup(core, s, e.input, kind, reason, fired, margin);
    }
  }

  lemma BackupInCeilings(sqrt: Root, model: CompiledSafetyModel, cfg: CoreConfig, core: Core, input: SafetyInput, v: Verdict)
    requires Envelope(sqrt, model, cfg, core) && FromBackup(core, input, v) && GoodVector(input.position, core.dim)
    ensures |v.action| == core.dim
    ensures WithinCeilings(sqrt, model, cfg, v.mode, Values(input.position, core.dim), Values(v.action, core.dim), 0.0)
  {
    var kind, hold :| v.action == Lift(core.backup.Law(kind, v.mode, input.position, input.velocity, hold));
    hide Core.Ok, Backup.Law, Norm, RMin;
    LawIsInEnvelope(core.backup, kind, v.mode, input.position, input.velocity, hold);
    ValuesOfLift(core.backup.Law(kind, v.mode, input.position, input.velocity, hold));
  }

  lemma ShieldInCeilings(sqrt: Root, model: CompiledSafetyModel, cfg: CoreConfig, core: Core, input: SafetyInput, v: Verdict)
    requires Envelope(sqrt, model, cfg, core) && FromShield(core, input, v)
    ensures |v.action| == core.dim
    ensures WithinCeilings(sqrt, model, cfg, v.mode, Values(input.position, core.dim), Values(v.action, core.dim),
      cfg.shield.tol)
  {
    hide Core.Ok, Solve, Norm, RMin, Rows, RowsFeasible, SafeAt, NextPose;
    var x := CertifiedCommand(core.shield.value, v.mode, input.position, input.velocity, input.proposed.Setpoint());
    ValuesOfLift(x);
  }

  /** What a positive certificate says. */
  lemma CertifiedCommand(par: Params, mode: ControlMode, p: seq<Float>, v: seq<Float>, x0: seq<Float>) returns (x: Vec)
    requires par.Ok() && Solve(par, mode, p, v, x0).certified
    ensures GoodVector(p, par.dim) && GoodVector(v, par.dim) && |x| == par.dim
    ensures Solve(par, mode, p, v, x0).action == Lift(x)
    ensures Certified(par, mode, Rows(par, mode, Values(p, par.dim), Values(v, par.dim)), Values(p, par.dim), x)
  {
    hide Rows, Certified, NoneDegenerate, MinMargin;
    var pose := Values(p, par.dim);
    var rows := Rows(par, mode, pose, Values(v, par.dim));
    var sets := SetsOf(par.Kinematic(mode, pose), rows);
    x := Budgeted(par.sqrt, sets, rows, par.cfg.tol, Start(sets, Values(x0, par.dim)), par.cfg.maxIter).x;
  }

  /** One envelope for both layers: on a keep-out model, for any call with a
      well-formed position, the numeric command lies within the ceilings of its
      channel, exactly if a recovery law made it and within tol if the shield did. */
  lemma EveryCommandIsInEnvelope(
    sqrt: Root, model: CompiledSafetyModel, cfg: CoreConfig, core: Core, st: State, e: Event)
    requires KeepOutCore(sqrt, model, cfg, core) && core.Ok() && TraceOf(st.trace, core.Atoms())
    requires GoodVector(e.input.position, core.dim)
    ensures
      var v := After(core, st, e).1;
      IsNumeric(v, e.input) ==>
        && |v.action| == core.dim
        && WithinCeilings(sqrt, model, cfg, v.mode, Values(e.input.position, core.dim),
             Values(v.action, core.dim), if v.layer == BackupLayer then 0.0 else cfg.shield.tol)
  {
    hide KeepOutCore, Core.Ok, After, WithinCeilings, FromBackup, FromShield;
    EnvelopeParts(sqrt, model, cfg, core);
    EveryCommandHasASource(core, st, e);
    var v := After(core, st, e).1;
    if v.layer == BackupLayer {
      BackupInCeilings(sqrt, model, cfg, core, e.input, v);
    } else if IsNumeric(v, e.input) {
      ShieldInCeilings(sqrt, model, cfg, core, e.input, v);
    }
  }

  // ---- Minimal intervention, end to end -----------------------------------------------------

  /** A command that needs no change, on a quiet on-time call at a non-degenerate
      pose, is re-emitted unchanged in its first dim coordinates by the primary
      layer, in all three modes. */
  lemma MinimalIntervention(core: Core, es: seq<Event>, mode: ControlMode)
    requires core.Ok() && core.shield.Some? && es != [] && es[|es| - 1].OnTime?
    requires core.dim > 0 && core.cfg.unchangedTol >= 0.0 && core.shield.value.cfg.tol >= 0.0
    requires
      var input := es[|es| - 1].input;
      && GoodInput(core, input) && Quiet(core, es) && input.proposed.Channel() == Some(mode)
      && NeedsNoChange(core.shield.value, mode, Values(input.position, core.dim), Values(input.velocity, core.dim),
           Values(input.proposed.Setpoint(), core.dim))
    ensures
      var v := VerdictAfterRun(core, es);
      && v.action == es[|es| - 1].input.proposed.Setpoint()[..core.dim]
      && v.mode == mode && v.layer == Primary && v.intervention == NoIntervention && v.reason == Accepted
  {
    hide Core.Ok, NeedsNoChange, Solve;
    var input := es[|es| - 1].input;
    var setpoint := input.proposed.Setpoint();
    assert AllFinite(setpoint[..core.dim]);
    CoreParts(core);
    NoChangeIsMade(core.shield.value, mode, input.position, input.velocity, setpoint);
    TraceIsGoodTicks(core, es);
    QuietIff(core, es);
    assert !Perturbed(setpoint[..core.dim], setpoint, core.dim, core.cfg.unchangedTol);
  }

  // ---- Closed loop ---------------------------------------------------------------------------

  /** Where a kinematic plant is after a verdict: a certified directive moves nothing. */
  function Moved(dt: real, v: Verdict, input: SafetyInput, pose: Vec): (next: Vec)
    ensures |next| == |pose|
  {
    if IsNumeric(v, input) then NextPose(v.mode, dt, pose, Values(v.action, |pose|)) else pose
  }

  /** The largest barrier violation the loop can ever show. */
  function LoopSlack(cfg: CoreConfig): real { RMax(cfg.shield.tol, SET_TOL) }

  /** Nothing is commanded in the Effort channel. */
  predicate KinematicOnly(cfg: CoreConfig, e: Event) {
    !cfg.policy.fallbackMode.Effort? && !e.input.proposed.EffortCommand?
  }

  /** The core reads the true pose. */
  predicate ReadsPose(e: Event, pose: Vec) {
    GoodVector(e.input.position, |pose|) && Values(e.input.position, |pose|) == pose
  }

  /** One call, whatever it is and whichever layer answers it, keeps the pose safe. */
  lemma TickKeepsSafe(
    sqrt: Root, model: CompiledSafetyModel, cfg: CoreConfig, core: Core, st: State, e: Event, pose: Vec)
    requires KeepOutCore(sqrt, model, cfg, core) && core.Ok() && TraceOf(st.trace, core.Atoms())
    requires |pose| == core.dim && ReadsPose(e, pose) && KinematicOnly(cfg, e)
    requires Envelope(sqrt, model, cfg, core) && SafeAt(core.shield.value, pose, LoopSlack(cfg))
    ensures SafeAt(core.shield.value, Moved(model.samplePeriod, After(core, st, e).1, e.input, pose), LoopSlack(cfg))
  {
    var v := After(core, st, e).1;
    EveryCommandHasASource(core, st, e);
    KinematicChannel(sqrt, model, cfg, core, e, v);
    hide KeepOutCore, Core.Ok, After, FromBackup, FromShield, SafeAt, FallbackMode;
    if v.layer == BackupLayer {
      BackupKeepsSafe(sqrt, model, cfg, core, e.input, v, pose);
    } else if IsNumeric(v, e.input) {
      ShieldKeepsSafe(sqrt, model, cfg, core, e.input, v, pose);
    }
  }

  lemma KinematicChannel(
    sqrt: Root, model: CompiledSafetyModel, cfg: CoreConfig, core: Core, e: Event, v: Verdict)
    requires core == NewCore(sqrt, model, cfg) && core.Ok() && core.shield.Some? && KinematicOnly(cfg, e)
    ensures FromBackup(core, e.input, v) || FromShield(core, e.input, v) ==> !v.mode.Effort?
  {
    hide Core.Ok, Backup.Law, Solve;
  }

  lemma BackupKeepsSafe(
    sqrt: Root, model: CompiledSafetyModel, cfg: CoreConfig, core: Core, input: SafetyInput, v: Verdict, pose: Vec)
    requires Envelope(sqrt, model, cfg, core) && FromBackup(core, input, v) && !v.mode.Effort?
    requires |pose| == core.dim && GoodVector(input.position, core.dim) && Values(input.position, core.dim) == pose
    requires SafeAt(core.shield.value, pose, LoopSlack(cfg))
    ensures SafeAt(core.shield.value, NextPose(v.mode, model.samplePeriod, pose, Values(v.action, core.dim)), LoopSlack(cfg))
  {
    var kind, hold :| v.action == Lift(core.backup.Law(kind, v.mode, input.position, input.velocity, hold));
    hide Core.Ok, Backup.Law, StaticH;
    LawKeepsSafe(core.backup, kind, v.mode, input.position, input.velocity, hold);
    ValuesOfLift(core.backup.Law(kind, v.mode, input.position, input.velocity, hold));
  }

  lemma ShieldKeepsSafe(
    sqrt: Root, model: CompiledSafetyModel, cfg: CoreConfig, core: Core, input: SafetyInput, v: Verdict, pose: Vec)
    requires Envelope(sqrt, model, cfg, core) && FromShield(core, input, v) && !v.mode.Effort?
    requires |pose| == core.dim && Values(input.position, core.dim) == pose
    ensures SafeAt(core.shield.value, NextPose(v.mode, model.samplePeriod, pose, Values(v.action, core.dim)), LoopSlack(cfg))
  {
    var x := CertifiedCommand(core.shield.value, v.mode, input.position, input.velocity, input.proposed.Setpoint());
    ValuesOfLift(x);
    hide Core.Ok, Solve, StaticH, RowsFeasible, InKinematic;
  }

  /** A run of the core and the plant together. */
  ghost predicate ClosedLoop(model: CompiledSafetyModel, cfg: CoreConfig, core: Core, es: seq<Event>, poses: seq<Vec>)
    requires core.Ok()
  {
    && |poses| == |es| + 1
    && (forall k: nat :: k < |poses| ==> |poses[k]| == core.dim)
    && (forall k: nat :: k < |es| ==> ReadsPose(es[k], poses[k]) && KinematicOnly(cfg, es[k]))
    && forall k: nat :: k < |es| ==>
        poses[k + 1] == Moved(model.samplePeriod, VerdictAfterRun(core, es[..k + 1]), es[k].input, poses[k])
  }

  /** Closed-loop safety: whatever signals, velocities and proposals arrive, whatever
      fires, overruns or is forced, a plant that starts outside every keep-out within
      the loop slack stays outside forever. */
  lemma {:induction false} ClosedLoopIsSafe(
    sqrt: Root, model: CompiledSafetyModel, cfg: CoreConfig, core: Core, es: seq<Event>, poses: seq<Vec>, n: nat)
    requires KeepOutCore(sqrt, model, cfg, core) && core.Ok() && core.shield.Some?
    requires ClosedLoop(model, cfg, core, es, poses) && n <= |es|
    requires SafeAt(core.shield.value, poses[0], LoopSlack(cfg))
    ensures SafeAt(core.shield.value, poses[n], LoopSlack(cfg))
  {
    EnvelopeParts(sqrt, model, cfg, core);
    hide KeepOutCore, Core.Ok, After, SafeAt, Moved;
    if n > 0 {
      var k: nat := n - 1;
      ClosedLoopIsSafe(sqrt, model, cfg, core, es, poses, k);
      assert es[..k + 1][..k] == es[..k];
      TickKeepsSafe(sqrt, model, cfg, core, StateAfter(core, es[..k]), es[k], poses[k]);
      assert poses[k + 1] == Moved(model.samplePeriod, VerdictAfterRun(core, es[..k + 1]), es[k].input, poses[k]);
    }
  }

  /** In terms of the authored geometry: the plant never comes closer to a box or
      sphere than its margin less the slack. */
  lemma ClosedLoopKeepsItsDistance(
    sqrt: Root, model: CompiledSafetyModel, cfg: CoreConfig, core: Core, es: seq<Event>, poses: seq<Vec>,
    n: nat, i: nat, y: Vec)
    requires KeepOutCore(sqrt, model, cfg, core) && core.Ok() && core.shield.Some?
    requires ClosedLoop(model, cfg, core, es, poses) && n <= |es|
    requires SafeAt(core.shield.value, poses[0], LoopSlack(cfg))
    requires i < |model.keepOutTerms| && !model.keepOutTerms[i].shape.HalfSpace?
    requires |y| == core.dim && InRegion(sqrt, model.keepOutTerms[i], y)
    ensures Norm(sqrt, Sub(poses[n], y)) >= model.keepOutTerms[i].margin - LoopSlack(cfg)
  {
    ClosedLoopIsSafe(sqrt, model, cfg, core, es, poses, n);
    assert core.shield.value.barriers[i] == FromTerm(sqrt, model.keepOutTerms[i], core.dim);
    hide Core.Ok, Norm, After;
    RoundRegionClearance(sqrt, model.keepOutTerms[i], poses[n], y, LoopSlack(cfg));
  }

  /** And it stays on its side of every half-space, margin included, up to the slack
      times the length of the authored normal. */
  lemma ClosedLoopKeepsItsSide(
    sqrt: Root, model: CompiledSafetyModel, cfg: CoreConfig, core: Core, es: seq<Event>, poses: seq<Vec>, n: nat, i: nat)
    requires KeepOutCore(sqrt, model, cfg, core) && core.Ok() && core.shield.Some?
    requires ClosedLoop(model, cfg, core, es, poses) && n <= |es|
    requires SafeAt(core.shield.value, poses[0], LoopSlack(cfg))
    requires i < |model.keepOutTerms| && model.keepOutTerms[i].shape.HalfSpace?
    ensures
      var t := model.keepOutTerms[i];
      && |t.normal| == core.dim
      && Dot(t.normal, poses[n]) + OffsetOf(t) >= t.margin - LoopSlack(cfg) * NormalLength(sqrt, t)
  {
    ClosedLoopIsSafe(sqrt, model, cfg, core, es, poses, n);
    assert core.shield.value.barriers[i] == FromTerm(sqrt, model.keepOutTerms[i], core.dim);
    assert TermFits(model.keepOutTerms[i], core.dim);
    hide Core.Ok, Norm, After;
    HalfSpaceWithin(sqrt, model.keepOutTerms[i], poses[n], LoopSlack(cfg));
  }
}
