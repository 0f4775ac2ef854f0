/** The arbiter: one certified action per tick, under a strict precedence of
    layers. First as a state machine on values, then as the class that runs it. */
module Arbiters {
  import opened Wrappers
  import opened Numbers
  import opened Vectors
  import opened TraceSemantics
  import opened SafetyModel
  import opened Monitors
  import opened Barriers
  import opened Shields
  import opened Backups

  datatype Layer = Primary | ShieldLayer | BackupLayer

  datatype Intervention = NoIntervention | Modified | FellBack

  datatype Reason =
    | Accepted | ShieldCorrected | ScalarViolated | MonitorFired
    | QpUncertifiable | BadInput | WatchdogExpired | NotCertifiable

  datatype ProposedAction =
    | EffortCommand(setpoint: seq<Float>)
    | VelocityCommand(setpoint: seq<Float>)
    | PositionCommand(setpoint: seq<Float>)
    | Opaque
    | ModeDirective(name: string)
    | TaskDirective(name: string)
  {
    function Channel(): Option<ControlMode> {
      match this
      case EffortCommand(_) => Some(Effort)
      case VelocityCommand(_) => Some(Velocity)
      case PositionCommand(_) => Some(Position)
      case _ => None
    }

    function Setpoint(): seq<Float> {
      if Channel().Some? then setpoint else []
    }
  }

  /** The configured allowlist may only narrow the authored grant; silence grants
      nothing. */
  function Narrow(configured: seq<string>, authored: Option<seq<string>>): (names: seq<string>)
    ensures forall name :: name in names <==> name in configured && authored.Some? && name in authored.value
  {
    if authored.None? || configured == [] then []
    else
      var rest := Narrow(configured[1..], authored);
      if configured[0] in authored.value then [configured[0]] + rest else rest
  }

  datatype ActionPolicy = ActionPolicy(
    certifiedModes: seq<string>, certifiedTasks: seq<string>, fallbackMode: ControlMode)
  {
    predicate Admits(proposed: ProposedAction) {
      match proposed
      case ModeDirective(name) => name in certifiedModes
      case TaskDirective(name) => name in certifiedTasks
      case _ => false
    }

    function NarrowedTo(authored: Option<AdmissibleDirectives>): ActionPolicy {
      ActionPolicy(
        Narrow(certifiedModes, if authored.Some? then Some(authored.value.modes) else None),
        Narrow(certifiedTasks, if authored.Some? then Some(authored.value.tasks) else None),
        fallbackMode)
    }
  }

  datatype CoreConfig = CoreConfig(
    horizon: nat, shield: ShieldConfig, kBrake: real, unchangedTol: real, policy: ActionPolicy)

  datatype SafetyInput = SafetyInput(
    signals: seq<Float>, position: seq<Float>, velocity: seq<Float>, proposed: ProposedAction)

  datatype Verdict = Verdict(
    action: seq<Float>, mode: ControlMode, layer: Layer, intervention: Intervention,
    reason: Reason, fired: seq<nat>, backupKind: Option<BackupKind>, minMargin: Ext)

  function KindOf(onUncertain: OnUncertain): BackupKind {
    match onUncertain
    case Fallback => BrakeToStop
    case Hold => HoldPose
    case SafeState => Retreat
  }

  /** Everything about a core that is fixed at construction. */
  datatype Core = Core(
    model: CompiledSafetyModel, cfg: CoreConfig, dim: nat, shield: Option<Params>, backup: Backup)
  {
    ghost predicate Ok() {
      && ModelOk(model) && LeavesInRange(model) && backup.Ok() && backup.dim == dim
      && (shield.Some? ==> shield.value.Ok() && shield.value.dim == dim)
    }

    function Atoms(): nat { |model.atoms| }
  }

  function NewCore(sqrt: Root, model: CompiledSafetyModel, cfg: CoreConfig): Core {
    var dim := if model.spatialDim.Some? then model.spatialDim.value else 0;
    var effective := cfg.(policy := cfg.policy.NarrowedTo(model.admissibleDirectives));
    Core(model, effective, dim,
      if dim > 0 && model.keepOutTerms != []
      then Some(NewParams(sqrt, model.keepOutTerms, dim, cfg.shield, model.samplePeriod, model.actionLimits))
      else None,
      NewBackup(sqrt, dim, cfg.shield, cfg.kBrake, model.samplePeriod, model.safePose, model.keepOutTerms,
        model.actionLimits))
  }

  /** The state of a run: the ticks the monitors were advanced over, and the latch. */
  datatype State = State(trace: Trace, holdActive: bool, holdAnchor: seq<Float>)

  const INITIAL: State := State([], false, [])

  // ---- The decision as a function ---------------------------------------------------

  predicate GoodInput(core: Core, input: SafetyInput) {
    && |input.signals| == |core.model.signals| && AllFinite(input.signals)
    && (core.dim == 0 || (GoodVector(input.position, core.dim) && GoodVector(input.velocity, core.dim)))
    && (input.proposed.Channel().Some? ==>
        |input.proposed.Setpoint()| >= core.dim && AllFinite(input.proposed.Setpoint()))
  }

  /** The robustness of every atom this tick. */
  function Tick(core: Core, signals: seq<Float>): (v: seq<Ext>)
    requires ModelOk(core.model) && |signals| == |core.model.signals|
    ensures |v| == core.Atoms()
  {
    seq(core.Atoms(), i requires 0 <= i < core.Atoms() => AtomNow(core, signals, i))
  }

  function AtomNow(core: Core, signals: seq<Float>, i: nat): Ext
    requires ModelOk(core.model) && |signals| == |core.model.signals| && i < core.Atoms()
  {
    var atom := core.model.atoms[i];
    Fin(atom.op.Robustness(FiniteAt(signals, atom.signalIndex), atom.threshold))
  }

  predicate MonitorFires(core: Core, tr: Trace, k: nat)
    requires core.Ok() && TraceOf(tr, core.Atoms()) && tr != [] && k < |core.model.monitors|
  {
    VerdictAfter(core.model.monitors[k].root, tr, core.Atoms(), core.cfg.horizon).Fired()
  }

  /** The first monitor from k on that fires. */
  function FirstMonitor(core: Core, tr: Trace, k: nat): (r: Option<nat>)
    requires core.Ok() && TraceOf(tr, core.Atoms()) && tr != [] && k <= |core.model.monitors|
    ensures r.Some? ==> k <= r.value < |core.model.monitors| && MonitorFires(core, tr, r.value)
    ensures forall j :: k <= j < (if r.Some? then r.value else |core.model.monitors|) ==> !MonitorFires(core, tr, j)
    decreases |core.model.monitors| - k
  {
    if k == |core.model.monitors| then None
    else if MonitorFires(core, tr, k) then Some(k)
    else FirstMonitor(core, tr, k + 1)
  }

  predicate BoundViolated(core: Core, v: seq<Ext>, k: nat)
    requires ModelOk(core.model) && |v| == core.Atoms() && k < |core.model.scalarBounds|
  {
    Negative(v[core.model.scalarBounds[k].atomIndex])
  }

  /** The first scalar bound from k on that is violated. */
  function FirstBound(core: Core, v: seq<Ext>, k: nat): (r: Option<nat>)
    requires ModelOk(core.model) && |v| == core.Atoms() && k <= |core.model.scalarBounds|
    ensures r.Some? ==> k <= r.value < |core.model.scalarBounds| && BoundViolated(core, v, r.value)
    ensures forall j :: k <= j < (if r.Some? then r.value else |core.model.scalarBounds|) ==> !BoundViolated(core, v, j)
    decreases |core.model.scalarBounds| - k
  {
    if k == |core.model.scalarBounds| then None
    else if BoundViolated(core, v, k) then Some(k)
    else FirstBound(core, v, k + 1)
  }

  function FallbackMode(core: Core, input: SafetyInput): ControlMode {
    var channel := input.proposed.Channel();
    if channel.Some? then channel.value else core.cfg.policy.fallbackMode
  }

  /** The latch after a backup of this kind. */
  function Latch(core: Core, st: State, input: SafetyInput, kind: BackupKind): State {
    if kind != HoldPose then st.(holdActive := false)
    else if !st.holdActive && core.dim > 0 && |input.position| >= core.dim then
      st.(holdActive := true, holdAnchor := input.position[..core.dim])
    else st
  }

  ghost function FallBack(core: Core, st: State, input: SafetyInput, kind: BackupKind, reason: Reason,
                          fired: seq<nat>, margin: Ext): (r: (State, Verdict))
    requires core.Ok()
    ensures r.0.trace == st.trace && r.1.backupKind == Some(kind) && r.1.layer == BackupLayer
  {
    var next := Latch(core, st, input, kind);
    var hold := if kind == HoldPose && next.holdActive then Some(next.holdAnchor) else None;
    var mode := FallbackMode(core, input);
    var action := core.backup.Law(kind, mode, input.position, input.velocity, hold);
    (next, Verdict(Lift(action), mode, BackupLayer, FellBack, reason, fired, Some(kind), margin))
  }

  ghost function Watchdog(core: Core, st: State, input: SafetyInput): (r: (State, Verdict))
    requires core.Ok()
    ensures r.0.trace == st.trace
  {
    FallBack(core, st, input, BrakeToStop, WatchdogExpired, [], NegInf)
  }

  /** The shield's command differs from the proposal by more than tol somewhere. */
  predicate Perturbed(action: seq<Float>, proposed: seq<Float>, dim: nat, tol: real)
    requires |action| >= dim && |proposed| >= dim
  {
    exists i :: 0 <= i < dim && RAbs(FiniteAt(action, i) - FiniteAt(proposed, i)) > tol
  }

  function Accept(action: seq<Float>, mode: ControlMode, margin: Ext): Verdict {
    Verdict(action, mode, Primary, NoIntervention, Accepted, [], None, margin)
  }

  /** The gate and the shield, once no detect layer has fired. */
  ghost function Correct(core: Core, st: State, input: SafetyInput): (r: (State, Verdict))
    requires core.Ok() && GoodInput(core, input)
    ensures r.0.trace == st.trace
  {
    var free := st.(holdActive := false);
    var channel := input.proposed.Channel();
    var setpoint := input.proposed.Setpoint();
    if channel.None? then
      if core.cfg.policy.Admits(input.proposed)
      then (free, Accept([], core.cfg.policy.fallbackMode, PosInf))
      else FallBack(core, st, input, BrakeToStop, NotCertifiable, [], PosInf)
    else if core.shield.None? then (free, Accept(setpoint, channel.value, PosInf))
    else
      var out := Solve(core.shield.value, channel.value, input.position, input.velocity, setpoint);
      if !out.certified then FallBack(core, st, input, BrakeToStop, QpUncertifiable, [], out.minH)
      else if Perturbed(out.action, setpoint, core.dim, core.cfg.unchangedTol) then
        (free, Verdict(out.action, channel.value, ShieldLayer, Modified, ShieldCorrected, [], None, out.minH))
      else (free, Accept(out.action, channel.value, out.minH))
  }

  /** The detect layers, then the rest, once the tick is on the trace. */
  ghost function AfterDetect(core: Core, st: State, input: SafetyInput): (r: (State, Verdict))
    requires core.Ok() && GoodInput(core, input) && TraceOf(st.trace, core.Atoms()) && st.trace != []
    ensures r.0.trace == st.trace
  {
    var bound := FirstBound(core, Tick(core, input.signals), 0);
    var monitor := FirstMonitor(core, st.trace, 0);
    if bound.Some? then
      FallBack(core, st, input, KindOf(core.model.scalarBounds[bound.value].onUncertain), ScalarViolated,
        [bound.value], PosInf)
    else if monitor.Some? then
      FallBack(core, st, input, KindOf(core.model.monitors[monitor.value].onUncertain), MonitorFired,
        [|core.model.scalarBounds| + monitor.value], PosInf)
    else Correct(core, st, input)
  }

  /** One tick: the new state and the verdict. */
  ghost function Decision(core: Core, st: State, input: SafetyInput, forced: bool): (r: (State, Verdict))
    requires core.Ok() && TraceOf(st.trace, core.Atoms())
    ensures TraceOf(r.0.trace, core.Atoms())
  {
    if forced then Watchdog(core, st, input)
    else if !GoodInput(core, input) then FallBack(core, st, input, BrakeToStop, BadInput, [], PosInf)
    else AfterDetect(core, st.(trace := st.trace + [Tick(core, input.signals)]), input)
  }

  lemma CoreParts(core: Core)
    requires core.Ok()
    ensures core.backup.Ok() && core.backup.dim == core.dim
    ensures core.shield.Some? ==> core.shield.value.Ok() && core.shield.value.dim == core.dim
  {}

  // ---- The core that runs it ----------------------------------------------------------

  /** The names `fired` indices resolve to: scalar bounds first, then monitors. */
  function Catalog(model: CompiledSafetyModel): (names: seq<string>)
    ensures |names| == |model.scalarBounds| + |model.monitors|
  {
    seq(|model.scalarBounds|, i requires 0 <= i < |model.scalarBounds| => model.scalarBounds[i].constraintId)
    + seq(|model.monitors|, i requires 0 <= i < |model.monitors| => model.monitors[i].constraintId)
  }

  /** The reused output buffer of a tick. */
  class VerdictBuffer {
    var action: seq<Float>
    var mode: ControlMode
    var layer: Layer
    var intervention: Intervention
    var reason: Reason
    var fired: seq<nat>
    var backupKind: Option<BackupKind>
    var minMargin: Ext

    constructor ()
      ensures View() == Verdict([], Effort, BackupLayer, FellBack, BadInput, [], Some(BrakeToStop), PosInf)
    {
      action, mode, layer, intervention := [], Effort, BackupLayer, FellBack;
      reason, fired, backupKind, minMargin := BadInput, [], Some(BrakeToStop), PosInf;
    }

    /** Report how the command came about; `fired` and `minMargin` stay. */
    method Report(command: seq<Float>, channel: ControlMode, source: Layer, what: Intervention, why: Reason,
                  kind: Option<BackupKind>)
      modifies this
      ensures View() == Verdict(command, channel, source, what, why, old(fired), kind, old(minMargin))
      ensures fired == old(fired) && minMargin == old(minMargin)
    {
      action, mode, layer, intervention := command, channel, source, what;
      reason, backupKind := why, kind;
    }

    ghost function View(): Verdict
      reads this
    {
      Verdict(action, mode, layer, intervention, reason, fired, backupKind, minMargin)
    }
  }

  ghost function StorageOfAll(monitors: seq<Monitor>): set<object> {
    set i, o | 0 <= i < |monitors| && o in monitors[i].repr :: o
  }

  /** One monitor for each of the model's, over the core's atoms. */
  ghost predicate Fitting(core: Core, monitors: seq<Monitor>) {
    && |monitors| == |core.model.monitors|
    && forall i :: 0 <= i < |monitors| ==>
        && monitors[i] in monitors[i].repr
        && monitors[i].formula == core.model.monitors[i].root && monitors[i].n == core.Atoms()
  }

  /** Every monitor is valid and has seen no tick. */
  ghost predicate AllBlank(core: Core, monitors: seq<Monitor>)
    requires Fitting(core, monitors)
    reads StorageOfAll(monitors)
  {
    forall i: nat :: i < |monitors| ==> monitors[i].Valid() && monitors[i].trace == []
  }

  /** No two monitors share storage. */
  ghost predicate Apart(monitors: seq<Monitor>) {
    forall i, j :: 0 <= i < |monitors| && 0 <= j < |monitors| && i != j ==> monitors[i].repr !! monitors[j].repr
  }

  class SafetyCore {
    const core: Core
    const monitors: seq<Monitor>
    const shield: Shield?
    const predRob: array<Ext>
    const firedCatalog: seq<string>
    var holdAnchor: seq<Float>
    var holdActive: bool
    ghost const repr: set<object>
    ghost var trace: Trace

    ghost function MonitorRepr(): set<object> {
      StorageOfAll(monitors)
    }

    ghost function ShieldRepr(): set<object> {
      if shield == null then {} else shield.Repr()
    }

    /** Storage is disjoint and matches the core's fixed part. */
    ghost predicate Static() {
      && core.Ok() && predRob.Length == core.Atoms()
      && Fitting(core, monitors) && Apart(monitors)
      && this !in MonitorRepr() && predRob !in MonitorRepr()
      && (shield == null <==> core.shield.None?)
      && (shield != null ==> ShieldApart())
      && firedCatalog == Catalog(core.model)
      && repr == {this, predRob} + MonitorRepr() + ShieldRepr()
    }

    ghost predicate ShieldApart()
      requires shield != null && core.shield.Some?
    {
      && shield.Valid() && shield.par == core.shield.value
      && shield.Repr() !! MonitorRepr() && this !in shield.Repr() && predRob !in shield.Repr()
    }

    ghost predicate Valid()
      reads this, repr
    {
      Static() && TraceOf(trace, core.Atoms()) && MonitorsAt(trace)
    }

    ghost predicate MonitorsAt(tr: Trace)
      requires Static()
      reads MonitorRepr()
    {
      forall i: nat :: i < |monitors| ==> MonitorAt(i, tr)
    }

    ghost predicate MonitorAt(i: nat, tr: Trace)
      requires i < |monitors|
      reads monitors[i], monitors[i].repr
    {
      monitors[i].Valid() && monitors[i].trace == tr
    }

    /** The abstract state of the run so far. */
    ghost function Now(): State
      reads this
    {
      State(trace, holdActive, holdAnchor)
    }

    /** The deterministic per-tick decision. */
    method Decide(input: SafetyInput, forced: bool, out: VerdictBuffer)
      requires Valid() && out !in repr
      modifies repr, out
      ensures Valid() && (Now(), out.View()) == Decision(core, old(Now()), input, forced)
    {
      hide StorageOfAll, MonitorsAt, Fitting, Apart, Core.Ok, Correct, FallBack, Tick;
      out.fired := [];
      out.minMargin := PosInf;
      if forced {
        EmitWatchdog(input, out);
        return;
      }
      if !GoodInput(core, input) {
        EmitBackup(input, BrakeToStop, BadInput, out);
        return;
      }
      EvalAtoms(input);
      var monitorHit := StepMonitors(predRob[..]);
      Respond(input, monitorHit, out);
    }

    /** Layers 3 to 7, once the monitors have been advanced over this tick. */
    method Respond(input: SafetyInput, monitorHit: Option<nat>, out: VerdictBuffer)
      requires Valid() && out !in repr && GoodInput(core, input) && trace != []
      requires predRob[..] == Tick(core, input.signals) && monitorHit == FirstMonitor(core, trace, 0)
      requires out.fired == [] && out.minMargin == PosInf
      modifies `holdActive, `holdAnchor, out, ShieldRepr()
      ensures Valid() && (Now(), out.View()) == AfterDetect(core, old(Now()), input)
    {
      hide Core.Ok, Correct, FallBack, Tick, FirstMonitor, StorageOfAll, MonitorsAt, Fitting, Apart;
      var scalarHit := ScanBounds(predRob[..]);
      if scalarHit.Some? {
        out.fired := [scalarHit.value];
        EmitBackup(input, KindOf(core.model.scalarBounds[scalarHit.value].onUncertain), ScalarViolated, out);
        return;
      }
      if monitorHit.Some? {
        out.fired := [|core.model.scalarBounds| + monitorHit.value];
        EmitBackup(input, KindOf(core.model.monitors[monitorHit.value].onUncertain), MonitorFired, out);
        return;
      }
      GateAndShield(input, out);
    }

    /** Real-time step: the decision, overridden by the watchdog if it overran. */
    method StepGuarded(input: SafetyInput, overran: bool, out: VerdictBuffer)
      requires Valid() && out !in repr
      modifies repr, out
      ensures Valid()
      ensures
        var (st, verdict) := Decision(core, old(Now()), input, false);
        (Now(), out.View()) == if overran then Watchdog(core, st, input) else (st, verdict)
    {
      hide StorageOfAll, MonitorsAt, Fitting, Apart;
      Decide(input, false, out);
      if overran {
        EmitWatchdog(input, out);
      }
    }

    method EvalAtoms(input: SafetyInput)
      requires Static() && |input.signals| == |core.model.signals|
      modifies predRob
      ensures predRob[..] == Tick(core, input.signals)
    {
      for i := 0 to core.Atoms()
        invariant forall k :: 0 <= k < i ==> predRob[k] == AtomNow(core, input.signals, k)
      {
        var atom := core.model.atoms[i];
        predRob[i] := Fin(atom.op.Robustness(FiniteAt(input.signals, atom.signalIndex), atom.threshold));
      }
    }

    /** Advance every monitor, whatever fires; report the first that did. */
    method StepMonitors(v: seq<Ext>) returns (hit: Option<nat>)
      requires Valid() && |v| == core.Atoms()
      modifies MonitorRepr(), `trace
      ensures Valid() && trace == old(trace) + [v]
      ensures hit == FirstMonitor(core, trace, 0)
    {
      hide Monitor.Valid, Core.Ok, MonitorFires, MonitorAt;
      ghost var tr := trace + [v];
      assert TraceOf(tr, core.Atoms());
      hit := None;
      for i := 0 to |monitors|
        invariant trace == old(trace) && TraceOf(tr, core.Atoms())
        invariant forall k: nat :: k < i ==> MonitorAt(k, tr)
        invariant forall k: nat :: i <= k < |monitors| ==> MonitorAt(k, old(trace))
        invariant FirstMonitor(core, tr, 0) == if hit.Some? then hit else FirstMonitor(core, tr, i)
      {
        MonitorIsPart(i);
        var fires := StepMonitor(i, v, trace);
        if fires && hit.None? {
          hit := Some(i);
        }
      }
      trace := tr;
    }

    lemma MonitorIsPart(i: nat)
      requires i < |monitors|
      ensures monitors[i].repr <= MonitorRepr()
    {}

    method StepMonitor(i: nat, v: seq<Ext>, ghost tr: Trace) returns (fires: bool)
      requires Static() && i < |monitors| && |v| == core.Atoms() && MonitorAt(i, tr)
      requires TraceOf(tr + [v], core.Atoms())
      modifies monitors[i].repr
      ensures MonitorAt(i, tr + [v])
      ensures fires == MonitorFires(core, tr + [v], i)
    {
      hide Monitor.Valid;
      MonitorIsPart(i);
      var verdict := monitors[i].Step(v, core.cfg.horizon);
      fires := verdict.Fired();
    }

    method ScanBounds(v: seq<Ext>) returns (hit: Option<nat>)
      requires Static() && |v| == core.Atoms()
      ensures hit == FirstBound(core, v, 0)
    {
      for i := 0 to |core.model.scalarBounds|
        invariant FirstBound(core, v, 0) == FirstBound(core, v, i)
      {
        if Negative(v[core.model.scalarBounds[i].atomIndex]) {
          return Some(i);
        }
      }
      hit := None;
    }

    /** Emit a recovery command, managing the hold anchor: it latches on the first
        Hold of a streak and is released by any other outcome. */
    method EmitBackup(input: SafetyInput, kind: BackupKind, reason: Reason, out: VerdictBuffer)
      requires Valid() && out !in repr
      modifies `holdActive, `holdAnchor, out
      ensures Valid() && (Now(), out.View())
        == FallBack(core, old(Now()), input, kind, reason, old(out.fired), old(out.minMargin))
    {
      CoreParts(core);
      MonitorsElsewhere();
      hide SafetyCore.Static, StorageOfAll, MonitorsAt, Core.Ok, Backup.Law, Backup.Ok, Latch;
      var hold := ManageAnchor(input, kind);
      var mode := FallbackMode(core, input);
      var command := core.backup.Control(kind, mode, input.position, input.velocity, hold);
      out.Report(Lift(command), mode, BackupLayer, FellBack, reason, Some(kind));
    }

    lemma MonitorsElsewhere()
      requires Static()
      ensures core.Ok() && this !in MonitorRepr() && MonitorRepr() <= repr
    {
      hide StorageOfAll, Core.Ok, Fitting, Apart;
    }

    /** Latch, keep or release the anchor, and hand it out if it is held. */
    method ManageAnchor(input: SafetyInput, kind: BackupKind) returns (hold: Option<seq<Float>>)
      requires Static()
      modifies `holdActive, `holdAnchor
      ensures Now() == Latch(core, old(Now()), input, kind)
      ensures hold == if kind == HoldPose && holdActive then Some(holdAnchor) else None
    {
      hide SafetyCore.Static, Core.Ok;
      if kind == HoldPose {
        if !holdActive && core.dim > 0 && |input.position| >= core.dim {
          holdAnchor := input.position[..core.dim];
          holdActive := true;
        }
      } else {
        holdActive := false;
      }
      hold := if kind == HoldPose && holdActive then Some(holdAnchor) else None;
    }

    method EmitWatchdog(input: SafetyInput, out: VerdictBuffer)
      requires Valid() && out !in repr
      modifies `holdActive, out
      ensures Valid() && (Now(), out.View()) == Watchdog(core, old(Now()), input)
    {
      hide StorageOfAll, MonitorsAt, Fitting, Apart;
      holdActive := false;
      var mode := FallbackMode(core, input);
      var command := core.backup.Control(BrakeToStop, mode, input.position, input.velocity, None);
      out.fired, out.minMargin := [], NegInf;
      out.Report(Lift(command), mode, BackupLayer, FellBack, WatchdogExpired, Some(BrakeToStop));
    }

    /** Certify the proposal as it stands. */
    method EmitAccepted(action: seq<Float>, mode: ControlMode, out: VerdictBuffer)
      requires Valid() && out !in repr
      modifies `holdActive, out
      ensures Valid()
      ensures out.View() == Accept(action, mode, old(out.minMargin)).(fired := old(out.fired))
      ensures Now() == old(Now()).(holdActive := false)
    {
      hide StorageOfAll, MonitorsAt, Fitting, Apart, Core.Ok;
      out.Report(action, mode, Primary, NoIntervention, Accepted, None);
      holdActive := false;
    }

    /** The action gate, then the shield. */
    method GateAndShield(input: SafetyInput, out: VerdictBuffer)
      requires Valid() && out !in repr && GoodInput(core, input)
      requires out.fired == [] && out.minMargin == PosInf
      modifies `holdActive, `holdAnchor, out, ShieldRepr()
      ensures Valid() && (Now(), out.View()) == Correct(core, old(Now()), input)
    {
      var channel := input.proposed.Channel();
      var setpoint := input.proposed.Setpoint();
      if channel.None? {
        if core.cfg.policy.Admits(input.proposed) {
          EmitAccepted([], core.cfg.policy.fallbackMode, out);
        } else {
          EmitBackup(input, BrakeToStop, NotCertifiable, out);
        }
        return;
      }
      if shield == null {
        EmitAccepted(setpoint, channel.value, out);
        return;
      }
      RunShield(input, channel.value, setpoint, out);
    }

    /** Project, certify, and compare with the proposal. */
    method RunShield(input: SafetyInput, mode: ControlMode, setpoint: seq<Float>, out: VerdictBuffer)
      requires Valid() && out !in repr && GoodInput(core, input) && shield != null
      requires input.proposed.Channel() == Some(mode) && setpoint == input.proposed.Setpoint()
      requires out.fired == [] && out.minMargin == PosInf
      modifies `holdActive, `holdAnchor, out, ShieldRepr()
      ensures (Now(), out.View()) == Correct(core, old(Now()), input)
    {
      CoreParts(core);
      hide StorageOfAll, MonitorsAt, Fitting, Apart, Core.Ok, FallBack, Solve, Params.Ok;
      var certified, minH, action := shield.SolveMode(mode, input.position, input.velocity, setpoint);
      out.minMargin := minH;
      if !certified {
        EmitBackup(input, BrakeToStop, QpUncertifiable, out);
        return;
      }
      var modified := Differs(action, setpoint);
      if modified {
        out.Report(action, mode, ShieldLayer, Modified, ShieldCorrected, None);
        holdActive := false;
      } else {
        EmitAccepted(action, mode, out);
      }
    }

    method Differs(action: seq<Float>, proposed: seq<Float>) returns (modified: bool)
      requires |action| >= core.dim && |proposed| >= core.dim
      ensures modified <==> Perturbed(action, proposed, core.dim, core.cfg.unchangedTol)
    {
      for i := 0 to core.dim
        invariant forall k :: 0 <= k < i ==>
          RAbs(FiniteAt(action, k) - FiniteAt(proposed, k)) <= core.cfg.unchangedTol
      {
        if RAbs(FiniteAt(action, i) - FiniteAt(proposed, i)) > core.cfg.unchangedTol {
          return true;
        }
      }
      modified := false;
    }

    /** Resolve a fired index to its constraint id. */
    method FiredName(idx: nat) returns (name: string)
      requires Static() && idx < |core.model.scalarBounds| + |core.model.monitors|
      ensures name == if idx < |core.model.scalarBounds| then core.model.scalarBounds[idx].constraintId
                      else core.model.monitors[idx - |core.model.scalarBounds|].constraintId
    {
      name := firedCatalog[idx];
    }

    /** Build a core from a decoded model. */
    constructor (sqrt: Root, model: CompiledSafetyModel, cfg: CoreConfig)
      requires IsSqrt(sqrt) && ModelOk(model) && LeavesInRange(model) && cfg.shield.uMax >= 0.0
      ensures Valid() && fresh(repr) && core == NewCore(sqrt, model, cfg) && Now() == INITIAL
    {
      NewCoreIsOk(sqrt, model, cfg);
      hide Core.Ok, Shield.Valid, Shield.Repr, NewCore, LeavesInRange, ModelOk, StorageOfAll, Fitting, Apart, AllBlank,
        Catalog, SafetyCore.Static, MonitorsAt;
      var c := NewCore(sqrt, model, cfg);
      var mons, filter, scratch := BuildParts(c);
      core := c;
      monitors := mons;
      shield := filter;
      predRob := scratch;
      firedCatalog := Catalog(c.model);
      holdAnchor := [];
      holdActive := false;
      repr := {this, scratch} + StorageOfAll(mons) + (if filter == null then {} else filter.Repr());
      trace := [];
      new;
      StaticParts();
      BlankMonitorsAtStart();
    }

    lemma BlankMonitorsAtStart()
      requires Static() && Fitting(core, monitors) && AllBlank(core, monitors)
      ensures MonitorsAt([])
    {
      hide Monitor.Valid, Core.Ok, Apart, StorageOfAll;
    }

    /** What a constructor has to set up. */
    lemma StaticParts()
      requires core.Ok() && predRob.Length == core.Atoms() && Fitting(core, monitors) && Apart(monitors)
      requires this !in MonitorRepr() && predRob !in MonitorRepr() && (shield == null <==> core.shield.None?)
      requires shield != null ==>
        && shield.Valid() && shield.par == core.shield.value
        && shield.Repr() !! MonitorRepr() && this !in shield.Repr() && predRob !in shield.Repr()
      requires firedCatalog == Catalog(core.model) && repr == {this, predRob} + MonitorRepr() + ShieldRepr()
      ensures Static()
    {
      hide Core.Ok, Fitting, Apart, StorageOfAll, Shield.Valid, Shield.Repr, Catalog;
    }
  }

  /** What monitors built for a core have to do with it and with each other. */
  lemma MonitorsMatch(core: Core, monitors: seq<Monitor>)
    requires core.Ok() && MonitorsFor(core, monitors, |core.model.monitors|)
    ensures Fitting(core, monitors) && Apart(monitors) && AllBlank(core, monitors)
  {
    forall i | 0 <= i < |monitors| ensures monitors[i] in monitors[i].repr {
      assert IsFresh(monitors[i], core.model.monitors[i].root, core.Atoms());
    }
  }

  method BuildParts(core: Core) returns (mons: seq<Monitor>, filter: Shield?, scratch: array<Ext>)
    requires core.Ok()
    ensures Fitting(core, mons) && Apart(mons) && AllBlank(core, mons) && fresh(StorageOfAll(mons))
    ensures fresh(scratch) && scratch.Length == core.Atoms() && scratch !in StorageOfAll(mons)
    ensures filter == null <==> core.shield.None?
    ensures filter != null ==>
      && filter.Valid() && filter.par == core.shield.value && fresh(filter.Repr())
      && filter.Repr() !! StorageOfAll(mons) && scratch !in filter.Repr()
  {
    CoreParts(core);
    hide Core.Ok, MonitorsFor, Params.Ok, StorageOfAll, Fitting, Apart, AllBlank;
    mons := BuildMonitors(core);
    MonitorsMatch(core, mons);
    filter := null;
    if core.shield.Some? {
      filter := new Shield(core.shield.value);
    }
    scratch := new Ext[core.Atoms()](_ => Fin(0.0));
  }

  /** The effective core is well formed: the shield and the backup share geometry,
      period and ceilings. */
  lemma NewCoreIsOk(sqrt: Root, model: CompiledSafetyModel, cfg: CoreConfig)
    requires IsSqrt(sqrt) && ModelOk(model) && LeavesInRange(model) && cfg.shield.uMax >= 0.0
    ensures
      var core := NewCore(sqrt, model, cfg);
      && core.Ok()
      && (core.shield.Some? <==> model.keepOutTerms != [])
      && (core.shield.Some? ==>
          var s, b := core.shield.value, core.backup;
          s.barriers == b.barriers && s.dt == b.dt && s.uMax == b.uMax && s.vMax == b.vMax && s.stepMax == b.stepMax
          && s.sqrt == b.sqrt)
  {}

  ghost predicate IsFresh(monitor: Monitor, f: Formula, n: nat)
    reads monitor, monitor.repr
  {
    monitor.Valid() && monitor.trace == [] && monitor.formula == f && monitor.n == n
  }

  ghost predicate MonitorsFor(core: Core, monitors: seq<Monitor>, k: nat)
    requires core.Ok() && k <= |core.model.monitors|
    reads monitors, StorageOfAll(monitors)
  {
    && |monitors| == k
    && (forall i :: 0 <= i < k ==> IsFresh(monitors[i], core.model.monitors[i].root, core.Atoms()))
    && forall i, j :: 0 <= i < k && 0 <= j < k && i != j ==> monitors[i].repr !! monitors[j].repr
  }

  lemma RootIsEvaluable(core: Core, i: nat)
    requires core.Ok() && i < |core.model.monitors|
    ensures Evaluable(core.model.monitors[i].root, core.Atoms())
  {}

  method BuildMonitors(core: Core) returns (monitors: seq<Monitor>)
    requires core.Ok()
    ensures MonitorsFor(core, monitors, |core.model.monitors|)
    ensures fresh(StorageOfAll(monitors))
  {
    hide Core.Ok, Monitor.Valid;
    monitors := [];
    for i := 0 to |core.model.monitors|
      invariant MonitorsFor(core, monitors, i)
      invariant forall k :: 0 <= k < i ==> fresh(monitors[k].repr)
    {
      RootIsEvaluable(core, i);
      var monitor := new Monitor(core.model.monitors[i].root, core.Atoms());
      assert IsFresh(monitor, core.model.monitors[i].root, core.Atoms());
      monitors := monitors + [monitor];
    }
  }
}
