/** What a run decides, in terms of the signals, vectors and proposals it was called
    with and of nothing the core computes on the way. */
module Decisions {
  import opened Wrappers
  import opened Numbers
  import opened Vectors
  import opened TraceSemantics
  import opened TraceTheorems
  import opened SafetyModel
  import opened Monitors
  import opened Barriers
  import opened Shields
  import opened Backups
  import opened Arbiters
  import opened Runs

  // ---- Well-formed calls -----------------------------------------------------------

  predicate FiniteUpTo(xs: seq<Float>, n: nat) {
    |xs| >= n && forall i :: 0 <= i < n ==> xs[i].Finite?
  }

  /** Every signal is there and finite, the state vectors reach the spatial dimension
      and a numeric command is finite throughout. */
  ghost predicate CallIsWellFormed(model: CompiledSafetyModel, input: SafetyInput) {
    var dim := if model.spatialDim.Some? then model.spatialDim.value else 0;
    && |input.signals| == |model.signals| && FiniteUpTo(input.signals, |model.signals|)
    && FiniteUpTo(input.position, dim) && FiniteUpTo(input.velocity, dim)
    && match input.proposed
       case EffortCommand(x) => |x| >= dim && FiniteUpTo(x, |x|)
       case VelocityCommand(x) => |x| >= dim && FiniteUpTo(x, |x|)
       case PositionCommand(x) => |x| >= dim && FiniteUpTo(x, |x|)
       case _ => true
  }

  /** A core built from this model and configuration. */
  ghost predicate BuiltFrom(sqrt: Root, model: CompiledSafetyModel, cfg: CoreConfig, core: Core) {
    core == NewCore(sqrt, model, cfg) && core.Ok() && ModelOk(model)
  }

  lemma GoodInputIff(sqrt: Root, model: CompiledSafetyModel, cfg: CoreConfig, core: Core, input: SafetyInput)
    requires BuiltFrom(sqrt, model, cfg, core)
    ensures GoodInput(core, input) <==> CallIsWellFormed(model, input)
  {
    hide Core.Ok;
    var dim := core.dim;
    assert dim == if model.spatialDim.Some? then model.spatialDim.value else 0;
    if |input.position| >= dim {
      assert AllFinite(input.position[..dim]) <==> FiniteUpTo(input.position, dim) by {
        assert forall i :: 0 <= i < dim ==> input.position[..dim][i] == input.position[i];
      }
    }
    if |input.velocity| >= dim {
      assert AllFinite(input.velocity[..dim]) <==> FiniteUpTo(input.velocity, dim) by {
        assert forall i :: 0 <= i < dim ==> input.velocity[..dim][i] == input.velocity[i];
      }
    }
  }

  /** On every run a call is answered as bad input exactly when it is on time and not
      well formed. */
  lemma BadInputIff(sqrt: Root, model: CompiledSafetyModel, cfg: CoreConfig, core: Core, es: seq<Event>)
    requires BuiltFrom(sqrt, model, cfg, core) && es != []
    ensures
      var e := es[|es| - 1];
      VerdictAfterRun(core, es).reason.BadInput? <==> e.OnTime? && !CallIsWellFormed(model, e.input)
  {
    GoodInputIff(sqrt, model, cfg, core, es[|es| - 1].input);
    VerdictPrecedence(sqrt, model, cfg, core, es);
    hide NewCore, Core.Ok, VerdictAfterRun, CallIsWellFormed, GoodInput, Certifiable, Quiet, ModelOk;
  }

  // ---- Atoms on the signals ---------------------------------------------------------

  /** The signal an atom is declared on. */
  function SignalOf(atom: PredicateAtom, signals: seq<Float>): real
    requires atom.signalIndex < |signals| && signals[atom.signalIndex].Finite?
  {
    signals[atom.signalIndex].r
  }

  /** The signal is strictly on the wrong side of the threshold. */
  predicate IsBroken(atom: PredicateAtom, signals: seq<Float>)
    requires atom.signalIndex < |signals| && signals[atom.signalIndex].Finite?
  {
    match atom.op
    case Ge => SignalOf(atom, signals) < atom.threshold
    case Gt => SignalOf(atom, signals) < atom.threshold
    case Le => SignalOf(atom, signals) > atom.threshold
    case Lt => SignalOf(atom, signals) > atom.threshold
  }

  /** The comparison as it is written. */
  predicate AtomHolds(atom: PredicateAtom, signals: seq<Float>)
    requires atom.signalIndex < |signals| && signals[atom.signalIndex].Finite?
  {
    match atom.op
    case Ge => SignalOf(atom, signals) >= atom.threshold
    case Gt => SignalOf(atom, signals) > atom.threshold
    case Le => SignalOf(atom, signals) <= atom.threshold
    case Lt => SignalOf(atom, signals) < atom.threshold
  }

  /** An atom's entry on a tick is a real whose magnitude is the distance of its own
      signal from the threshold, negative exactly when the atom is broken. */
  lemma TickMeasuresTheSignals(core: Core, input: SafetyInput, i: nat)
    requires core.Ok() && |input.signals| == |core.model.signals| && i < |core.model.atoms|
    requires FiniteUpTo(input.signals, |input.signals|)
    ensures
      var atom, entry := core.model.atoms[i], Tick(core, input.signals)[i];
      && entry.Fin? && RAbs(entry.v) == RAbs(SignalOf(atom, input.signals) - atom.threshold)
      && (entry.v < 0.0 <==> IsBroken(atom, input.signals))
      && (entry.v > 0.0 ==> AtomHolds(atom, input.signals))
      && (entry.v < 0.0 ==> !AtomHolds(atom, input.signals))
  {}

  /** Scalar bound k is broken by the signals of the call. */
  predicate BoundIsBroken(model: CompiledSafetyModel, input: SafetyInput, k: nat)
    requires ModelOk(model) && |input.signals| == |model.signals| && FiniteUpTo(input.signals, |input.signals|)
    requires k < |model.scalarBounds|
  {
    IsBroken(model.atoms[model.scalarBounds[k].atomIndex], input.signals)
  }

  lemma BoundViolatedIff(core: Core, input: SafetyInput, k: nat)
    requires core.Ok() && |input.signals| == |core.model.signals| && FiniteUpTo(input.signals, |input.signals|)
    requires k < |core.model.scalarBounds|
    ensures BoundViolated(core, Tick(core, input.signals), k) <==> BoundIsBroken(core.model, input, k)
  {
    TickMeasuresTheSignals(core, input, core.model.scalarBounds[k].atomIndex);
  }

  /** The recovery a constraint authors. */
  predicate RecoversBy(onUncertain: OnUncertain, kind: Option<BackupKind>) {
    match onUncertain
    case Fallback => kind == Some(BrakeToStop)
    case Hold => kind == Some(HoldPose)
    case SafeState => kind == Some(Retreat)
  }

  /** Bound k is the first one the call breaks. */
  predicate FirstBroken(model: CompiledSafetyModel, input: SafetyInput, k: nat)
    requires ModelOk(model) && |input.signals| == |model.signals| && FiniteUpTo(input.signals, |input.signals|)
  {
    && k < |model.scalarBounds| && BoundIsBroken(model, input, k)
    && forall j :: 0 <= j < k ==> !BoundIsBroken(model, input, j)
  }

  /** On every run an on-time well-formed call is answered for a scalar bound exactly
      when the signal of some bound's atom is strictly on the wrong side of its
      threshold; the first such bound is named and its authored recovery is run. */
  lemma ScalarViolatedIff(sqrt: Root, model: CompiledSafetyModel, cfg: CoreConfig, core: Core, es: seq<Event>)
    requires BuiltFrom(sqrt, model, cfg, core) && es != []
    requires es[|es| - 1].OnTime? && CallIsWellFormed(model, es[|es| - 1].input)
    ensures
      var v, input := VerdictAfterRun(core, es), es[|es| - 1].input;
      && (v.reason.ScalarViolated? <==> exists k :: 0 <= k < |model.scalarBounds| && BoundIsBroken(model, input, k))
      && (v.reason.ScalarViolated? ==>
          && |v.fired| == 1 && FirstBroken(model, input, v.fired[0])
          && RecoversBy(model.scalarBounds[v.fired[0]].onUncertain, v.backupKind))
  {
    var input := es[|es| - 1].input;
    GoodInputIff(sqrt, model, cfg, core, input);
    FiredNamesTheFirst(core, es);
    assert core.model == model;
    forall k: nat | k < |model.scalarBounds|
      ensures BoundViolated(core, Tick(core, input.signals), k) <==> BoundIsBroken(model, input, k)
    {
      BoundViolatedIff(core, input, k);
    }
    hide NewCore, Core.Ok, VerdictAfterRun, GoodInput, BoundViolated, Tick, BoundIsBroken, MonitorFires, GoodTicks,
      CallIsWellFormed;
  }

  // ---- Monitors on the signals --------------------------------------------------------

  /** The calls of a run that are well formed and not forced, in order. */
  ghost function SeenCalls(model: CompiledSafetyModel, es: seq<Event>): (calls: seq<SafetyInput>)
    ensures forall t :: 0 <= t < |calls| ==> CallIsWellFormed(model, calls[t])
  {
    if es == [] then []
    else
      var before, e := SeenCalls(model, es[..|es| - 1]), es[|es| - 1];
      if !e.Forced? && CallIsWellFormed(model, e.input) then before + [e.input] else before
  }

  /** Tick v is what the signals of the call measure, atom by atom. */
  ghost predicate Measures(model: CompiledSafetyModel, v: seq<Ext>, input: SafetyInput)
    requires ModelOk(model) && CallIsWellFormed(model, input)
  {
    && |v| == |model.atoms|
    && forall i :: 0 <= i < |v| ==>
        && v[i].Fin? && RAbs(v[i].v) == RAbs(SignalOf(model.atoms[i], input.signals) - model.atoms[i].threshold)
        && (v[i].v < 0.0 <==> IsBroken(model.atoms[i], input.signals))
        && (v[i].v > 0.0 ==> AtomHolds(model.atoms[i], input.signals))
        && (v[i].v < 0.0 ==> !AtomHolds(model.atoms[i], input.signals))
  }

  lemma TickMeasures(core: Core, input: SafetyInput)
    requires core.Ok() && ModelOk(core.model) && CallIsWellFormed(core.model, input)
    ensures Measures(core.model, Tick(core, input.signals), input)
  {
    forall i: nat | i < |core.model.atoms|
      ensures
        var atom, entry := core.model.atoms[i], Tick(core, input.signals)[i];
        && entry.Fin? && RAbs(entry.v) == RAbs(SignalOf(atom, input.signals) - atom.threshold)
        && (entry.v < 0.0 <==> IsBroken(atom, input.signals))
        && (entry.v > 0.0 ==> AtomHolds(atom, input.signals))
        && (entry.v < 0.0 ==> !AtomHolds(atom, input.signals))
    {
      TickMeasuresTheSignals(core, input, i);
    }
  }

  /** On every run the monitors' trace is, tick by tick, what the signals of the
      well-formed unforced calls measure. */
  lemma {:induction false} TraceMeasuresTheSignals(
    sqrt: Root, model: CompiledSafetyModel, cfg: CoreConfig, core: Core, es: seq<Event>)
    requires BuiltFrom(sqrt, model, cfg, core)
    ensures
      var tr, calls := StateAfter(core, es).trace, SeenCalls(model, es);
      |tr| == |calls| && forall t :: 0 <= t < |tr| ==> Measures(model, tr[t], calls[t])
  {
    hide Tick, Measures, CallIsWellFormed, GoodInput, After;
    TraceIsGoodTicks(core, es);
    if es != [] {
      var before, e := es[..|es| - 1], es[|es| - 1];
      TraceMeasuresTheSignals(sqrt, model, cfg, core, before);
      TraceIsGoodTicks(core, before);
      GoodInputIff(sqrt, model, cfg, core, e.input);
      assert core.model == model;
      if !e.Forced? && CallIsWellFormed(model, e.input) {
        TickMeasures(core, e.input);
      }
    }
  }

  /** Which atoms hold on a call, */
  ghost function FactsAt(model: CompiledSafetyModel, input: SafetyInput): (bs: seq<bool>)
    requires ModelOk(model) && CallIsWellFormed(model, input)
    ensures |bs| == |model.atoms|
    ensures forall i :: 0 <= i < |bs| ==> bs[i] == AtomHolds(model.atoms[i], input.signals)
  {
    seq(|model.atoms|, i requires 0 <= i < |model.atoms| => AtomHolds(model.atoms[i], input.signals))
  }

  /** and on each of a sequence of calls. */
  ghost function Observed(model: CompiledSafetyModel, calls: seq<SafetyInput>): (facts: Facts)
    requires ModelOk(model) && forall t :: 0 <= t < |calls| ==> CallIsWellFormed(model, calls[t])
    ensures FactsFor(facts, |model.atoms|) && |facts| == |calls|
    ensures forall t :: 0 <= t < |calls| ==> facts[t] == FactsAt(model, calls[t])
  {
    seq(|calls|, t requires 0 <= t < |calls| => FactsAt(model, calls[t]))
  }

  /** So the sign of a monitor's root is the truth of its clause on the signals
      themselves: positive only where the Boolean past-time formula over the authored
      comparisons holds, negative only where it fails, at every tick of every run. */
  lemma MonitorSignIsTruth(
    sqrt: Root, model: CompiledSafetyModel, cfg: CoreConfig, core: Core, es: seq<Event>, k: nat)
    requires BuiltFrom(sqrt, model, cfg, core) && k < |model.monitors|
    ensures
      var tr, facts := StateAfter(core, es).trace, Observed(model, SeenCalls(model, es));
      var root, n := model.monitors[k].root, |model.atoms|;
      && Evaluable(root, n) && TraceOf(tr, n) && |tr| == |facts|
      && forall t :: 0 <= t < |tr| ==>
          && (Positive(History(root, tr, n)[t]) ==> Truth(root, facts, n)[t])
          && (Negative(History(root, tr, n)[t]) ==> !Truth(root, facts, n)[t])
  {
    var tr, calls := StateAfter(core, es).trace, SeenCalls(model, es);
    var facts, n := Observed(model, calls), |model.atoms|;
    assert core.model == model;
    TraceMeasuresTheSignals(sqrt, model, cfg, core, es);
    RootIsEvaluable(core, k);
    forall t | 0 <= t < |tr| ensures AllSound(tr[t], facts[t]) {
      assert Measures(model, tr[t], calls[t]);
    }
    hide StateAfter, SeenCalls, Observed, Measures, NewCore, Core.Ok, CallIsWellFormed;
    RobustnessSignIsSound(model.monitors[k].root, tr, facts, n);
  }

  /** The robustness history of a root asks for the fallback: it is lost now, or it fell
      from one real to another that a straight line loses within the horizon, or it
      fell from plus infinity to a real. */
  predicate Asks(h: seq<Ext>, horizon: nat)
    requires h != []
  {
    var r := h[|h| - 1];
    || r.NegInf? || (r.Fin? && r.v < 0.0)
    || (|h| >= 2 && r.Fin? && h[|h| - 2].PosInf?)
    || (|h| >= 2 && r.Fin? && h[|h| - 2].Fin? && r.v < h[|h| - 2].v
        && r.v + horizon as real * (r.v - h[|h| - 2].v) <= 0.0)
  }

  lemma FiresIffAsks(core: Core, tr: Trace, k: nat)
    requires core.Ok() && TraceOf(tr, core.Atoms()) && tr != [] && k < |core.model.monitors|
    ensures
      var root := core.model.monitors[k].root;
      Evaluable(root, core.Atoms())
      && (MonitorFires(core, tr, k) <==> Asks(History(root, tr, core.Atoms()), core.cfg.horizon))
  {
    RootIsEvaluable(core, k);
    var root, n := core.model.monitors[k].root, core.Atoms();
    hide History, Core.Ok, VerdictOf, MonitorVerdict.Fired, Asks, Evaluable;
    LastVerdictAsks(History(root, tr, n), core.cfg.horizon);
    assert VerdictAfter(root, tr, n, core.cfg.horizon) == LastVerdict(History(root, tr, n), core.cfg.horizon);
  }

  function LastVerdict(h: seq<Ext>, horizon: nat): MonitorVerdict
    requires h != []
  {
    VerdictOf(if |h| == 1 then None else Some(h[|h| - 2]), h[|h| - 1], horizon)
  }

  lemma LastVerdictAsks(h: seq<Ext>, horizon: nat)
    requires h != []
    ensures LastVerdict(h, horizon).Fired() <==> Asks(h, horizon)
  {
    FiredIff(if |h| == 1 then None else Some(h[|h| - 2]), h[|h| - 1], horizon);
    hide VerdictOf, MonitorVerdict.Fired;
  }

  /** Monitor k is the first whose root asks. */
  ghost predicate FirstAsking(model: CompiledSafetyModel, tr: Trace, horizon: nat, k: nat)
    requires ModelOk(model) && LeavesInRange(model) && TraceOf(tr, |model.atoms|) && tr != []
  {
    && k < |model.monitors| && RootAsks(model, tr, horizon, k)
    && forall j: nat :: j < k ==> !RootAsks(model, tr, horizon, j)
  }

  ghost predicate RootAsks(model: CompiledSafetyModel, tr: Trace, horizon: nat, k: nat)
    requires ModelOk(model) && LeavesInRange(model) && TraceOf(tr, |model.atoms|) && tr != []
    requires k < |model.monitors|
  {
    Asks(History(model.monitors[k].root, tr, |model.atoms|), horizon)
  }

  lemma RootFires(model: CompiledSafetyModel, cfg: CoreConfig, core: Core, tr: Trace, k: nat)
    requires core.Ok() && core.model == model && core.cfg.horizon == cfg.horizon && LeavesInRange(model)
    requires TraceOf(tr, |model.atoms|) && tr != [] && k < |model.monitors|
    ensures MonitorFires(core, tr, k) <==> RootAsks(model, tr, cfg.horizon, k)
  {
    hide MonitorFires, Asks, History, Core.Ok;
    FiresIffAsks(core, tr, k);
  }

  lemma RootsFire(model: CompiledSafetyModel, cfg: CoreConfig, core: Core, tr: Trace)
    requires core.Ok() && core.model == model && core.cfg.horizon == cfg.horizon && LeavesInRange(model)
    requires TraceOf(tr, |model.atoms|) && tr != []
    ensures forall k: nat :: k < |model.monitors| ==> (MonitorFires(core, tr, k) <==> RootAsks(model, tr, cfg.horizon, k))
  {
    assert ModelOk(model);
    hide MonitorFires, RootAsks, Core.Ok, ModelOk, LeavesInRange;
    forall k: nat | k < |model.monitors|
      ensures MonitorFires(core, tr, k) <==> RootAsks(model, tr, cfg.horizon, k)
    {
      RootFires(model, cfg, core, tr, k);
    }
  }

  /** The verdict is for a monitor exactly when it is for no bound and some root asks, over
      the configured horizon; the first such monitor is named, past the bounds, and its
      authored recovery is run. */
  ghost predicate AnswersTheRoots(model: CompiledSafetyModel, cfg: CoreConfig, tr: Trace, v: Verdict)
    requires ModelOk(model) && LeavesInRange(model) && TraceOf(tr, |model.atoms|) && tr != []
  {
    var bounds := |model.scalarBounds|;
    && (v.reason.MonitorFired? <==>
        !v.reason.ScalarViolated? && exists k: nat :: k < |model.monitors| && RootAsks(model, tr, cfg.horizon, k))
    && (v.reason.MonitorFired? ==>
        && |v.fired| == 1 && v.fired[0] >= bounds
        && FirstAsking(model, tr, cfg.horizon, v.fired[0] - bounds)
        && RecoversBy(model.monitors[v.fired[0] - bounds].onUncertain, v.backupKind))
  }

  /** So every on-time well-formed call of every run is answered. */
  lemma MonitorFiredIff(sqrt: Root, model: CompiledSafetyModel, cfg: CoreConfig, core: Core, es: seq<Event>)
    requires BuiltFrom(sqrt, model, cfg, core) && LeavesInRange(model) && es != []
    requires es[|es| - 1].OnTime? && CallIsWellFormed(model, es[|es| - 1].input)
    ensures TraceOf(StateAfter(core, es).trace, |model.atoms|) && StateAfter(core, es).trace != []
    ensures AnswersTheRoots(model, cfg, StateAfter(core, es).trace, VerdictAfterRun(core, es))
  {
    GoodInputIff(sqrt, model, cfg, core, es[|es| - 1].input);
    TraceIsGoodTicks(core, es);
    assert core.model == model && core.cfg.horizon == cfg.horizon;
    hide NewCore, Core.Ok, VerdictAfterRun, StateAfter, GoodTicks, GoodInput, MonitorFires, CallIsWellFormed, ModelOk,
      LeavesInRange, BuiltFrom, AnswersTheRoots, KindOf;
    MonitorIsNamed(core, es);
    NamedByAsking(model, cfg, core, StateAfter(core, es).trace, VerdictAfterRun(core, es));
  }

  lemma MonitorIsNamed(core: Core, es: seq<Event>)
    requires core.Ok() && es != [] && es[|es| - 1].OnTime? && GoodInput(core, es[|es| - 1].input)
    ensures
      var (v, tr, bounds) := (VerdictAfterRun(core, es), GoodTicks(core, es), |core.model.scalarBounds|);
      && tr != []
      && (v.reason.MonitorFired? <==>
          && !v.reason.ScalarViolated?
          && exists k :: 0 <= k < |core.model.monitors| && MonitorFires(core, tr, k))
      && (v.reason.MonitorFired? ==>
          && |v.fired| == 1 && bounds <= v.fired[0] < bounds + |core.model.monitors|
          && MonitorFires(core, tr, v.fired[0] - bounds)
          && v.backupKind == Some(KindOf(core.model.monitors[v.fired[0] - bounds].onUncertain))
          && forall k :: 0 <= k < v.fired[0] - bounds ==> !MonitorFires(core, tr, k))
  {
    hide VerdictAfterRun, MonitorFires, BoundViolated, Tick, KindOf, LeavesInRange;
    FiredNamesTheFirst(core, es);
  }

  /** The first monitor that fires is the first whose root asks. */
  lemma NamedByAsking(model: CompiledSafetyModel, cfg: CoreConfig, core: Core, tr: Trace, v: Verdict)
    requires core.Ok() && core.model == model && core.cfg.horizon == cfg.horizon && LeavesInRange(model)
    requires TraceOf(tr, |model.atoms|) && tr != []
    requires v.reason.MonitorFired? <==>
      !v.reason.ScalarViolated? && exists k :: 0 <= k < |model.monitors| && MonitorFires(core, tr, k)
    requires v.reason.MonitorFired? ==>
      && |v.fired| == 1 && |model.scalarBounds| <= v.fired[0] < |model.scalarBounds| + |model.monitors|
      && MonitorFires(core, tr, v.fired[0] - |model.scalarBounds|)
      && v.backupKind == Some(KindOf(model.monitors[v.fired[0] - |model.scalarBounds|].onUncertain))
      && forall k :: 0 <= k < v.fired[0] - |model.scalarBounds| ==> !MonitorFires(core, tr, k)
    ensures ModelOk(model) && AnswersTheRoots(model, cfg, tr, v)
  {
    RootsFire(model, cfg, core, tr);
    assert ModelOk(model);
    hide Core.Ok, ModelOk, LeavesInRange, MonitorFires, RootAsks;
  }

  // ---- The rest of the verdict -----------------------------------------------------------

  /** The channel and the numbers of a numeric command; a directive or an opaque
      command has neither. */
  function Commanded(proposed: ProposedAction): Option<(ControlMode, seq<Float>)> {
    match proposed
    case EffortCommand(x) => Some((Effort, x))
    case VelocityCommand(x) => Some((Velocity, x))
    case PositionCommand(x) => Some((Position, x))
    case Opaque => None
    case ModeDirective(_) => None
    case TaskDirective(_) => None
  }

  /** Every fallback is answered in the channel that was commanded, a directive in the
      configured one; every fallback but a detected one brakes; and each verdict
      reports the margin its layer knows: none under the watchdog, the shield's if
      the shield was asked, plus infinity otherwise. */
  ghost predicate FallbackIsProper(cfg: CoreConfig, core: Core, input: SafetyInput, v: Verdict)
    requires core.Ok()
  {
    var command := Commanded(input.proposed);
    && v.mode == (if command.Some? then command.value.0 else cfg.policy.fallbackMode)
    && (v.reason.WatchdogExpired? || v.reason.BadInput? || v.reason.NotCertifiable? || v.reason.QpUncertifiable? ==>
        v.backupKind == Some(BrakeToStop))
    && (v.reason.WatchdogExpired? ==> v.minMargin.NegInf?)
    && (v.reason.BadInput? || v.reason.ScalarViolated? || v.reason.MonitorFired? || v.reason.NotCertifiable? ==>
        v.minMargin.PosInf?)
    && (v.reason.NotCertifiable? ==> command.None?)
    && (v.reason.QpUncertifiable? ==>
        && command.Some? && core.shield.Some?
        && v.minMargin == Solve(core.shield.value, command.value.0, input.position, input.velocity, command.value.1).minH)
    && (v.backupKind.Some? && !v.backupKind.value.HoldPose? ==>
        v.action == Lift(core.backup.Law(v.backupKind.value, v.mode, input.position, input.velocity, None)))
  }

  /** A granted directive carries no numbers; without keep-outs a command comes back
      as it was, in its channel; with them it is what the shield answered. */
  ghost predicate AcceptanceIsProper(cfg: CoreConfig, core: Core, input: SafetyInput, v: Verdict)
    requires core.Ok()
  {
    match Commanded(input.proposed)
    case None => v.action == [] && v.mode == cfg.policy.fallbackMode && v.minMargin.PosInf?
    case Some((channel, x)) =>
      && v.mode == channel
      && if core.shield.None? then v.action == x && v.minMargin.PosInf?
         else
           var out := Solve(core.shield.value, channel, input.position, input.velocity, x);
           && out.certified && v.action == out.action && v.minMargin == out.minH
           && |v.action| >= core.dim && |x| >= core.dim
           && (v.layer == ShieldLayer <==> DiffersBeyond(v.action, x, core.dim, cfg.unchangedTol))
  }

  /** Some coordinate of the two differs by more than tol. */
  predicate DiffersBeyond(a: seq<Float>, b: seq<Float>, n: nat, tol: real)
    requires |a| >= n && |b| >= n
  {
    exists i :: 0 <= i < n && a[i].Finite? && b[i].Finite? && (a[i].r - b[i].r > tol || b[i].r - a[i].r > tol)
  }

  lemma PerturbedIff(a: seq<Float>, b: seq<Float>, n: nat, tol: real)
    requires |a| >= n && |b| >= n && FiniteUpTo(a, n) && FiniteUpTo(b, n)
    ensures Perturbed(a, b, n, tol) <==> DiffersBeyond(a, b, n, tol)
  {
    forall i | 0 <= i < n
      ensures (RAbs(FiniteAt(a, i) - FiniteAt(b, i)) > tol) <==> (a[i].r - b[i].r > tol || b[i].r - a[i].r > tol)
    {}
  }

  /** A certified command and the proposal it is compared with are both long enough and
      finite. */
  lemma ComparisonIs(core: Core, input: SafetyInput, tol: real)
    requires core.Ok() && core.shield.Some? && GoodInput(core, input) && input.proposed.Channel().Some?
    requires Solve(core.shield.value, input.proposed.Channel().value, input.position, input.velocity,
      input.proposed.Setpoint()).certified
    ensures
      var (x, n) := (input.proposed.Setpoint(), core.dim);
      var a := Solve(core.shield.value, input.proposed.Channel().value, input.position, input.velocity, x).action;
      |a| >= n && |x| >= n && (Perturbed(a, x, n, tol) <==> DiffersBeyond(a, x, n, tol))
  {
    CoreParts(core);
    var x := input.proposed.Setpoint();
    var u := CertifiedCommand(core.shield.value, input.proposed.Channel().value, input.position, input.velocity, x);
    hide Core.Ok, Solve, Certified, Rows;
    PerturbedIff(Lift(u), x, core.dim, tol);
  }

  lemma ChannelIsCommanded(proposed: ProposedAction)
    ensures proposed.Channel() == (if Commanded(proposed).Some? then Some(Commanded(proposed).value.0) else None)
    ensures proposed.Setpoint() == (if Commanded(proposed).Some? then Commanded(proposed).value.1 else [])
  {}

  /** The kind and the margin a fallback for this reason has to carry. */
  ghost predicate CauseIsProper(core: Core, input: SafetyInput, kind: BackupKind, reason: Reason, margin: Ext)
    requires core.Ok()
  {
    && (reason.WatchdogExpired? || reason.BadInput? || reason.NotCertifiable? || reason.QpUncertifiable? ==>
        kind == BrakeToStop)
    && (reason.WatchdogExpired? ==> margin == NegInf)
    && (reason.BadInput? || reason.ScalarViolated? || reason.MonitorFired? || reason.NotCertifiable? ==> margin == PosInf)
    && (reason.NotCertifiable? ==> Commanded(input.proposed).None?)
    && (reason.QpUncertifiable? ==>
        var command := Commanded(input.proposed);
        && command.Some? && core.shield.Some?
        && margin == Solve(core.shield.value, command.value.0, input.position, input.velocity, command.value.1).minH)
  }

  lemma FallBackIsProper(cfg: CoreConfig, core: Core, st: State, input: SafetyInput, kind: BackupKind, reason: Reason,
                         fired: seq<nat>, margin: Ext)
    requires core.Ok() && core.cfg.policy.fallbackMode == cfg.policy.fallbackMode
    requires CauseIsProper(core, input, kind, reason, margin)
    ensures FallbackIsProper(cfg, core, input, FallBack(core, st, input, kind, reason, fired, margin).1)
  {
    ChannelIsCommanded(input.proposed);
    hide Core.Ok, Backup.Law, Solve, Commanded;
  }

  ghost predicate VerdictIsProper(cfg: CoreConfig, core: Core, input: SafetyInput, v: Verdict)
    requires core.Ok()
  {
    if v.layer.BackupLayer? then FallbackIsProper(cfg, core, input, v) else AcceptanceIsProper(cfg, core, input, v)
  }

  /** The core runs with the configured fallback channel and tolerance. */
  predicate SameSettings(cfg: CoreConfig, core: Core) {
    core.cfg.policy.fallbackMode == cfg.policy.fallbackMode && core.cfg.unchangedTol == cfg.unchangedTol
  }

  lemma CorrectIsProper(cfg: CoreConfig, core: Core, st: State, input: SafetyInput)
    requires core.Ok() && SameSettings(cfg, core) && GoodInput(core, input)
    ensures VerdictIsProper(cfg, core, input, Correct(core, st, input).1)
  {
    ChannelIsCommanded(input.proposed);
    CoreParts(core);
    hide Core.Ok, FallBack, Solve, Perturbed, DiffersBeyond, Commanded, FallbackIsProper;
    if input.proposed.Channel().None? {
      FallBackIsProper(cfg, core, st, input, BrakeToStop, NotCertifiable, [], PosInf);
    } else if core.shield.Some? {
      var out := Solve(core.shield.value, input.proposed.Channel().value, input.position, input.velocity,
        input.proposed.Setpoint());
      FallBackIsProper(cfg, core, st, input, BrakeToStop, QpUncertifiable, [], out.minH);
      if out.certified {
        ComparisonIs(core, input, cfg.unchangedTol);
      }
    }
  }

  lemma DetectIsProper(cfg: CoreConfig, core: Core, st: State, input: SafetyInput)
    requires core.Ok() && SameSettings(cfg, core) && GoodInput(core, input)
    requires TraceOf(st.trace, core.Atoms()) && st.trace != []
    ensures VerdictIsProper(cfg, core, input, AfterDetect(core, st, input).1)
  {
    assert ModelOk(core.model);
    hide ModelOk, Core.Ok, FallBack, Correct, MonitorFires, BoundViolated, Commanded, FallbackIsProper, AcceptanceIsProper, Tick;
    var bound, monitor := FirstBound(core, Tick(core, input.signals), 0), FirstMonitor(core, st.trace, 0);
    if bound.Some? {
      FallBackIsProper(cfg, core, st, input, KindOf(core.model.scalarBounds[bound.value].onUncertain), ScalarViolated,
        [bound.value], PosInf);
    } else if monitor.Some? {
      FallBackIsProper(cfg, core, st, input, KindOf(core.model.monitors[monitor.value].onUncertain), MonitorFired,
        [|core.model.scalarBounds| + monitor.value], PosInf);
    } else {
      CorrectIsProper(cfg, core, st, input);
    }
  }

  lemma DecisionIsProper(cfg: CoreConfig, core: Core, st: State, input: SafetyInput, forced: bool)
    requires core.Ok() && SameSettings(cfg, core) && TraceOf(st.trace, core.Atoms())
    ensures VerdictIsProper(cfg, core, input, Decision(core, st, input, forced).1)
    ensures VerdictIsProper(cfg, core, input, Watchdog(core, st, input).1)
  {
    assert ModelOk(core.model);
    hide ModelOk, Core.Ok, FallBack, AfterDetect, Commanded, FallbackIsProper, AcceptanceIsProper, Tick;
    FallBackIsProper(cfg, core, st, input, BrakeToStop, WatchdogExpired, [], NegInf);
    FallBackIsProper(cfg, core, st, input, BrakeToStop, BadInput, [], PosInf);
    if GoodInput(core, input) {
      DetectIsProper(cfg, core, st.(trace := st.trace + [Tick(core, input.signals)]), input);
    }
  }

  /** Every call, in whatever state, is answered so. */
  lemma EveryVerdictIsProper(
    sqrt: Root, model: CompiledSafetyModel, cfg: CoreConfig, core: Core, st: State, e: Event)
    requires BuiltFrom(sqrt, model, cfg, core) && TraceOf(st.trace, core.Atoms())
    ensures
      var v := After(core, st, e).1;
      && (v.layer == BackupLayer ==> FallbackIsProper(cfg, core, e.input, v))
      && (v.layer != BackupLayer ==> AcceptanceIsProper(cfg, core, e.input, v))
      && (core.shield.Some? <==> model.keepOutTerms != [])
  {
    assert SameSettings(cfg, core) && (core.shield.Some? <==> model.keepOutTerms != []);
    hide NewCore, Core.Ok, Watchdog, FallbackIsProper, AcceptanceIsProper;
    DecisionIsProper(cfg, core, st, e.input, e.Forced?);
    DecisionIsProper(cfg, core, Decision(core, st, e.input, false).0, e.input, false);
    hide Decision;
  }

  /** The core starts with no tick seen and no anchor held, and keeps the model, the
      configured horizon, tolerance and fallback channel, and of the allowlists what
      the model grants. */
  lemma CoreIsAsConfigured(sqrt: Root, model: CompiledSafetyModel, cfg: CoreConfig)
    ensures
      var core := NewCore(sqrt, model, cfg);
      && core.model == model && core.dim == (if model.spatialDim.Some? then model.spatialDim.value else 0)
      && core.cfg.horizon == cfg.horizon && core.cfg.unchangedTol == cfg.unchangedTol && core.cfg.shield == cfg.shield
      && core.cfg.policy.fallbackMode == cfg.policy.fallbackMode
      && (forall name :: name in core.cfg.policy.certifiedModes <==>
          name in cfg.policy.certifiedModes && model.admissibleDirectives.Some?
          && name in model.admissibleDirectives.value.modes)
      && (forall name :: name in core.cfg.policy.certifiedTasks <==>
          name in cfg.policy.certifiedTasks && model.admissibleDirectives.Some?
          && name in model.admissibleDirectives.value.tasks)
    ensures StateAfterNothing(sqrt, model, cfg)
  {}

  ghost predicate StateAfterNothing(sqrt: Root, model: CompiledSafetyModel, cfg: CoreConfig) {
    var core := NewCore(sqrt, model, cfg);
    core.Ok() ==> StateAfter(core, []).trace == [] && !StateAfter(core, []).holdActive
  }
}
