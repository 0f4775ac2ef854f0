/** From a wire payload to a running core: what the payload must say for every later
    guarantee to hold. */
module Payloads {
  import opened Wrappers
  import opened Numbers
  import opened Vectors
  import opened SafetyModel
  import opened Decoder
  import opened Shields
  import opened Arbiters
  import opened Runs
  import opened Decisions
  import opened DecodedMeaning

  /** No monitor leaf of the payload names an atom beyond its predicate table. */
  predicate LeavesFit(p: WireModel) {
    p.table.Some? ==> forall i :: 0 <= i < |p.monitors| && p.monitors[i].root.Some? ==>
      WireLeavesBelow(p.monitors[i].root.value, |p.table.value.atoms|)
  }

  /** An acceptable payload whose leaves fit decodes to a model a core can be built
      from, and the core is well formed. */
  lemma PayloadBuildsACore(sqrt: Root, p: WireModel, cap: nat, cfg: CoreConfig) returns (m: CompiledSafetyModel)
    requires IsSqrt(sqrt) && cfg.shield.uMax >= 0.0 && Acceptable(p, cap) && LeavesFit(p)
    ensures FromWire(p, cap) == Success(m) && ModelOk(m) && LeavesInRange(m) && NewCore(sqrt, m, cfg).Ok()
    ensures |m.keepOutTerms| == |p.keepOutTerms|
    ensures NewCore(sqrt, m, cfg).shield.Some? <==> p.keepOutTerms != []
  {
    DecodesIff(p, cap);
    m := FromWire(p, cap).value;
    hide FromWire, Acceptable, WireLeavesBelow;
    DecodedModelIsOk(p, cap, m);
    LeavesInRangeIff(p, cap, m);
    DecodedParts(p, cap, m);
    NewCoreIsOk(sqrt, m, cfg);
  }

  /** Build the core of a payload, or report why it does not decode. */
  method CoreFromWire(sqrt: Root, p: WireModel, cap: nat, cfg: CoreConfig)
    returns (r: Result<SafetyCore, CoreError>)
    requires IsSqrt(sqrt) && cfg.shield.uMax >= 0.0 && LeavesFit(p)
    ensures r.Success? <==> Acceptable(p, cap)
    ensures r.Failure? ==> FromWire(p, cap) == Failure(r.error)
    ensures r.Success? ==>
      && FromWire(p, cap).Success? && r.value.Valid() && fresh(r.value) && fresh(r.value.repr)
      && r.value.core == NewCore(sqrt, FromWire(p, cap).value, cfg) && r.value.Now() == INITIAL
  {
    DecodesIff(p, cap);
    var decoded := FromWire(p, cap);
    hide FromWire, Acceptable, NewCore;
    if decoded.Failure? {
      return Failure(decoded.error);
    }
    ghost var _ := PayloadBuildsACore(sqrt, p, cap, cfg);
    var core := new SafetyCore(sqrt, decoded.value, cfg);
    r := Success(core);
  }

  /** So a condition on the payload alone makes every run safe: if it is acceptable,
      its leaves fit and it has keep-outs, a kinematic plant that starts outside all of
      them within the loop slack stays outside on every run of its core. */
  lemma PayloadRunsSafely(
    sqrt: Root, p: WireModel, cap: nat, cfg: CoreConfig, es: seq<Event>, poses: seq<Vec>, n: nat)
    returns (m: CompiledSafetyModel, core: Core)
    requires IsSqrt(sqrt) && cfg.shield.uMax >= 0.0 && cfg.shield.vMax >= 0.0
    requires Acceptable(p, cap) && LeavesFit(p) && p.keepOutTerms != []
    ensures FromWire(p, cap) == Success(m) && core == NewCore(sqrt, m, cfg) && core.Ok() && core.shield.Some?
    ensures
      && ClosedLoop(m, cfg, core, es, poses) && n <= |es| && SafeAt(core.shield.value, poses[0], LoopSlack(cfg))
      ==> SafeAt(core.shield.value, poses[n], LoopSlack(cfg))
  {
    m := PayloadBuildsACore(sqrt, p, cap, cfg);
    core := NewCore(sqrt, m, cfg);
    assert KeepOutCore(sqrt, m, cfg, core);
    hide FromWire, Acceptable, NewCore, KeepOutCore, Core.Ok, SafeAt;
    if ClosedLoop(m, cfg, core, es, poses) && n <= |es| && SafeAt(core.shield.value, poses[0], LoopSlack(cfg)) {
      ClosedLoopIsSafe(sqrt, m, cfg, core, es, poses, n);
    }
  }

  // ---- The payload's own comparisons ------------------------------------------------------

  /** The value is strictly on the wrong side of the threshold of the wire's operator. */
  predicate WireIsBroken(op: string, value: real, threshold: real) {
    match op
    case "ge" => value < threshold
    case "gt" => value < threshold
    case "le" => value > threshold
    case "lt" => value > threshold
    case _ => false
  }

  /** The call breaks scalar bound k as the payload writes it: its atom, that atom's
      signal, operator and threshold. */
  predicate WireBoundIsBroken(p: WireModel, signals: seq<Float>, k: nat) {
    && p.table.Some? && k < |p.scalarBounds|
    && 0 <= p.scalarBounds[k].atomIndex < |p.table.value.atoms|
    && var atom := p.table.value.atoms[p.scalarBounds[k].atomIndex];
      && 0 <= atom.signalIndex < |signals| && signals[atom.signalIndex].Finite? && atom.threshold.Finite?
      && WireIsBroken(atom.op, signals[atom.signalIndex].r, atom.threshold.r)
  }

  lemma WireBoundIff(p: WireModel, cap: nat, m: CompiledSafetyModel, input: SafetyInput, k: nat)
    requires FromWire(p, cap) == Success(m) && ModelOk(m) && CallIsWellFormed(m, input)
    ensures WireBoundIsBroken(p, input.signals, k) <==> k < |m.scalarBounds| && BoundIsBroken(m, input, k)
  {
    DecodedModelSays(p, cap, m);
    hide FromWire, MonitorSays, TermSays, SpaceSays, ModelOk, AtomSays, BoundSays, PoseSays, LimitSays;
    if k < |m.scalarBounds| {
      BoundIndexSays(m.scalarBounds[k], p.scalarBounds[k]);
      WireAtomIff(m.atoms[m.scalarBounds[k].atomIndex], p.table.value.atoms[m.scalarBounds[k].atomIndex], input.signals);
    }
  }

  lemma BoundIndexSays(bound: ScalarBound, w: WireBound)
    requires BoundSays(bound, w)
    ensures bound.atomIndex as int == w.atomIndex
  {}

  lemma WireAtomIff(atom: PredicateAtom, w: WireAtom, signals: seq<Float>)
    requires AtomSays(atom, w) && atom.signalIndex < |signals| && signals[atom.signalIndex].Finite?
    ensures w.signalIndex == atom.signalIndex as int && w.threshold.Finite?
    ensures IsBroken(atom, signals) <==> WireIsBroken(w.op, signals[w.signalIndex].r, w.threshold.r)
  {}

  /** From the wire to the verdict: on every run of the core of an accepted payload, an
      on-time well-formed call is answered for a scalar bound exactly when it breaks
      one of the payload's bounds as the payload writes them. */
  lemma PayloadBoundsDecide(sqrt: Root, p: WireModel, cap: nat, cfg: CoreConfig, core: Core, es: seq<Event>)
    returns (m: CompiledSafetyModel)
    requires IsSqrt(sqrt) && cfg.shield.uMax >= 0.0 && Acceptable(p, cap) && LeavesFit(p)
    requires FromWire(p, cap).Success? && core == NewCore(sqrt, FromWire(p, cap).value, cfg) && es != []
    ensures FromWire(p, cap) == Success(m) && ModelOk(m) && core.Ok()
    ensures
      var e := es[|es| - 1];
      e.OnTime? && CallIsWellFormed(m, e.input) ==>
        (VerdictAfterRun(core, es).reason.ScalarViolated? <==>
          exists k: nat :: k < |p.scalarBounds| && WireBoundIsBroken(p, e.input.signals, k))
  {
    m := PayloadBuildsACore(sqrt, p, cap, cfg);
    var e := es[|es| - 1];
    hide FromWire, Acceptable, NewCore, Core.Ok, ModelOk;
    if e.OnTime? && CallIsWellFormed(m, e.input) {
      ScalarViolatedIff(sqrt, m, cfg, core, es);
      forall k: nat
        ensures WireBoundIsBroken(p, e.input.signals, k) <==> k < |m.scalarBounds| && BoundIsBroken(m, e.input, k)
      {
        WireBoundIff(p, cap, m, e.input, k);
      }
      hide WireBoundIsBroken, BoundIsBroken, CallIsWellFormed, VerdictAfterRun;
    }
  }
}
