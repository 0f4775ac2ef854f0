/** The decoded safety model the core evaluates every tick. */
module SafetyModel {
  import opened Wrappers
  import opened Numbers
  import opened Vectors
  import opened TraceSemantics

  datatype PredicateOp = Lt | Le | Gt | Ge {
    /** Signed margin of `value op threshold`. */
    function Robustness(value: real, threshold: real): real {
      match this
      case Ge => value - threshold
      case Gt => value - threshold
      case Le => threshold - value
      case Lt => threshold - value
    }

    predicate Holds(value: real, threshold: real) {
      match this
      case Lt => value < threshold
      case Le => value <= threshold
      case Gt => value > threshold
      case Ge => value >= threshold
    }
  }

  datatype OnUncertain = Fallback | Hold | SafeState

  datatype Shape = Box | Sphere | HalfSpace

  datatype PredicateAtom = PredicateAtom(op: PredicateOp, signalIndex: nat, threshold: real)

  datatype ScalarBound = ScalarBound(constraintId: string, onUncertain: OnUncertain, atomIndex: nat)

  datatype KeepOutTerm = KeepOutTerm(
    constraintId: string,
    onUncertain: OnUncertain,
    shape: Shape,
    margin: real,
    center: Vec,
    halfExtents: Vec,
    radius: Option<real>,
    normal: Vec,
    offset: Option<real>)

  datatype MonitorAutomaton = MonitorAutomaton(
    constraintId: string,
    onUncertain: OnUncertain,
    root: Formula,
    historyWindowLen: nat,
    predicateIndices: seq<nat>)

  datatype ActionLimits = ActionLimits(maxVelocity: Option<real>, maxAccel: Option<real>)

  datatype AdmissibleDirectives = AdmissibleDirectives(modes: seq<string>, tasks: seq<string>)

  datatype CompiledSafetyModel = CompiledSafetyModel(
    samplePeriod: real,
    signals: seq<string>,
    atoms: seq<PredicateAtom>,
    scalarBounds: seq<ScalarBound>,
    keepOutTerms: seq<KeepOutTerm>,
    monitors: seq<MonitorAutomaton>,
    actionLimits: ActionLimits,
    spatialDim: Option<nat>,
    safePose: Option<Vec>,
    admissibleDirectives: Option<AdmissibleDirectives>)

  // ---- What a decoded model guarantees ------------------------------------------

  /** The term's coefficients fit a dim-dimensional frame. */
  predicate TermFits(t: KeepOutTerm, dim: nat) {
    match t.shape
    case Sphere => t.radius.Some? && |t.center| == dim
    case Box => |t.center| == |t.halfExtents| == dim
    case HalfSpace => t.offset.Some? && |t.normal| == dim
  }

  /** The invariant every run starts from: indices in range, one shared positive
      dimension, a long enough safe pose, positive limits, well-formed bounded trees. */
  ghost predicate ModelOk(m: CompiledSafetyModel) {
    && m.samplePeriod > 0.0
    && (forall i :: 0 <= i < |m.atoms| ==> m.atoms[i].signalIndex < |m.signals|)
    && (forall i :: 0 <= i < |m.scalarBounds| ==> m.scalarBounds[i].atomIndex < |m.atoms|)
    && (forall i :: 0 <= i < |m.monitors| ==> WellFormed(m.monitors[i].root))
    && (m.spatialDim.None? <==> m.keepOutTerms == [])
    && (m.spatialDim.Some? ==> m.spatialDim.value > 0)
    && (forall i :: 0 <= i < |m.keepOutTerms| ==> TermFits(m.keepOutTerms[i], m.spatialDim.value))
    && (m.safePose.Some? && m.spatialDim.Some? ==> |m.safePose.value| >= m.spatialDim.value)
    && (m.actionLimits.maxVelocity.Some? ==> m.actionLimits.maxVelocity.value > 0.0)
    && (m.actionLimits.maxAccel.Some? ==> m.actionLimits.maxAccel.value > 0.0)
  }

  /** Every monitor leaf names an atom. Decoding does not check this. */
  ghost predicate LeavesInRange(m: CompiledSafetyModel) {
    forall i :: 0 <= i < |m.monitors| ==> LeavesBelow(m.monitors[i].root, |m.atoms|)
  }

  /** An atom's robustness is a sound margin for the atom itself, and its sign is
      the atom's truth except where a strict comparison meets its threshold. */
  lemma AtomRobustnessIsSound(op: PredicateOp, value: real, threshold: real)
    ensures op.Robustness(value, threshold) > 0.0 ==> op.Holds(value, threshold)
    ensures op.Robustness(value, threshold) < 0.0 ==> !op.Holds(value, threshold)
    ensures (op.Robustness(value, threshold) >= 0.0 <==> op.Holds(value, threshold))
      <==> op.Le? || op.Ge? || value != threshold
  {}
}
