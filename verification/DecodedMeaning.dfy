/** What an accepted payload decodes to, field by field, in the payload's own words. */
module DecodedMeaning {
  import opened Wrappers
  import opened Numbers
  import opened Vectors
  import opened TraceSemantics
  import opened SafetyModel
  import opened Decoder

  // ---- Vocabularies -------------------------------------------------------------------

  /** The comparison an atom's wire operator writes. */
  predicate WireHolds(op: string, value: real, threshold: real) {
    match op
    case "lt" => value < threshold
    case "le" => value <= threshold
    case "gt" => value > threshold
    case "ge" => value >= threshold
    case _ => false
  }

  function ComparisonName(op: PredicateOp): string {
    match op case Lt => "lt" case Le => "le" case Gt => "gt" case Ge => "ge"
  }

  function RecoveryName(on: OnUncertain): string {
    match on case Fallback => "fallback" case Hold => "hold" case SafeState => "safe_state"
  }

  function ShapeName(shape: Shape): string {
    match shape case Box => "box" case Sphere => "sphere" case HalfSpace => "half_space"
  }

  function OperatorName(op: TemporalOp): string {
    match op
    case Predicate => "predicate"
    case Not => "not"
    case And => "and"
    case Or => "or"
    case Always => "always"
    case Eventually => "eventually"
    case Until => "until"
  }

  /** Each vocabulary is decoded to the value its word names. */
  lemma WordsDecode(s: string)
    ensures ParsePredicateOp(s).Success? ==> ComparisonName(ParsePredicateOp(s).value) == s
    ensures ParseOnUncertain(s).Success? ==> RecoveryName(ParseOnUncertain(s).value) == s
    ensures ParseShape(s).Success? ==> ShapeName(ParseShape(s).value) == s
    ensures ParseTemporalOp(s).Success? ==> OperatorName(ParseTemporalOp(s).value) == s
  {}

  // ---- Atoms and bounds ------------------------------------------------------------------

  /** The atom compares the wire's own signal with the wire's own threshold, as the
      wire's operator writes it. */
  ghost predicate AtomSays(atom: PredicateAtom, w: WireAtom) {
    && atom.signalIndex as int == w.signalIndex && Finite(atom.threshold) == w.threshold
    && ComparisonName(atom.op) == w.op
    && forall value: real :: atom.op.Holds(value, atom.threshold) <==> WireHolds(w.op, value, w.threshold.r)
  }

  lemma AtomDecodes(w: WireAtom, signals: nat, atom: PredicateAtom)
    requires AtomFromWire(w, signals) == Success(atom)
    ensures AtomSays(atom, w)
  {
    WordsDecode(w.op);
    assert Finite(atom.threshold) == w.threshold;
  }

  ghost predicate BoundSays(bound: ScalarBound, w: WireBound) {
    && bound.constraintId == w.constraintId && bound.atomIndex as int == w.atomIndex
    && RecoveryName(bound.onUncertain) == w.onUncertain
  }

  // ---- Keep-out terms ------------------------------------------------------------------------

  ghost predicate TermSays(t: KeepOutTerm, w: WireTerm) {
    && t.constraintId == w.constraintId && RecoveryName(t.onUncertain) == w.onUncertain
    && ShapeName(t.shape) == w.shape && t.margin == w.margin && t.center == w.center
    && t.halfExtents == w.halfExtents && t.radius == w.radius && t.normal == w.normal && t.offset == w.offset
  }

  lemma TermDecodes(w: WireTerm, t: KeepOutTerm)
    requires TermFromWire(w) == Success(t)
    ensures TermSays(t, w)
  {
    WordsDecode(w.onUncertain);
    WordsDecode(w.shape);
    hide GeometryDim;
  }

  // ---- Monitor trees ---------------------------------------------------------------------------

  /** The same number, or none in both. */
  predicate SameIndex(x: Option<nat>, w: Option<int>) {
    (x.Some? <==> w.Some?) && (x.Some? ==> x.value as int == w.value)
  }

  /** Node by node the wire's operator, atom, interval and arguments. */
  ghost predicate TreeSays(f: Formula, w: WireNode)
    decreases w
  {
    && OperatorName(f.op) == w.op && SameIndex(f.predicateIndex, w.predicateIndex)
    && SameIndex(f.loSamples, w.lo) && SameIndex(f.hiSamples, w.hi)
    && |f.args| == |w.args| && forall i :: 0 <= i < |w.args| ==> TreeSays(f.args[i], w.args[i])
  }

  lemma {:induction false} MirrorSays(f: Formula, w: WireNode)
    requires Mirrors(f, w)
    ensures TreeSays(f, w)
    decreases w
  {
    WordsDecode(w.op);
    forall i | 0 <= i < |w.args| ensures TreeSays(f.args[i], w.args[i]) {
      MirrorSays(f.args[i], w.args[i]);
    }
  }

  ghost predicate MonitorSays(m: MonitorAutomaton, w: WireMonitor) {
    && w.root.Some? && TreeSays(m.root, w.root.value)
    && m.constraintId == w.constraintId && RecoveryName(m.onUncertain) == w.onUncertain
    && m.historyWindowLen as int == w.historyWindowLen
    && |m.predicateIndices| == |w.predicateIndices|
    && forall i :: 0 <= i < |m.predicateIndices| ==> m.predicateIndices[i] as int == w.predicateIndices[i]
  }

  lemma MonitorDecodes(w: WireMonitor, atoms: nat, cap: nat, m: MonitorAutomaton)
    requires MonitorFromWire(w, atoms, cap) == Success(m)
    ensures MonitorSays(m, w)
  {
    WordsDecode(w.onUncertain);
    MonitorDecodesIff(w, atoms, cap);
    MirrorSays(m.root, w.root.value);
    hide NodeFromWire, Mirrors, TreeSays, WellFormed;
    assert Traverse(w.predicateIndices, i => CheckAtom(i, atoms)) == Success(m.predicateIndices);
  }

  /** The trees that decode: known operators, their arity, an atom for a leaf, a finite
      ordered interval for a window, no negative number. */
  ghost predicate TreeIsAcceptable(w: WireNode)
    decreases w
  {
    && (w.predicateIndex.Some? ==> w.predicateIndex.value >= 0)
    && (w.lo.Some? ==> w.lo.value >= 0) && (w.hi.Some? ==> w.hi.value >= 0)
    && (match w.op
        case "predicate" => w.predicateIndex.Some? && |w.args| == 0
        case "not" => |w.args| == 1
        case "and" => |w.args| >= 1
        case "or" => |w.args| >= 1
        case "always" => |w.args| == 1 && HasWindow(w)
        case "eventually" => |w.args| == 1 && HasWindow(w)
        case "until" => |w.args| == 2 && HasWindow(w)
        case _ => false)
    && forall i :: 0 <= i < |w.args| ==> TreeIsAcceptable(w.args[i])
  }

  predicate HasWindow(w: WireNode) { w.lo.Some? && w.hi.Some? && w.lo.value <= w.hi.value }

  lemma {:induction false} TreeDecodesIff(w: WireNode)
    ensures NodeFromWire(w).Success? <==> TreeIsAcceptable(w)
    decreases w, 1
  {
    TreesDecodeIff(w.args);
    NodeChecks(w);
    TreeUnfolds(w);
    hide TreeIsAcceptable, NodeFromWire, NodesFromWire;
  }

  /** What one node has to pass once its arguments have decoded. */
  lemma NodeChecks(w: WireNode)
    ensures NodeFromWire(w).Success? <==>
      && NodesFromWire(w.args).Success?
      && (w.predicateIndex.Some? ==> w.predicateIndex.value >= 0)
      && (w.lo.Some? ==> w.lo.value >= 0) && (w.hi.Some? ==> w.hi.value >= 0)
      && (w.op == "predicate" || w.op == "not" || w.op == "and" || w.op == "or"
          || w.op == "always" || w.op == "eventually" || w.op == "until")
      && (w.op == "predicate" ==> w.predicateIndex.Some? && |w.args| == 0)
      && (w.op == "not" || w.op == "always" || w.op == "eventually" ==> |w.args| == 1)
      && (w.op == "and" || w.op == "or" ==> |w.args| >= 1) && (w.op == "until" ==> |w.args| == 2)
      && (w.op == "always" || w.op == "eventually" || w.op == "until" ==> HasWindow(w))
  {
    WordsDecode(w.op);
    hide NodesFromWire;
  }

  lemma TreeUnfolds(w: WireNode)
    ensures TreeIsAcceptable(w) <==>
      && (w.predicateIndex.Some? ==> w.predicateIndex.value >= 0)
      && (w.lo.Some? ==> w.lo.value >= 0) && (w.hi.Some? ==> w.hi.value >= 0)
      && (w.op == "predicate" || w.op == "not" || w.op == "and" || w.op == "or"
          || w.op == "always" || w.op == "eventually" || w.op == "until")
      && (w.op == "predicate" ==> w.predicateIndex.Some? && |w.args| == 0)
      && (w.op == "not" || w.op == "always" || w.op == "eventually" ==> |w.args| == 1)
      && (w.op == "and" || w.op == "or" ==> |w.args| >= 1) && (w.op == "until" ==> |w.args| == 2)
      && (w.op == "always" || w.op == "eventually" || w.op == "until" ==> HasWindow(w))
      && forall i :: 0 <= i < |w.args| ==> TreeIsAcceptable(w.args[i])
  {}

  lemma {:induction false} TreesDecodeIff(ws: seq<WireNode>)
    ensures NodesFromWire(ws).Success? <==> forall i :: 0 <= i < |ws| ==> TreeIsAcceptable(ws[i])
    decreases ws, 0
  {
    if ws != [] {
      TreeDecodesIff(ws[0]);
      TreesDecodeIff(ws[1..]);
      assert forall i :: 1 <= i < |ws| ==> ws[i] == ws[1..][i - 1];
    }
  }

  // ---- Frames and names -------------------------------------------------------------------------

  /** Tab, line feed, vertical tab, form feed, carriage return, space, next line, no-break
      space, Ogham space, the spaces from en quad to hair space, line and paragraph
      separator, and the narrow, mathematical and ideographic spaces. */
  const SPACES: set<char> := {
    '\U{0009}', '\U{000A}', '\U{000B}', '\U{000C}', '\U{000D}', ' ', '\U{0085}', '\U{00A0}', '\U{1680}',
    '\U{2000}', '\U{2001}', '\U{2002}', '\U{2003}', '\U{2004}', '\U{2005}', '\U{2006}', '\U{2007}', '\U{2008}',
    '\U{2009}', '\U{200A}', '\U{2028}', '\U{2029}', '\U{202F}', '\U{205F}', '\U{3000}' }

  lemma SpaceIff(c: char)
    ensures IsSpace(c) <==> c in SPACES
  {
    assert IsSpace(c) ==> c in SPACES by {
      var k := c as int;
      assert 0x9 <= k <= 0xD ==> k == 0x9 || k == 0xA || k == 0xB || k == 0xC || k == 0xD;
    }
  }

  predicate IsWord(s: string) { |s| > 0 && forall i :: 0 <= i < |s| ==> s[i] !in SPACES }

  /** A given frame has a one-word name, a known class, and a one-word centre if any. */
  predicate FrameIsAcceptable(frame: Option<FrameRef>) {
    match frame
    case None => true
    case Some(FrameRef(name, class_, center)) =>
      && IsWord(name) && (class_ == "body_fixed" || class_ == "inertial" || class_ == "topocentric")
      && (center.None? || IsWord(center.value))
  }

  lemma FrameOkIff(frame: Option<FrameRef>)
    ensures FrameOk(frame) <==> FrameIsAcceptable(frame)
  {
    forall c ensures IsSpace(c) <==> c in SPACES { SpaceIff(c); }
    hide IsSpace;
  }

  lemma NamesGivenIff(d: Option<AdmissibleDirectives>)
    ensures NamesGiven(d) <==>
      (d.Some? ==> forall name :: name in d.value.modes || name in d.value.tasks ==> |name| > 0)
  {}

  // ---- The whole payload ------------------------------------------------------------------------

  /** The dimension is that of the coefficients of every term, and there is one exactly
      if there are terms. */
  ghost predicate SpaceSays(m: CompiledSafetyModel, p: WireModel) {
    && (m.spatialDim.Some? <==> p.keepOutTerms != [])
    && forall i :: 0 <= i < |p.keepOutTerms| ==>
        var d := if p.keepOutTerms[i].shape == "half_space" then |p.keepOutTerms[i].normal| else |p.keepOutTerms[i].center|;
        m.spatialDim == Some(d)
  }

  ghost predicate LimitSays(x: Option<real>, w: Option<Float>) {
    (x.Some? <==> w.Some?) && (x.Some? ==> w.value == Finite(x.value))
  }

  predicate PoseSays(pose: Vec, position: seq<Float>) {
    |pose| == |position| && forall i :: 0 <= i < |pose| ==> position[i] == Finite(pose[i])
  }

  /** Every part of an accepted payload means in the model what it says on the wire. */
  lemma DecodedModelSays(p: WireModel, cap: nat, m: CompiledSafetyModel)
    requires FromWire(p, cap) == Success(m)
    ensures p.table.Some? && m.signals == p.table.value.signals && Finite(m.samplePeriod) == p.samplePeriod
    ensures |m.atoms| == |p.table.value.atoms|
    ensures forall i :: 0 <= i < |m.atoms| ==> AtomSays(m.atoms[i], p.table.value.atoms[i])
    ensures |m.scalarBounds| == |p.scalarBounds|
    ensures forall i :: 0 <= i < |m.scalarBounds| ==> BoundSays(m.scalarBounds[i], p.scalarBounds[i])
    ensures |m.keepOutTerms| == |p.keepOutTerms|
    ensures forall i :: 0 <= i < |m.keepOutTerms| ==> TermSays(m.keepOutTerms[i], p.keepOutTerms[i])
    ensures |m.monitors| == |p.monitors|
    ensures forall i :: 0 <= i < |m.monitors| ==> MonitorSays(m.monitors[i], p.monitors[i])
    ensures SpaceSays(m, p)
    ensures m.safePose.Some? <==> p.safePose.Some?
    ensures m.safePose.Some? ==> PoseSays(m.safePose.value, p.safePose.value.position)
    ensures LimitSays(m.actionLimits.maxVelocity, if p.actionLimits.Some? then p.actionLimits.value.maxVelocity else None)
    ensures LimitSays(m.actionLimits.maxAccel, if p.actionLimits.Some? then p.actionLimits.value.maxAccel else None)
    ensures m.admissibleDirectives == p.directives
  {
    DecodedParts(p, cap, m);
    TermsSay(p, cap, m);
    SpaceDecodes(p, m);
    LimitsDecode(p.actionLimits);
    hide FromWire, AtomFromWire, BoundFromWire, TermFromWire, MonitorFromWire, AtomSays, MonitorSays, TermSays, SpaceSays,
      SharedDim, LimitsFromWire;
    forall i | 0 <= i < |m.atoms| ensures AtomSays(m.atoms[i], p.table.value.atoms[i]) {
      AtomDecodes(p.table.value.atoms[i], |m.signals|, m.atoms[i]);
    }
    forall i | 0 <= i < |m.scalarBounds| ensures BoundSays(m.scalarBounds[i], p.scalarBounds[i]) {
      BoundDecodes(p.scalarBounds[i], |m.atoms|, m.scalarBounds[i]);
    }
    forall i | 0 <= i < |m.monitors| ensures MonitorSays(m.monitors[i], p.monitors[i]) {
      MonitorDecodes(p.monitors[i], |m.atoms|, cap, m.monitors[i]);
    }
  }

  lemma BoundDecodes(w: WireBound, atoms: nat, bound: ScalarBound)
    requires BoundFromWire(w, atoms) == Success(bound)
    ensures BoundSays(bound, w)
  {
    WordsDecode(w.onUncertain);
  }

  lemma TermsSay(p: WireModel, cap: nat, m: CompiledSafetyModel)
    requires FromWire(p, cap) == Success(m)
    ensures |m.keepOutTerms| == |p.keepOutTerms|
    ensures forall i :: 0 <= i < |m.keepOutTerms| ==> TermSays(m.keepOutTerms[i], p.keepOutTerms[i])
  {
    DecodedParts(p, cap, m);
    hide FromWire, TermFromWire, TermSays;
    forall i | 0 <= i < |m.keepOutTerms| ensures TermSays(m.keepOutTerms[i], p.keepOutTerms[i]) {
      TermDecodes(p.keepOutTerms[i], m.keepOutTerms[i]);
    }
  }

  lemma SpaceDecodes(p: WireModel, m: CompiledSafetyModel)
    requires |m.keepOutTerms| == |p.keepOutTerms| && SharedDim(m.keepOutTerms, None) == Success(m.spatialDim)
    requires forall i :: 0 <= i < |m.keepOutTerms| ==> TermSays(m.keepOutTerms[i], p.keepOutTerms[i])
    ensures SpaceSays(m, p)
  {
    SharedDimOk(m.keepOutTerms, m.spatialDim);
    hide SharedDim;
    forall i | 0 <= i < |p.keepOutTerms|
      ensures
        var d := if p.keepOutTerms[i].shape == "half_space" then |p.keepOutTerms[i].normal| else |p.keepOutTerms[i].center|;
        m.spatialDim == Some(d)
    {
      assert TermSays(m.keepOutTerms[i], p.keepOutTerms[i]) && TermFits(m.keepOutTerms[i], m.spatialDim.value);
    }
  }

  lemma LimitsDecode(l: Option<WireLimits>)
    ensures LimitsFromWire(l).Success? ==>
      var out := LimitsFromWire(l).value;
      && LimitSays(out.maxVelocity, if l.Some? then l.value.maxVelocity else None)
      && LimitSays(out.maxAccel, if l.Some? then l.value.maxAccel else None)
  {}
}
