/** The fail-closed front door: from a wire payload to a model the core may run. */
module Decoder {
  import opened Wrappers
  import opened Numbers
  import opened Vectors
  import opened TraceSemantics
  import opened SafetyModel

  // ---- The wire form -------------------------------------------------------------

  datatype WireNode = WireNode(
    op: string, predicateIndex: Option<int>, lo: Option<int>, hi: Option<int>, args: seq<WireNode>)

  datatype WireAtom = WireAtom(op: string, signalIndex: int, threshold: Float)

  datatype WireBound = WireBound(constraintId: string, onUncertain: string, atomIndex: int)

  datatype FrameRef = FrameRef(name: string, frameClass: string, center: Option<string>)

  datatype WirePose = WirePose(position: seq<Float>, frameRef: Option<FrameRef>)

  datatype WireTerm = WireTerm(
    constraintId: string, onUncertain: string, frameRef: Option<FrameRef>, shape: string, margin: real, center: Vec,
    halfExtents: Vec, radius: Option<real>, normal: Vec, offset: Option<real>)

  datatype WireMonitor = WireMonitor(
    constraintId: string, onUncertain: string, root: Option<WireNode>, historyWindowLen: int,
    nodeCount: int, predicateIndices: seq<int>)

  datatype WireTable = WireTable(signals: seq<string>, atoms: seq<WireAtom>)

  datatype WireLimits = WireLimits(maxVelocity: Option<Float>, maxAccel: Option<Float>)

  datatype WireModel = WireModel(
    samplePeriod: Float, table: Option<WireTable>, scalarBounds: seq<WireBound>,
    keepOutTerms: seq<WireTerm>, monitors: seq<WireMonitor>, safePose: Option<WirePose>,
    actionLimits: Option<WireLimits>, directives: Option<AdmissibleDirectives>, resourceBounds: seq<int>)

  datatype CoreError = Vocabulary(field: string, value: string) | Structure(what: string) | ResourceExceeded(who: string)

  type Decoded<T> = Result<T, CoreError>

  function Check(ok: bool, error: CoreError): (r: Decoded<()>)
    ensures r.Success? <==> ok
  {
    if ok then Success(()) else Failure(error)
  }

  // ---- Scalars and vocabularies ------------------------------------------------------

  function ToUsize(v: int, what: string): (r: Decoded<nat>)
    ensures r.Success? <==> v >= 0
    ensures r.Success? ==> r.value == v
  {
    if v >= 0 then Success(v) else Failure(Structure(what))
  }

  function OptUsize(v: Option<int>, what: string): (r: Decoded<Option<nat>>)
    ensures r.Success? <==> (v.Some? ==> v.value >= 0)
    ensures r.Success? ==> (r.value.Some? <==> v.Some?) && (v.Some? ==> r.value.value == v.value)
  {
    if v.None? then Success(None) else if v.value >= 0 then Success(Some(v.value)) else Failure(Structure(what))
  }

  function ParsePredicateOp(s: string): (r: Decoded<PredicateOp>)
    ensures r.Success? <==> s in {"lt", "le", "gt", "ge"}
  {
    if s == "lt" then Success(Lt) else if s == "le" then Success(Le)
    else if s == "gt" then Success(Gt) else if s == "ge" then Success(Ge)
    else Failure(Vocabulary("PredicateOp", s))
  }

  function ParseOnUncertain(s: string): (r: Decoded<OnUncertain>)
    ensures r.Success? <==> s in {"fallback", "hold", "safe_state"}
  {
    if s == "fallback" then Success(Fallback) else if s == "hold" then Success(Hold)
    else if s == "safe_state" then Success(SafeState) else Failure(Vocabulary("OnUncertain", s))
  }

  function ParseShape(s: string): (r: Decoded<Shape>)
    ensures r.Success? <==> s in {"box", "sphere", "half_space"}
  {
    if s == "box" then Success(Box) else if s == "sphere" then Success(Sphere)
    else if s == "half_space" then Success(HalfSpace) else Failure(Vocabulary("GeometryKind", s))
  }

  function ParseTemporalOp(s: string): (r: Decoded<TemporalOp>)
    ensures r.Success? <==> s in {"predicate", "not", "and", "or", "always", "eventually", "until"}
  {
    if s == "predicate" then Success(Predicate) else if s == "not" then Success(Not)
    else if s == "and" then Success(And) else if s == "or" then Success(Or)
    else if s == "always" then Success(Always) else if s == "eventually" then Success(Eventually)
    else if s == "until" then Success(Until) else Failure(Vocabulary("TemporalOp", s))
  }

  // ---- Frames ------------------------------------------------------------------------

  /** The Unicode white-space characters. */
  predicate IsSpace(c: char) {
    var k := c as int;
    || 0x9 <= k <= 0xD || k == 0x20 || k == 0x85 || k == 0xA0 || k == 0x1680 || 0x2000 <= k <= 0x200A
    || k == 0x2028 || k == 0x2029 || k == 0x202F || k == 0x205F || k == 0x3000
  }

  /** A non-empty name without white space. */
  predicate IsToken(s: string) { s != [] && forall i :: 0 <= i < |s| ==> !IsSpace(s[i]) }

  /** An absent frame is fine; one that is given must be well formed. */
  predicate FrameOk(frame: Option<FrameRef>) {
    frame.Some? ==>
      && IsToken(frame.value.name) && frame.value.frameClass in {"body_fixed", "inertial", "topocentric"}
      && (frame.value.center.Some? ==> IsToken(frame.value.center.value))
  }

  // ---- Monitor trees ------------------------------------------------------------------

  /** Decode a tree bottom-up, validating each node once its arguments are decoded. */
  function NodeFromWire(w: WireNode): (r: Decoded<Formula>)
    decreases w
  {
    var op :- ParseTemporalOp(w.op);
    var predicateIndex :- OptUsize(w.predicateIndex, "predicate_index");
    var lo :- OptUsize(w.lo, "interval_lo_samples");
    var hi :- OptUsize(w.hi, "interval_hi_samples");
    var args :- NodesFromWire(w.args);
    var node := Formula(op, predicateIndex, lo, hi, args);
    var _ :- Check(node.NodeOk(), Structure("monitor node"));
    Success(node)
  }

  function NodesFromWire(ws: seq<WireNode>): (r: Decoded<seq<Formula>>)
    ensures r.Success? ==> |r.value| == |ws|
    decreases ws
  {
    if ws == [] then Success([])
    else
      var head :- NodeFromWire(ws[0]);
      var tail :- NodesFromWire(ws[1..]);
      Success([head] + tail)
  }

  /** The wire tree says, node by node, what the formula says. */
  ghost predicate Mirrors(f: Formula, w: WireNode)
    decreases w
  {
    && ParseTemporalOp(w.op) == Success(f.op)
    && OptUsize(w.predicateIndex, "predicate_index") == Success(f.predicateIndex)
    && OptUsize(w.lo, "interval_lo_samples") == Success(f.loSamples)
    && OptUsize(w.hi, "interval_hi_samples") == Success(f.hiSamples)
    && |f.args| == |w.args| && forall i :: 0 <= i < |w.args| ==> Mirrors(f.args[i], w.args[i])
  }

  /** A tree decodes exactly to the well-formed formula it mirrors; a tree that
      mirrors none is refused. */
  lemma {:induction false} NodeDecodesIff(w: WireNode, f: Formula)
    ensures NodeFromWire(w) == Success(f) <==> Mirrors(f, w) && WellFormed(f)
    decreases w, 1
  {
    NodesDecodeIff(w.args, f.args);
  }

  lemma {:induction false} NodesDecodeIff(ws: seq<WireNode>, fs: seq<Formula>)
    ensures NodesFromWire(ws) == Success(fs) <==>
      |fs| == |ws| && forall i :: 0 <= i < |ws| ==> Mirrors(fs[i], ws[i]) && WellFormed(fs[i])
    decreases ws, 0
  {
    if ws != [] && fs != [] {
      NodeDecodesIff(ws[0], fs[0]);
      NodesDecodeIff(ws[1..], fs[1..]);
      assert fs == [fs[0]] + fs[1..];
      assert forall i :: 1 <= i < |ws| ==> ws[i] == ws[1..][i - 1];
      assert forall i :: 1 <= i < |fs| ==> fs[i] == fs[1..][i - 1];
    }
  }

  // ---- The rest of the payload ------------------------------------------------------------

  /** Decode every element, failing at the first that does not decode. */
  function Traverse<A, B>(xs: seq<A>, f: A -> Decoded<B>): (r: Decoded<seq<B>>)
    ensures r.Success? <==> forall i :: 0 <= i < |xs| ==> f(xs[i]).Success?
    ensures r.Success? ==> |r.value| == |xs| && forall i :: 0 <= i < |xs| ==> f(xs[i]) == Success(r.value[i])
  {
    if xs == [] then Success([])
    else
      var head :- f(xs[0]);
      var tail :- Traverse(xs[1..], f);
      assert forall i :: 1 <= i < |xs| ==> xs[i] == xs[1..][i - 1];
      Success([head] + tail)
  }

  function AtomFromWire(a: WireAtom, signals: nat): Decoded<PredicateAtom> {
    var index :- ToUsize(a.signalIndex, "signal_index");
    var _ :- Check(index < signals, Structure("signal_index out of range"));
    var _ :- Check(a.threshold.Finite?, Structure("atom threshold must be finite"));
    var op :- ParsePredicateOp(a.op);
    Success(PredicateAtom(op, index, a.threshold.r))
  }

  function CheckAtom(i: int, atoms: nat): (r: Decoded<nat>)
    ensures r.Success? <==> 0 <= i < atoms
    ensures r.Success? ==> r.value == i
  {
    var index :- ToUsize(i, "atom_index");
    if index < atoms then Success(index) else Failure(Structure("atom_index out of range"))
  }

  function BoundFromWire(b: WireBound, atoms: nat): Decoded<ScalarBound> {
    var onUncertain :- ParseOnUncertain(b.onUncertain);
    var index :- CheckAtom(b.atomIndex, atoms);
    Success(ScalarBound(b.constraintId, onUncertain, index))
  }

  /** The spatial dimension of a term whose coefficients agree. */
  function GeometryDim(t: KeepOutTerm): (r: Decoded<nat>)
    ensures r.Success? ==> r.value > 0 && TermFits(t, r.value)
    ensures forall d: nat :: d > 0 && TermFits(t, d) ==> r == Success(d)
  {
    match t.shape
    case Sphere =>
      if t.radius.None? then Failure(Structure("sphere needs a radius"))
      else if |t.center| == 0 then Failure(Structure("zero spatial dimension")) else Success(|t.center|)
    case Box =>
      if |t.center| != |t.halfExtents| then Failure(Structure("center/half_extents arity mismatch"))
      else if |t.center| == 0 then Failure(Structure("zero spatial dimension")) else Success(|t.center|)
    case HalfSpace =>
      if t.offset.None? then Failure(Structure("half_space needs an offset"))
      else if |t.normal| == 0 then Failure(Structure("zero spatial dimension")) else Success(|t.normal|)
  }

  function TermFromWire(t: WireTerm): (r: Decoded<KeepOutTerm>)
    ensures r.Success? ==> GeometryDim(r.value).Success?
  {
    var _ :- Check(FrameOk(t.frameRef), Structure("keep-out frame_ref"));
    var onUncertain :- ParseOnUncertain(t.onUncertain);
    var shape :- ParseShape(t.shape);
    var term := KeepOutTerm(t.constraintId, onUncertain, shape, t.margin, t.center, t.halfExtents, t.radius,
      t.normal, t.offset);
    var _ :- GeometryDim(term);
    Success(term)
  }

  /** The dimension all terms share, given the one seen so far. */
  function SharedDim(terms: seq<KeepOutTerm>, seen: Option<nat>): (r: Decoded<Option<nat>>)
    ensures r.Success? ==>
      && (r.value.None? <==> terms == [] && seen.None?)
      && (seen.Some? ==> r.value == seen)
      && (forall i :: 0 <= i < |terms| ==> GeometryDim(terms[i]) == Success(r.value.value))
    ensures r.Failure? ==>
      forall d: nat :: (seen.None? || seen.value == d) ==>
        exists i :: 0 <= i < |terms| && GeometryDim(terms[i]) != Success(d)
    decreases terms
  {
    if terms == [] then Success(seen)
    else
      var d := GeometryDim(terms[0]);
      if d.Failure? then Failure(d.error)
      else if seen.Some? && seen.value != d.value then Failure(Structure("terms disagree on spatial dimension"))
      else
        var r := SharedDim(terms[1..], Some(d.value));
        assert forall i :: 1 <= i < |terms| ==> terms[i] == terms[1..][i - 1];
        r
  }

  /** The decoder's own loop over the terms. */
  method FindSharedDim(terms: seq<KeepOutTerm>) returns (r: Decoded<Option<nat>>)
    ensures r == SharedDim(terms, None)
  {
    var spatialDim: Option<nat> := None;
    for i := 0 to |terms|
      invariant SharedDim(terms, None) == SharedDim(terms[i..], spatialDim)
    {
      var d := GeometryDim(terms[i]);
      if d.Failure? {
        return Failure(d.error);
      }
      if spatialDim.None? {
        spatialDim := Some(d.value);
      } else if spatialDim.value != d.value {
        return Failure(Structure("terms disagree on spatial dimension"));
      }
    }
    r := Success(spatialDim);
  }

  function MonitorFromWire(m: WireMonitor, atoms: nat, cap: nat): Decoded<MonitorAutomaton> {
    var _ :- Check(m.root.Some?, Structure("monitor missing root"));
    var root :- NodeFromWire(m.root.value);
    var history :- ToUsize(m.historyWindowLen, "history_window_len");
    var _ :- Check(history <= cap, ResourceExceeded(m.constraintId));
    var onUncertain :- ParseOnUncertain(m.onUncertain);
    var _ :- ToUsize(m.nodeCount, "node_count");
    var indices :- Traverse(m.predicateIndices, i => CheckAtom(i, atoms));
    Success(MonitorAutomaton(m.constraintId, onUncertain, root, history, indices))
  }

  function PoseFromWire(pose: Option<WirePose>, dim: Option<nat>): (r: Decoded<Option<Vec>>)
    ensures r.Success? <==> (pose.Some? ==>
      && FrameOk(pose.value.frameRef) && AllFinite(pose.value.position)
      && (dim.Some? ==> |pose.value.position| >= dim.value))
    ensures r.Success? ==>
      (r.value.Some? <==> pose.Some?) && (pose.Some? ==> Lift(r.value.value) == pose.value.position)
  {
    if pose.None? then Success(None)
    else
      var position := pose.value.position;
      var _ :- Check(FrameOk(pose.value.frameRef), Structure("safe_pose frame_ref"));
      var _ :- Check(AllFinite(position), Structure("safe_pose position must be finite"));
      var _ :- Check(dim.Some? ==> |position| >= dim.value, Structure("safe_pose too short"));
      Success(Some(Values(position, |position|)))
  }

  function LimitFromWire(v: Option<Float>, what: string): (r: Decoded<Option<real>>)
    ensures r.Success? <==> (v.Some? ==> v.value.Finite? && v.value.r > 0.0)
    ensures r.Success? ==> (r.value.Some? <==> v.Some?) && (v.Some? ==> Finite(r.value.value) == v.value)
  {
    if v.None? then Success(None)
    else
      var _ :- Check(v.value.Finite? && v.value.r > 0.0, Structure(what));
      Success(Some(v.value.r))
  }

  function LimitsFromWire(l: Option<WireLimits>): (r: Decoded<ActionLimits>)
    ensures r.Success? ==>
      && (r.value.maxVelocity.Some? ==> r.value.maxVelocity.value > 0.0)
      && (r.value.maxAccel.Some? ==> r.value.maxAccel.value > 0.0)
  {
    if l.None? then Success(ActionLimits(None, None))
    else
      var velocity :- LimitFromWire(l.value.maxVelocity, "max_velocity_mps");
      var accel :- LimitFromWire(l.value.maxAccel, "max_accel_mps2");
      Success(ActionLimits(velocity, accel))
  }

  predicate NamesGiven(d: Option<AdmissibleDirectives>) {
    d.Some? ==> "" !in d.value.modes && "" !in d.value.tasks
  }

  /** Decode and validate a payload, refusing windows above the cap. */
  function FromWire(p: WireModel, cap: nat): Decoded<CompiledSafetyModel> {
    var _ :- Check(p.samplePeriod.Finite? && p.samplePeriod.r > 0.0, Structure("sample_period_s"));
    var _ :- Check(p.table.Some?, Structure("missing predicate_table"));
    var signals := p.table.value.signals;
    var atoms :- Traverse(p.table.value.atoms, a => AtomFromWire(a, |signals|));
    var bounds :- Traverse(p.scalarBounds, b => BoundFromWire(b, |atoms|));
    var terms :- Traverse(p.keepOutTerms, TermFromWire);
    var dim :- SharedDim(terms, None);
    var monitors :- Traverse(p.monitors, m => MonitorFromWire(m, |atoms|, cap));
    var pose :- PoseFromWire(p.safePose, dim);
    var limits :- LimitsFromWire(p.actionLimits);
    var _ :- Check(NamesGiven(p.directives), Structure("empty directive name"));
    var _ :- Traverse(p.resourceBounds, n => ToUsize(n, "resource bound"));
    Success(CompiledSafetyModel(p.samplePeriod.r, signals, atoms, bounds, terms, monitors, limits, dim, pose,
      p.directives))
  }

  // ---- What acceptance means -----------------------------------------------------------------

  /** The demands a payload must meet, part by part. */
  ghost predicate Acceptable(p: WireModel, cap: nat) {
    && p.samplePeriod.Finite? && p.samplePeriod.r > 0.0 && p.table.Some?
    && var (atoms, signals) := (p.table.value.atoms, |p.table.value.signals|);
      && (forall i :: 0 <= i < |atoms| ==> AtomAcceptable(atoms[i], signals))
      && (forall i :: 0 <= i < |p.scalarBounds| ==> BoundAcceptable(p.scalarBounds[i], |atoms|))
      && (forall i :: 0 <= i < |p.monitors| ==> MonitorAcceptable(p.monitors[i], |atoms|, cap))
      && (exists d: nat :: SpaceAcceptable(p, d))
      && (p.actionLimits.Some? ==> LimitsAcceptable(p.actionLimits.value))
      && NamesGiven(p.directives)
      && (forall i :: 0 <= i < |p.resourceBounds| ==> p.resourceBounds[i] >= 0)
  }

  ghost predicate AtomAcceptable(a: WireAtom, signals: nat) {
    0 <= a.signalIndex < signals && a.threshold.Finite? && a.op in {"lt", "le", "gt", "ge"}
  }

  ghost predicate BoundAcceptable(b: WireBound, atoms: nat) {
    b.onUncertain in {"fallback", "hold", "safe_state"} && 0 <= b.atomIndex < atoms
  }

  ghost predicate MonitorAcceptable(m: WireMonitor, atoms: nat, cap: nat) {
    && m.root.Some? && (exists f: Formula :: Mirrors(f, m.root.value) && WellFormed(f))
    && 0 <= m.historyWindowLen <= cap && m.nodeCount >= 0
    && m.onUncertain in {"fallback", "hold", "safe_state"}
    && forall i :: 0 <= i < |m.predicateIndices| ==> 0 <= m.predicateIndices[i] < atoms
  }

  /** The term's shape is known and its coefficients fit dimension d. */
  ghost predicate TermAcceptable(t: WireTerm, d: nat) {
    && FrameOk(t.frameRef) && t.onUncertain in {"fallback", "hold", "safe_state"}
    && match t.shape
       case "sphere" => t.radius.Some? && |t.center| == d
       case "box" => |t.center| == |t.halfExtents| == d
       case "half_space" => t.offset.Some? && |t.normal| == d
       case _ => false
  }

  /** One positive dimension d fits every term, and the safe pose reaches it. */
  ghost predicate SpaceAcceptable(p: WireModel, d: nat) {
    && d > 0 && (forall i :: 0 <= i < |p.keepOutTerms| ==> TermAcceptable(p.keepOutTerms[i], d))
    && (p.safePose.Some? ==>
        && FrameOk(p.safePose.value.frameRef) && AllFinite(p.safePose.value.position)
        && (p.keepOutTerms != [] ==> |p.safePose.value.position| >= d))
  }

  predicate PositiveFloat(x: Float) { x.Finite? && x.r > 0.0 }

  predicate LimitsAcceptable(l: WireLimits) {
    && (l.maxVelocity.Some? ==> PositiveFloat(l.maxVelocity.value))
    && (l.maxAccel.Some? ==> PositiveFloat(l.maxAccel.value))
  }

  lemma MonitorDecodesIff(m: WireMonitor, atoms: nat, cap: nat)
    ensures MonitorFromWire(m, atoms, cap).Success? <==> MonitorAcceptable(m, atoms, cap)
    ensures MonitorFromWire(m, atoms, cap).Success? ==>
      var out := MonitorFromWire(m, atoms, cap).value;
      && m.root.Some? && Mirrors(out.root, m.root.value) && WellFormed(out.root)
      && out.historyWindowLen <= cap && out.constraintId == m.constraintId
  {
    if m.root.Some? {
      var r := NodeFromWire(m.root.value);
      if r.Success? {
        NodeDecodesIff(m.root.value, r.value);
      }
      forall f: Formula | Mirrors(f, m.root.value) && WellFormed(f) ensures r.Success? {
        NodeDecodesIff(m.root.value, f);
      }
    }
  }

  lemma TermDecodesIff(t: WireTerm, d: nat)
    requires d > 0
    ensures TermAcceptable(t, d) <==> TermFromWire(t).Success? && GeometryDim(TermFromWire(t).value) == Success(d)
  {}

  /** Terms and safe pose decode exactly when some positive dimension fits them. */
  lemma SpaceDecodesIff(p: WireModel)
    ensures (exists d: nat :: SpaceAcceptable(p, d)) <==>
      var terms := Traverse(p.keepOutTerms, TermFromWire);
      && terms.Success? && SharedDim(terms.value, None).Success?
      && PoseFromWire(p.safePose, SharedDim(terms.value, None).value).Success?
  {
    var terms := Traverse(p.keepOutTerms, TermFromWire);
    forall d: nat | SpaceAcceptable(p, d)
      ensures terms.Success? && SharedDim(terms.value, None).Success?
      ensures PoseFromWire(p.safePose, SharedDim(terms.value, None).value).Success?
    {
      forall i | 0 <= i < |p.keepOutTerms| ensures TermFromWire(p.keepOutTerms[i]).Success? {
        TermDecodesIff(p.keepOutTerms[i], d);
      }
      forall i | 0 <= i < |terms.value| ensures GeometryDim(terms.value[i]) == Success(d) {
        TermDecodesIff(p.keepOutTerms[i], d);
      }
    }
    if terms.Success? && SharedDim(terms.value, None).Success? {
      var dim := SharedDim(terms.value, None).value;
      if PoseFromWire(p.safePose, dim).Success? {
        DimensionFits(p, terms.value, dim);
      }
    }
  }

  lemma DimensionFits(p: WireModel, terms: seq<KeepOutTerm>, dim: Option<nat>)
    requires Traverse(p.keepOutTerms, TermFromWire) == Success(terms) && SharedDim(terms, None) == Success(dim)
    requires PoseFromWire(p.safePose, dim).Success?
    ensures dim.Some? ==> dim.value > 0
    ensures SpaceAcceptable(p, if dim.Some? then dim.value else 1)
  {
    if dim.Some? {
      assert GeometryDim(terms[0]) == Success(dim.value);
      forall i | 0 <= i < |p.keepOutTerms| ensures TermAcceptable(p.keepOutTerms[i], dim.value) {
        assert GeometryDim(terms[i]) == Success(dim.value);
        TermDecodesIff(p.keepOutTerms[i], dim.value);
      }
    }
  }

  lemma SharedDimOk(terms: seq<KeepOutTerm>, dim: Option<nat>)
    requires SharedDim(terms, None) == Success(dim)
    ensures dim.None? <==> terms == []
    ensures dim.Some? ==> dim.value > 0
    ensures forall i :: 0 <= i < |terms| ==> TermFits(terms[i], dim.value)
  {
    if dim.Some? {
      assert GeometryDim(terms[0]) == Success(dim.value);
    }
  }

  lemma SmallPartsDecodeIff(a: WireAtom, signals: nat, b: WireBound, atoms: nat, l: Option<WireLimits>)
    ensures AtomFromWire(a, signals).Success? <==> AtomAcceptable(a, signals)
    ensures BoundFromWire(b, atoms).Success? <==> BoundAcceptable(b, atoms)
    ensures LimitsFromWire(l).Success? <==> (l.Some? ==> LimitsAcceptable(l.value))
  {}

  /** Fail-closed, and no more than that: a payload decodes exactly when it meets
      the demands. */
  lemma DecodesIff(p: WireModel, cap: nat)
    ensures FromWire(p, cap).Success? <==> Acceptable(p, cap)
  {
    hide NodeFromWire, Mirrors, WellFormed, SharedDim, GeometryDim, TermAcceptable, TermFromWire, Traverse;
    SpaceDecodesIff(p);
    if p.table.Some? {
      forall a, signals, b, n
        ensures AtomFromWire(a, signals).Success? <==> AtomAcceptable(a, signals)
        ensures BoundFromWire(b, n).Success? <==> BoundAcceptable(b, n)
        ensures LimitsFromWire(p.actionLimits).Success?
          <==> (p.actionLimits.Some? ==> LimitsAcceptable(p.actionLimits.value))
      {
        SmallPartsDecodeIff(a, signals, b, n, p.actionLimits);
      }
      hide AtomFromWire, AtomAcceptable, BoundFromWire, BoundAcceptable, LimitsFromWire, LimitsAcceptable;
      var atoms := p.table.value.atoms;
      forall i | 0 <= i < |p.monitors|
        ensures MonitorFromWire(p.monitors[i], |atoms|, cap).Success? <==> MonitorAcceptable(p.monitors[i], |atoms|, cap)
      {
        MonitorDecodesIff(p.monitors[i], |atoms|, cap);
      }
      hide MonitorFromWire, MonitorAcceptable, SpaceAcceptable;
    }
  }

  /** A decoded model is the decoding of each part. */
  lemma DecodedParts(p: WireModel, cap: nat, m: CompiledSafetyModel)
    requires FromWire(p, cap) == Success(m)
    ensures p.table.Some? && m.signals == p.table.value.signals && Finite(m.samplePeriod) == p.samplePeriod
    ensures m.samplePeriod > 0.0 && m.admissibleDirectives == p.directives
    ensures |m.atoms| == |p.table.value.atoms|
    ensures forall i :: 0 <= i < |m.atoms| ==>
      AtomFromWire(p.table.value.atoms[i], |m.signals|) == Success(m.atoms[i])
    ensures |m.scalarBounds| == |p.scalarBounds|
    ensures forall i :: 0 <= i < |m.scalarBounds| ==>
      BoundFromWire(p.scalarBounds[i], |m.atoms|) == Success(m.scalarBounds[i])
    ensures |m.keepOutTerms| == |p.keepOutTerms|
    ensures forall i :: 0 <= i < |m.keepOutTerms| ==>
      TermFromWire(p.keepOutTerms[i]) == Success(m.keepOutTerms[i])
    ensures |m.monitors| == |p.monitors|
    ensures forall i :: 0 <= i < |m.monitors| ==>
      MonitorFromWire(p.monitors[i], |m.atoms|, cap) == Success(m.monitors[i])
    ensures SharedDim(m.keepOutTerms, None) == Success(m.spatialDim)
    ensures PoseFromWire(p.safePose, m.spatialDim) == Success(m.safePose)
    ensures LimitsFromWire(p.actionLimits) == Success(m.actionLimits)
  {
    hide Traverse, SharedDim, PoseFromWire, LimitsFromWire, NamesGiven, AtomFromWire, BoundFromWire, TermFromWire,
      MonitorFromWire;
  }

  /** Every accepted payload yields a model that meets the run invariant. */
  lemma DecodedModelIsOk(p: WireModel, cap: nat, m: CompiledSafetyModel)
    requires FromWire(p, cap) == Success(m)
    ensures ModelOk(m)
  {
    hide FromWire, MonitorFromWire, SharedDim, TermFromWire, WellFormed, Mirrors;
    DecodedParts(p, cap, m);
    SharedDimOk(m.keepOutTerms, m.spatialDim);
    DecodedMonitors(p, cap, m);
    forall i | 0 <= i < |m.atoms| ensures m.atoms[i].signalIndex < |m.signals| {
      assert AtomFromWire(p.table.value.atoms[i], |m.signals|) == Success(m.atoms[i]);
    }
    forall i | 0 <= i < |m.scalarBounds| ensures m.scalarBounds[i].atomIndex < |m.atoms| {
      assert BoundFromWire(p.scalarBounds[i], |m.atoms|) == Success(m.scalarBounds[i]);
    }
  }

  /** Its monitors say what the wire monitors say, within the cap. */
  lemma DecodedMonitors(p: WireModel, cap: nat, m: CompiledSafetyModel)
    requires FromWire(p, cap) == Success(m)
    ensures |m.monitors| == |p.monitors|
    ensures forall i :: 0 <= i < |m.monitors| ==>
      && p.monitors[i].root.Some? && Mirrors(m.monitors[i].root, p.monitors[i].root.value)
      && WellFormed(m.monitors[i].root)
      && m.monitors[i].historyWindowLen <= cap && m.monitors[i].constraintId == p.monitors[i].constraintId
  {
    hide FromWire, MonitorFromWire, MonitorAcceptable, Mirrors, WellFormed;
    DecodedParts(p, cap, m);
    forall i | 0 <= i < |p.monitors|
      ensures WellFormed(m.monitors[i].root) && p.monitors[i].root.Some?
      ensures Mirrors(m.monitors[i].root, p.monitors[i].root.value)
      ensures m.monitors[i].historyWindowLen <= cap && m.monitors[i].constraintId == p.monitors[i].constraintId
    {
      assert MonitorFromWire(p.monitors[i], |m.atoms|, cap) == Success(m.monitors[i]);
      MonitorDecodesIff(p.monitors[i], |m.atoms|, cap);
    }
  }

  // ---- The leaves of a monitor tree ------------------------------------------------------------

  /** Every leaf of the wire tree names one of the first n atoms. */
  predicate WireLeavesBelow(w: WireNode, n: nat) {
    && (w.op == "predicate" && w.predicateIndex.Some? ==> w.predicateIndex.value < n)
    && forall i :: 0 <= i < |w.args| ==> WireLeavesBelow(w.args[i], n)
  }

  lemma {:induction false} LeavesMirror(f: Formula, w: WireNode, n: nat)
    requires Mirrors(f, w)
    ensures LeavesBelow(f, n) <==> WireLeavesBelow(w, n)
    decreases w
  {
    assert f.op.Predicate? <==> w.op == "predicate";
    forall i | 0 <= i < |w.args| ensures LeavesBelow(f.args[i], n) <==> WireLeavesBelow(w.args[i], n) {
      LeavesMirror(f.args[i], w.args[i], n);
    }
  }

  /** What a sender has to check, because decoding does not: an accepted payload
      yields a model with every leaf in range exactly when no leaf of its own trees
      names an atom beyond its predicate table. */
  lemma LeavesInRangeIff(p: WireModel, cap: nat, m: CompiledSafetyModel)
    requires FromWire(p, cap) == Success(m)
    ensures p.table.Some? && forall i :: 0 <= i < |p.monitors| ==> p.monitors[i].root.Some?
    ensures LeavesInRange(m) <==>
      forall i :: 0 <= i < |p.monitors| ==> WireLeavesBelow(p.monitors[i].root.value, |p.table.value.atoms|)
  {
    hide FromWire, Mirrors, WellFormed, LeavesBelow, WireLeavesBelow;
    DecodedParts(p, cap, m);
    DecodedMonitors(p, cap, m);
    forall i | 0 <= i < |p.monitors|
      ensures LeavesBelow(m.monitors[i].root, |m.atoms|)
        <==> WireLeavesBelow(p.monitors[i].root.value, |p.table.value.atoms|)
    {
      LeavesMirror(m.monitors[i].root, p.monitors[i].root.value, |m.atoms|);
    }
  }

  /** A payload with one monitor whose leaf names an atom that does not exist. */
  function UnrangedPayload(leaf: nat): WireModel {
    WireModel(Finite(1.0), Some(WireTable([], [])), [], [],
      [WireMonitor("m", "hold", Some(WireNode("predicate", Some(leaf), None, None, [])), 0, 1, [])],
      None, None, None, [])
  }

  /** Decoding checks the separate index list of a monitor, not its leaves: with no
      atoms at all, a leaf index of any value is accepted. */
  lemma LeafIndicesAreNotChecked(leaf: nat, cap: nat)
    ensures FromWire(UnrangedPayload(leaf), cap).Success?
    ensures !LeavesInRange(FromWire(UnrangedPayload(leaf), cap).value)
  {
    var p := UnrangedPayload(leaf);
    var w := p.monitors[0].root.value;
    var f := Formula(Predicate, Some(leaf), None, None, []);
    assert NodesFromWire(w.args) == Success([]);
    assert NodeFromWire(w) == Success(f);
    assert MonitorFromWire(p.monitors[0], 0, cap).Success?;
    var m := FromWire(p, cap).value;
    assert m.monitors[0].root == f;
  }
}
