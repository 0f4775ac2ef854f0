/** With which error a payload is refused, in the payload's own words. */
module Refusals {
  import opened Wrappers
  import opened Numbers
  import opened SafetyModel
  import opened Decoder
  import opened DecodedMeaning

  // ---- Lists and trees ------------------------------------------------------------------

  /** A list is refused with the error of its first element that is. */
  lemma {:induction false} FirstRefusal<A, B>(xs: seq<A>, f: A -> Decoded<B>, e: CoreError)
    ensures Traverse(xs, f) == Failure(e) <==>
      exists k :: 0 <= k < |xs| && f(xs[k]) == Failure(e) && forall j :: 0 <= j < k ==> f(xs[j]).Success?
  {
    if xs != [] {
      FirstRefusal(xs[1..], f, e);
      assert forall i :: 1 <= i < |xs| ==> xs[i] == xs[1..][i - 1];
      if k :| 0 <= k < |xs| - 1 && f(xs[1..][k]) == Failure(e) && forall j :: 0 <= j < k ==> f(xs[1..][j]).Success? {
        if f(xs[0]).Success? {
          assert f(xs[k + 1]) == Failure(e) && forall j :: 0 <= j < k + 1 ==> f(xs[j]).Success?;
        }
      }
      if k :| 0 < k < |xs| && f(xs[k]) == Failure(e) && forall j :: 0 <= j < k ==> f(xs[j]).Success? {
        assert f(xs[1..][k - 1]) == Failure(e) && forall j :: 0 <= j < k - 1 ==> f(xs[1..][j]).Success?;
      }
    }
  }

  /** The operator of the node or of one below it. */
  ghost predicate OperatorIn(w: WireNode, s: string) {
    w.op == s || exists i :: 0 <= i < |w.args| && OperatorIn(w.args[i], s)
  }

  /** A refused tree is malformed, or has an operator outside the vocabulary. */
  lemma {:induction false} TreeRefusal(w: WireNode)
    ensures
      var r := NodeFromWire(w);
      r.Failure? ==> !r.error.ResourceExceeded? && (r.error.Vocabulary? ==> IsForeign(w, r.error))
    decreases w, 1
  {
    TreesRefusal(w.args);
  }

  ghost predicate IsForeign(w: WireNode, e: CoreError)
    requires e.Vocabulary?
  {
    e.field == "TemporalOp" && OperatorIn(w, e.value)
    && e.value !in {"predicate", "not", "and", "or", "always", "eventually", "until"}
  }

  lemma {:induction false} TreesRefusal(ws: seq<WireNode>)
    ensures
      var r := NodesFromWire(ws);
      r.Failure? ==>
        && !r.error.ResourceExceeded?
        && (r.error.Vocabulary? ==> exists i :: 0 <= i < |ws| && IsForeign(ws[i], r.error))
    decreases ws, 0
  {
    if ws != [] {
      TreeRefusal(ws[0]);
      TreesRefusal(ws[1..]);
      assert forall i :: 1 <= i < |ws| ==> ws[i] == ws[1..][i - 1];
    }
  }

  // ---- A window above the cap --------------------------------------------------------------

  /** The monitor's tree is sound and its window longer than the cap. */
  ghost predicate IsTooLong(m: WireMonitor, cap: nat) {
    m.root.Some? && TreeIsAcceptable(m.root.value) && m.historyWindowLen > cap
  }

  lemma MonitorTooLongIff(m: WireMonitor, atoms: nat, cap: nat, who: string)
    ensures MonitorFromWire(m, atoms, cap) == Failure(ResourceExceeded(who)) <==>
      IsTooLong(m, cap) && who == m.constraintId
  {
    if m.root.Some? {
      TreeRefusal(m.root.value);
      TreeDecodesIff(m.root.value);
    }
    FirstRefusal(m.predicateIndices, i => CheckAtom(i, atoms), ResourceExceeded(who));
    hide NodeFromWire, Traverse, TreeIsAcceptable;
  }

  /** One positive dimension fits every keep-out. */
  ghost predicate ShareDimension(p: WireModel, d: nat) {
    d > 0 && forall i :: 0 <= i < |p.keepOutTerms| ==> TermAcceptable(p.keepOutTerms[i], d)
  }

  /** What is decoded before the monitors: period, table, bounds and keep-outs. */
  ghost predicate ReachesMonitors(p: WireModel) {
    && p.samplePeriod.Finite? && p.samplePeriod.r > 0.0 && p.table.Some?
    && var (atoms, signals) := (p.table.value.atoms, |p.table.value.signals|);
      && (forall i :: 0 <= i < |atoms| ==> AtomAcceptable(atoms[i], signals))
      && (forall i :: 0 <= i < |p.scalarBounds| ==> BoundAcceptable(p.scalarBounds[i], |atoms|))
      && exists d: nat :: ShareDimension(p, d)
  }

  /** Monitor k is the first that is not acceptable, and it is too long. */
  ghost predicate FirstTooLong(p: WireModel, cap: nat, k: nat)
    requires p.table.Some?
  {
    && k < |p.monitors| && IsTooLong(p.monitors[k], cap)
    && forall j :: 0 <= j < k ==> MonitorAcceptable(p.monitors[j], |p.table.value.atoms|, cap)
  }

  /** A payload is refused for its resources exactly when everything before its monitors
      is acceptable and the first monitor that is not has a sound tree and a window above
      the cap; that monitor is named. */
  lemma TooLongIff(p: WireModel, cap: nat, who: string)
    ensures FromWire(p, cap) == Failure(ResourceExceeded(who)) <==>
      ReachesMonitors(p) && exists k: nat :: FirstTooLong(p, cap, k) && who == p.monitors[k].constraintId
  {
    if p.table.Some? {
      var signals, atoms := |p.table.value.signals|, p.table.value.atoms;
      Atoms(atoms, signals, ResourceExceeded(who));
      Bounds(p.scalarBounds, |atoms|, ResourceExceeded(who));
      KeepOuts(p, ResourceExceeded(who));
      MonitorsTooLongIff(p, cap, who);
      OnlyMonitors(p, cap, ResourceExceeded(who));
      hide FromWire, Traverse, SharedDim, MonitorFromWire, AtomFromWire, BoundFromWire, TermFromWire, FirstTooLong,
        AtomAcceptable, BoundAcceptable, ShareDimension;
    }
  }

  /** An error that no other part answers is the monitors'. */
  lemma OnlyMonitors(p: WireModel, cap: nat, e: CoreError)
    requires p.table.Some? && e.ResourceExceeded?
    requires Traverse(p.table.value.atoms, a => AtomFromWire(a, |p.table.value.signals|)) != Failure(e)
    requires Traverse(p.scalarBounds, b => BoundFromWire(b, |p.table.value.atoms|)) != Failure(e)
    requires
      var terms := Traverse(p.keepOutTerms, TermFromWire);
      terms != Failure(e) && (terms.Success? ==> SharedDim(terms.value, None) != Failure(e))
    ensures
      var terms := Traverse(p.keepOutTerms, TermFromWire);
      FromWire(p, cap) == Failure(e) <==>
        && p.samplePeriod.Finite? && p.samplePeriod.r > 0.0
        && Traverse(p.table.value.atoms, a => AtomFromWire(a, |p.table.value.signals|)).Success?
        && Traverse(p.scalarBounds, b => BoundFromWire(b, |p.table.value.atoms|)).Success?
        && terms.Success? && SharedDim(terms.value, None).Success?
        && Traverse(p.monitors, m => MonitorFromWire(m, |p.table.value.atoms|, cap)) == Failure(e)
  {
    LaterParts(p, e);
    hide Traverse, SharedDim, MonitorFromWire, PoseFromWire, LimitsFromWire, NamesGiven, AtomFromWire, BoundFromWire,
      TermFromWire;
  }

  lemma MonitorsTooLongIff(p: WireModel, cap: nat, who: string)
    requires p.table.Some?
    ensures Traverse(p.monitors, m => MonitorFromWire(m, |p.table.value.atoms|, cap)) == Failure(ResourceExceeded(who)) <==>
      exists k: nat :: FirstTooLong(p, cap, k) && who == p.monitors[k].constraintId
  {
    var ms, atoms := p.monitors, |p.table.value.atoms|;
    FirstRefusal(ms, m => MonitorFromWire(m, atoms, cap), ResourceExceeded(who));
    forall k | 0 <= k < |ms|
      ensures MonitorFromWire(ms[k], atoms, cap) == Failure(ResourceExceeded(who)) <==>
        IsTooLong(ms[k], cap) && who == ms[k].constraintId
      ensures MonitorFromWire(ms[k], atoms, cap).Success? <==> MonitorAcceptable(ms[k], atoms, cap)
    {
      MonitorTooLongIff(ms[k], atoms, cap, who);
      MonitorDecodesIff(ms[k], atoms, cap);
    }
    hide Traverse, MonitorFromWire, IsTooLong, MonitorAcceptable;
    if k :|
      && 0 <= k < |ms| && MonitorFromWire(ms[k], atoms, cap) == Failure(ResourceExceeded(who))
      && forall j :: 0 <= j < k ==> MonitorFromWire(ms[j], atoms, cap).Success?
    {
      assert FirstTooLong(p, cap, k);
    }
  }

  /** No earlier part is refused for its resources, and all are decoded exactly when the
      monitors are reached. */
  lemma Atoms(table: seq<WireAtom>, signals: nat, e: CoreError)
    requires e.ResourceExceeded?
    ensures
      var atoms := Traverse(table, a => AtomFromWire(a, signals));
      && atoms != Failure(e) && (atoms.Success? ==> |atoms.value| == |table|)
      && (atoms.Success? <==> forall i :: 0 <= i < |table| ==> AtomAcceptable(table[i], signals))
  {
    FirstRefusal(table, a => AtomFromWire(a, signals), e);
    forall a
      ensures AtomFromWire(a, signals) != Failure(e) && (AtomFromWire(a, signals).Success? <==> AtomAcceptable(a, signals))
    {}
    hide Traverse, AtomFromWire, AtomAcceptable;
  }

  lemma Bounds(scalarBounds: seq<WireBound>, table: nat, e: CoreError)
    requires e.ResourceExceeded?
    ensures
      var bounds := Traverse(scalarBounds, b => BoundFromWire(b, table));
      && bounds != Failure(e)
      && (bounds.Success? <==> forall i :: 0 <= i < |scalarBounds| ==> BoundAcceptable(scalarBounds[i], table))
  {
    FirstRefusal(scalarBounds, b => BoundFromWire(b, table), e);
    forall b
      ensures BoundFromWire(b, table) != Failure(e) && (BoundFromWire(b, table).Success? <==> BoundAcceptable(b, table))
    {}
    hide Traverse, BoundFromWire, BoundAcceptable;
  }

  lemma KeepOuts(p: WireModel, e: CoreError)
    requires e.ResourceExceeded?
    ensures
      var terms := Traverse(p.keepOutTerms, TermFromWire);
      && terms != Failure(e) && (terms.Success? ==> SharedDim(terms.value, None) != Failure(e))
      && (terms.Success? && SharedDim(terms.value, None).Success? <==> exists d: nat :: ShareDimension(p, d))
  {
    var terms := Traverse(p.keepOutTerms, TermFromWire);
    FirstRefusal(p.keepOutTerms, TermFromWire, e);
    forall t ensures TermFromWire(t) != Failure(e) {}
    if terms.Success? {
      DimRefusal(terms.value, None);
    }
    var q := p.(safePose := None);
    SpaceDecodesIff(q);
    forall d: nat ensures SpaceAcceptable(q, d) <==> ShareDimension(p, d) {}
    hide Traverse, SharedDim, TermFromWire, ShareDimension, SpaceAcceptable;
  }

  lemma {:induction false} DimRefusal(terms: seq<KeepOutTerm>, seen: Option<nat>)
    ensures SharedDim(terms, seen).Failure? ==> SharedDim(terms, seen).error.Structure?
  {
    if terms != [] && GeometryDim(terms[0]).Success? {
      DimRefusal(terms[1..], Some(GeometryDim(terms[0]).value));
    }
  }

  /** Nor is a later one. */
  lemma LaterParts(p: WireModel, e: CoreError)
    requires e.ResourceExceeded?
    ensures forall dim :: PoseFromWire(p.safePose, dim) != Failure(e)
    ensures LimitsFromWire(p.actionLimits) != Failure(e)
    ensures Traverse(p.resourceBounds, n => ToUsize(n, "resource bound")) != Failure(e)
  {
    FirstRefusal(p.resourceBounds, n => ToUsize(n, "resource bound"), e);
    hide Traverse;
  }

  // ---- A foreign word -----------------------------------------------------------------------

  /** The payload writes the word s where the vocabulary of this field belongs. */
  ghost predicate Writes(p: WireModel, field: string, s: string) {
    match field
    case "PredicateOp" => p.table.Some? && exists i :: 0 <= i < |p.table.value.atoms| && p.table.value.atoms[i].op == s
    case "GeometryKind" => exists i :: 0 <= i < |p.keepOutTerms| && p.keepOutTerms[i].shape == s
    case "TemporalOp" =>
      exists i :: 0 <= i < |p.monitors| && p.monitors[i].root.Some? && OperatorIn(p.monitors[i].root.value, s)
    case "OnUncertain" =>
      || (exists i :: 0 <= i < |p.scalarBounds| && p.scalarBounds[i].onUncertain == s)
      || (exists i :: 0 <= i < |p.keepOutTerms| && p.keepOutTerms[i].onUncertain == s)
      || (exists i :: 0 <= i < |p.monitors| && p.monitors[i].onUncertain == s)
    case _ => false
  }

  /** The words a field may hold. */
  function WordsOf(field: string): set<string> {
    match field
    case "PredicateOp" => {"lt", "le", "gt", "ge"}
    case "GeometryKind" => {"box", "sphere", "half_space"}
    case "TemporalOp" => {"predicate", "not", "and", "or", "always", "eventually", "until"}
    case "OnUncertain" => {"fallback", "hold", "safe_state"}
    case _ => {}
  }

  /** A word is refused, by itself and under its field's name, exactly when the field may
      not hold it. */
  lemma WordsAreRefusedIff(s: string)
    ensures ParsePredicateOp(s) == Failure(Vocabulary("PredicateOp", s)) <==> s !in WordsOf("PredicateOp")
    ensures ParseOnUncertain(s) == Failure(Vocabulary("OnUncertain", s)) <==> s !in WordsOf("OnUncertain")
    ensures ParseShape(s) == Failure(Vocabulary("GeometryKind", s)) <==> s !in WordsOf("GeometryKind")
    ensures ParseTemporalOp(s) == Failure(Vocabulary("TemporalOp", s)) <==> s !in WordsOf("TemporalOp")
  {}

  /** A foreign word is what an atom is refused for once its numbers are sound, a bound at
      once, a keep-out once its frame is, the recovery before the shape, a monitor once
      its tree and window are, and a node at once. */
  lemma ForeignWordRefuses(
    a: WireAtom, signals: nat, b: WireBound, t: WireTerm, m: WireMonitor, atoms: nat, cap: nat, w: WireNode)
    ensures AtomFromWire(a, signals) == Failure(Vocabulary("PredicateOp", a.op)) <==>
      0 <= a.signalIndex < signals && a.threshold.Finite? && a.op !in WordsOf("PredicateOp")
    ensures BoundFromWire(b, atoms) == Failure(Vocabulary("OnUncertain", b.onUncertain)) <==>
      b.onUncertain !in WordsOf("OnUncertain")
    ensures TermFromWire(t) == Failure(Vocabulary("OnUncertain", t.onUncertain)) <==>
      FrameIsAcceptable(t.frameRef) && t.onUncertain !in WordsOf("OnUncertain")
    ensures TermFromWire(t) == Failure(Vocabulary("GeometryKind", t.shape)) <==>
      FrameIsAcceptable(t.frameRef) && t.onUncertain in WordsOf("OnUncertain") && t.shape !in WordsOf("GeometryKind")
    ensures MonitorFromWire(m, atoms, cap) == Failure(Vocabulary("OnUncertain", m.onUncertain)) <==>
      && m.root.Some? && TreeIsAcceptable(m.root.value) && 0 <= m.historyWindowLen <= cap
      && m.onUncertain !in WordsOf("OnUncertain")
    ensures NodeFromWire(w) == Failure(Vocabulary("TemporalOp", w.op)) <== w.op !in WordsOf("TemporalOp")
  {
    FrameOkIff(t.frameRef);
    MonitorForeignIff(m, atoms, cap);
    hide MonitorFromWire, TreeIsAcceptable, FrameOk, FrameIsAcceptable, NodesFromWire;
  }

  lemma MonitorForeignIff(m: WireMonitor, atoms: nat, cap: nat)
    ensures MonitorFromWire(m, atoms, cap) == Failure(Vocabulary("OnUncertain", m.onUncertain)) <==>
      && m.root.Some? && TreeIsAcceptable(m.root.value) && 0 <= m.historyWindowLen <= cap
      && m.onUncertain !in WordsOf("OnUncertain")
  {
    if m.root.Some? {
      TreeRefusal(m.root.value);
      TreeDecodesIff(m.root.value);
    }
    FirstRefusal(m.predicateIndices, i => CheckAtom(i, atoms), Vocabulary("OnUncertain", m.onUncertain));
    hide NodeFromWire, Traverse, TreeIsAcceptable;
  }

  /** A refused word is one the payload writes in that field and the field may not hold. */
  lemma ForeignWordIsNamed(p: WireModel, cap: nat, field: string, s: string)
    requires FromWire(p, cap) == Failure(Vocabulary(field, s))
    ensures Writes(p, field, s) && s !in WordsOf(field)
  {
    var e := Vocabulary(field, s);
    assert p.table.Some?;
    var signals, table := |p.table.value.signals|, p.table.value.atoms;
    var atoms, bounds := Traverse(table, a => AtomFromWire(a, signals)), Traverse(p.scalarBounds, b => BoundFromWire(b, |table|));
    var terms := Traverse(p.keepOutTerms, TermFromWire);
    var monitors := Traverse(p.monitors, m => MonitorFromWire(m, |table|, cap));
    assert atoms == Failure(e) || bounds == Failure(e) || terms == Failure(e) || monitors == Failure(e) by {
      LaterWords(p, e);
      hide Traverse, SharedDim, MonitorFromWire, PoseFromWire, LimitsFromWire, NamesGiven, AtomFromWire, BoundFromWire,
        TermFromWire, Writes, WordsOf;
    }
    ForeignInAtoms(p, signals, e);
    ForeignInBounds(p, |table|, e);
    ForeignInTerms(p, e);
    ForeignInMonitors(p, |table|, cap, e);
  }

  lemma ForeignInAtoms(p: WireModel, signals: nat, e: CoreError)
    requires p.table.Some? && e.Vocabulary?
    ensures Traverse(p.table.value.atoms, a => AtomFromWire(a, signals)) == Failure(e) ==>
      Writes(p, e.field, e.value) && e.value !in WordsOf(e.field)
  {
    FirstRefusal(p.table.value.atoms, a => AtomFromWire(a, signals), e);
    hide Traverse;
  }

  lemma ForeignInBounds(p: WireModel, atoms: nat, e: CoreError)
    requires e.Vocabulary?
    ensures Traverse(p.scalarBounds, b => BoundFromWire(b, atoms)) == Failure(e) ==>
      Writes(p, e.field, e.value) && e.value !in WordsOf(e.field)
  {
    FirstRefusal(p.scalarBounds, b => BoundFromWire(b, atoms), e);
    hide Traverse;
  }

  lemma ForeignInTerms(p: WireModel, e: CoreError)
    requires e.Vocabulary?
    ensures Traverse(p.keepOutTerms, TermFromWire) == Failure(e) ==>
      Writes(p, e.field, e.value) && e.value !in WordsOf(e.field)
  {
    FirstRefusal(p.keepOutTerms, TermFromWire, e);
    hide Traverse;
  }

  lemma ForeignInMonitors(p: WireModel, atoms: nat, cap: nat, e: CoreError)
    requires e.Vocabulary?
    ensures Traverse(p.monitors, m => MonitorFromWire(m, atoms, cap)) == Failure(e) ==>
      Writes(p, e.field, e.value) && e.value !in WordsOf(e.field)
  {
    FirstRefusal(p.monitors, m => MonitorFromWire(m, atoms, cap), e);
    forall m | MonitorFromWire(m, atoms, cap) == Failure(e)
      ensures (e.field == "OnUncertain" && e.value == m.onUncertain)
        || (e.field == "TemporalOp" && m.root.Some? && OperatorIn(m.root.value, e.value))
      ensures e.value !in WordsOf(e.field)
    {
      MonitorRefusal(m, atoms, cap, e);
    }
    hide Traverse, MonitorFromWire, OperatorIn, WordsOf;
  }

  lemma LaterWords(p: WireModel, e: CoreError)
    requires e.Vocabulary?
    ensures forall terms :: SharedDim(terms, None) != Failure(e)
    ensures forall dim :: PoseFromWire(p.safePose, dim) != Failure(e)
    ensures LimitsFromWire(p.actionLimits) != Failure(e)
    ensures Traverse(p.resourceBounds, n => ToUsize(n, "resource bound")) != Failure(e)
  {
    FirstRefusal(p.resourceBounds, n => ToUsize(n, "resource bound"), e);
    forall terms ensures SharedDim(terms, None) != Failure(e) {
      DimRefusal(terms, None);
    }
    hide Traverse, SharedDim;
  }

  lemma MonitorRefusal(m: WireMonitor, atoms: nat, cap: nat, e: CoreError)
    requires MonitorFromWire(m, atoms, cap) == Failure(e) && e.Vocabulary?
    ensures (e.field == "OnUncertain" && e.value == m.onUncertain)
      || (e.field == "TemporalOp" && m.root.Some? && OperatorIn(m.root.value, e.value))
    ensures e.value !in WordsOf(e.field)
  {
    if m.root.Some? {
      TreeRefusal(m.root.value);
    }
    FirstRefusal(m.predicateIndices, i => CheckAtom(i, atoms), e);
    hide NodeFromWire, Traverse, OperatorIn;
  }
}
