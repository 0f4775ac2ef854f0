/** The online monitors: ring buffers, the flattened post-order plan and its one
    forward pass per tick, proved to compute the trace semantics. */
module Monitors {
  import opened Wrappers
  import opened Numbers
  import opened TraceSemantics
  import opened TraceTheorems

  function Last<T>(s: seq<T>): T
    requires s != []
  {
    s[|s| - 1]
  }

  /** A fixed-capacity ring buffer of past robustness values. `pushed` is
      everything ever pushed; the buffer retains the last `cap` of it. */
  class RingBuf {
    const cap: nat
    const data: array<Ext>
    var head: nat
    var len: nat
    ghost var pushed: seq<Ext>

    ghost predicate Valid()
      reads this, data
    {
      && 0 < cap == data.Length && head < cap
      && len == (if |pushed| < cap then |pushed| else cap)
      && (len < cap ==> head == len)
      && forall k: nat :: k < len ==> data[Slot(head, cap, k)] == Ago(pushed, |pushed| - 1, k)
    }

    /** Where the value pushed k pushes ago is kept. */
    static function Slot(head: nat, cap: nat, k: nat): (i: nat)
      requires head < cap && k < cap
      ensures i < cap
    {
      if k < head then head - 1 - k else head + cap - 1 - k
    }

    constructor (capacity: nat)
      ensures Valid() && fresh(this) && fresh(data)
      ensures pushed == [] && cap == (if capacity < 1 then 1 else capacity)
    {
      cap := if capacity < 1 then 1 else capacity;
      data := new Ext[if capacity < 1 then 1 else capacity](_ => Fin(0.0));
      head := 0;
      len := 0;
      pushed := [];
    }

    method Push(v: Ext)
      requires Valid()
      modifies this, data
      ensures Valid() && pushed == old(pushed) + [v]
    {
      ghost var was, before := head, pushed;
      ghost var held := data[..];
      NextSlot(head, cap);
      data[head] := v;
      head := (head + 1) % cap;
      if len < cap {
        len := len + 1;
      }
      pushed := pushed + [v];
      forall k: nat | k < len
        ensures data[Slot(head, cap, k)] == Ago(pushed, |pushed| - 1, k)
      {
        if k > 0 {
          assert held[Slot(was, cap, k - 1)] == Ago(before, |before| - 1, k - 1);
        }
      }
    }

    static function Next(head: nat, cap: nat): (i: nat)
      requires head < cap
      ensures i < cap
    {
      if head + 1 == cap then 0 else head + 1
    }

    static lemma NextSlot(head: nat, cap: nat)
      requires head < cap
      ensures (head + 1) % cap == Next(head, cap)
      ensures forall k: nat :: 0 < k < cap ==> Slot(Next(head, cap), cap, k) == Slot(head, cap, k - 1) != head
    {}

    /** The value pushed k pushes ago, if it is still held: exactly the last `cap`
        pushes are. */
    method At(k: nat) returns (v: Option<Ext>)
      requires Valid()
      ensures v == if k < |pushed| && k < cap then Some(Ago(pushed, |pushed| - 1, k)) else None
    {
      if k >= len {
        v := None;
      } else {
        var idx := (head + cap - 1 - k) % cap;
        WrapsToSlot(head, cap, k);
        v := Some(data[idx]);
      }
    }

    static lemma WrapsToSlot(head: nat, cap: nat, k: nat)
      requires head < cap && k < cap
      ensures (head + cap - 1 - k) % cap == Slot(head, cap, k)
    {
      var x := head + cap - 1 - k;
      if k < head {
        WrapOnce(x, cap);
      }
    }

    static lemma WrapOnce(x: nat, cap: nat)
      requires 0 < cap <= x < 2 * cap
      ensures x % cap == x - cap
    {
      assert x == 1 * cap + (x - cap);
    }
  }

  /** One node of the evaluation plan. */
  class NodeEval {
    const op: TemporalOp
    const children: seq<nat>
    const predicateIndex: Option<nat>
    const lo: nat
    const hi: nat
    const bufA: RingBuf
    const bufB: RingBuf
    var cur: Ext
    ghost const formula: Formula

    constructor (f: Formula, kids: seq<nat>)
      requires |kids| == |f.args|
      ensures Reflects() && formula == f && children == kids
      ensures fresh(Repr()) && OwnsItsBuffers()
      ensures IsBlank()
    {
      op := f.op;
      children := kids;
      predicateIndex := f.predicateIndex;
      lo := f.Lo();
      hi := f.Hi();
      var a := new RingBuf(f.Hi() + 1);
      var b := new RingBuf(f.Hi() + 1);
      bufA := a;
      bufB := b;
      cur := Fin(0.0);
      formula := f;
    }

    ghost predicate Reflects() {
      && op == formula.op && predicateIndex == formula.predicateIndex
      && lo == formula.Lo() && hi == formula.Hi() && |children| == |formula.args|
    }

    ghost function Repr(): set<object> {
      {this, bufA, bufA.data, bufB, bufB.data}
    }

    ghost predicate IsBlank()
      reads Repr()
    {
      && bufA.Valid() && bufB.Valid() && bufA.pushed == bufB.pushed == []
      && bufA.cap == bufB.cap == hi + 1
    }

    ghost predicate OwnsItsBuffers() {
      bufA != bufB && bufA.data != bufB.data
    }

    /** The buffers hold the histories of the operands on tr, and `cur` is the
        robustness at its last tick. */
    ghost predicate InStep(tr: Trace, n: nat)
      requires Evaluable(formula, n) && TraceOf(tr, n)
      reads Repr()
    {
      && BuffersHold(tr, n)
      && (tr != [] ==> cur == Last(History(formula, tr, n)))
    }

    ghost predicate BuffersHold(tr: Trace, n: nat)
      requires Evaluable(formula, n) && TraceOf(tr, n)
      reads Repr()
    {
      && bufA.Valid() && bufB.Valid()
      && bufA.cap == bufB.cap == formula.Hi() + 1
      && (formula.op.Always? || formula.op.Eventually? || formula.op.Until?
          ==> bufA.pushed == History(formula.args[0], tr, n))
      && (formula.op.Until? ==> bufB.pushed == History(formula.args[1], tr, n))
    }
  }

  /** A plan in post-order: every node mirrors its formula, its children come
      before it and mirror its arguments, and no two nodes share storage. */
  ghost predicate Plan(nodes: seq<NodeEval>, n: nat) {
    && Reflecting(nodes, n)
    && (forall i, c :: 0 <= i < |nodes| && 0 <= c < |nodes[i].children| ==>
        && nodes[i].children[c] < i
        && nodes[nodes[i].children[c]].formula == nodes[i].formula.args[c])
    && forall i, j :: 0 <= i < |nodes| && 0 <= j < |nodes| && i != j ==> nodes[i].Repr() !! nodes[j].Repr()
  }

  ghost predicate Reflecting(nodes: seq<NodeEval>, n: nat) {
    forall i :: 0 <= i < |nodes| ==>
      nodes[i].Reflects() && nodes[i].OwnsItsBuffers() && Evaluable(nodes[i].formula, n)
  }

  lemma PlanAppend(plan: seq<NodeEval>, node: NodeEval, n: nat)
    requires Plan(plan, n) && node.Reflects() && node.OwnsItsBuffers() && Evaluable(node.formula, n)
    requires forall c :: 0 <= c < |node.children| ==>
      node.children[c] < |plan| && plan[node.children[c]].formula == node.formula.args[c]
    requires forall i :: 0 <= i < |plan| ==> plan[i].Repr() !! node.Repr()
    ensures Plan(plan + [node], n)
  {
    var all := plan + [node];
    forall i, c | 0 <= i < |all| && 0 <= c < |all[i].children|
      ensures all[i].children[c] < i && all[all[i].children[c]].formula == all[i].formula.args[c]
    {}
  }

  ghost function StorageOf(plan: seq<NodeEval>): set<object> {
    set i, o | 0 <= i < |plan| && o in plan[i].Repr() :: o
  }

  /** No node has seen a tick yet. */
  ghost predicate Blank(plan: seq<NodeEval>)
    reads StorageOf(plan)
  {
    forall i :: 0 <= i < |plan| ==> plan[i].IsBlank()
  }

  lemma HistoryGrows(f: Formula, tr: Trace, v: seq<Ext>, n: nat)
    requires Evaluable(f, n) && TraceOf(tr, n) && |v| == n
    ensures TraceOf(tr + [v], n)
    ensures History(f, tr + [v], n) == History(f, tr, n) + [Last(History(f, tr + [v], n))]
  {
    HistoryIsCausal(f, tr, v, n);
    var h := History(f, tr + [v], n);
    assert h == h[..|tr|] + [Last(h)];
  }

  /** A node's value this tick: from the leaf's atom, its children's values, or
      the histories a and b of its operands up to and including this tick. */
  function NodeValue(op: TemporalOp, lo: nat, hi: nat, leaf: Ext, kids: seq<Ext>, a: seq<Ext>, b: seq<Ext>): Ext
    requires op.Not? ==> kids != []
    requires op.Always? || op.Eventually? ==> a != []
    requires op.Until? ==> |a| == |b| > 0
  {
    match op
    case Predicate => leaf
    case Not => Neg(kids[0])
    case And => FoldMin(kids)
    case Or => FoldMax(kids)
    case Always => WindowMin(a, |a| - 1, lo, hi + 1)
    case Eventually => WindowMax(a, |a| - 1, lo, hi + 1)
    case Until => UntilMax(a, b, |a| - 1, lo, hi + 1)
  }

  lemma NodeValueIsRobustness(f: Formula, tr: Trace, n: nat, leaf: Ext, kids: seq<Ext>, a: seq<Ext>, b: seq<Ext>)
    requires Evaluable(f, n) && TraceOf(tr, n) && tr != []
    requires f.op.Predicate? ==> leaf == Last(tr)[f.predicateIndex.value]
    requires |kids| == |f.args|
    requires forall c :: 0 <= c < |kids| ==> kids[c] == Last(History(f.args[c], tr, n))
    requires f.op.Always? || f.op.Eventually? || f.op.Until? ==> a == History(f.args[0], tr, n)
    requires f.op.Until? ==> b == History(f.args[1], tr, n)
    ensures NodeValue(f.op, f.Lo(), f.Hi(), leaf, kids, a, b) == Last(History(f, tr, n))
  {
    hide FoldMin, FoldMax, WindowMin, WindowMax, UntilMax;
    var t := |tr| - 1;
    if f.op.And? || f.op.Or? {
      assert kids == Column(Histories(f.args, tr, n), t);
    }
  }

  /** Append the plan of f to `out`; its root is the last node appended. */
  method Flatten(f: Formula, out: seq<NodeEval>, ghost n: nat) returns (plan: seq<NodeEval>, idx: nat)
    requires Evaluable(f, n) && Plan(out, n) && Blank(out)
    ensures Plan(plan, n) && Blank(plan) && |out| < |plan| && out == plan[..|out|]
    ensures idx == |plan| - 1 && plan[idx].formula == f
    ensures forall i :: |out| <= i < |plan| ==> fresh(plan[i].Repr())
    decreases f
  {
    hide Plan, NodeEval.IsBlank, History;
    plan := out;
    var children: seq<nat> := [];
    for c := 0 to |f.args|
      invariant |children| == c
      invariant Plan(plan, n) && Blank(plan) && |out| <= |plan| && out == plan[..|out|]
      invariant forall k :: 0 <= k < c ==> children[k] < |plan| && plan[children[k]].formula == f.args[k]
      invariant forall i :: |out| <= i < |plan| ==> fresh(plan[i].Repr())
    {
      ghost var before := plan;
      var child: nat;
      plan, child := Flatten(f.args[c], plan, n);
      assert forall i :: 0 <= i < |before| ==> plan[i] == before[i];
      children := children + [child];
    }
    idx := |plan|;
    var node := new NodeEval(f, children);
    PlanAppend(plan, node, n);
    plan := plan + [node];
  }

  /** The plan of f on its own, in step with the empty trace. */
  method BuildPlan(f: Formula, ghost n: nat) returns (plan: seq<NodeEval>, top: nat)
    requires Evaluable(f, n)
    ensures Plan(plan, n) && top < |plan| && plan[top].formula == f && fresh(StorageOf(plan))
    ensures Reflecting(plan, n) && forall i :: 0 <= i < |plan| ==> plan[i].InStep([], n)
  {
    hide NodeEval.InStep, NodeEval.IsBlank, History, Evaluable;
    plan, top := Flatten(f, [], n);
    BlankPlanIsInStep(plan, n);
  }

  lemma BlankPlanIsInStep(plan: seq<NodeEval>, n: nat)
    requires Reflecting(plan, n) && Blank(plan)
    ensures forall i :: 0 <= i < |plan| ==> plan[i].InStep([], n)
  {
    hide NodeEval.InStep, Evaluable;
    forall i | 0 <= i < |plan| ensures plan[i].InStep([], n) {
      BlankIsInStep(plan[i], n);
    }
  }

  lemma BlankIsInStep(node: NodeEval, n: nat)
    requires node.IsBlank() && node.Reflects() && Evaluable(node.formula, n)
    ensures node.InStep([], n)
  {
    forall c | 0 <= c < |node.formula.args| ensures History(node.formula.args[c], [], n) == [] {}
  }

  /** The verdict of one monitor at one tick. */
  datatype MonitorVerdict = MonitorVerdict(
    robustness: Ext, violated: bool, predicted: bool, timeToViolation: Option<real>)
  {
    predicate Fired() { violated || predicted }
  }

  /** Ticks until the robustness trend crosses zero, if the clause holds and its
      margin shrinks. Falling from +inf to a real is an infinitely steep slope. */
  function Trend(prev: Option<Ext>, r: Ext): Option<real> {
    match (prev, r)
    case (Some(Fin(p)), Fin(x)) => if 0.0 <= x < p then Some(x / (p - x)) else None
    case (Some(PosInf), Fin(x)) => if 0.0 <= x then Some(0.0) else None
    case _ => None
  }

  function VerdictOf(prev: Option<Ext>, r: Ext, horizon: nat): MonitorVerdict {
    var samples := Trend(prev, r);
    MonitorVerdict(r, Negative(r), samples.Some? && samples.value <= horizon as real, samples)
  }

  /** The verdict a clause deserves after a whole trace. */
  function VerdictAfter(f: Formula, tr: Trace, n: nat, horizon: nat): MonitorVerdict
    requires Evaluable(f, n) && TraceOf(tr, n) && tr != []
  {
    var h := History(f, tr, n);
    VerdictOf(if |tr| == 1 then None else Some(h[|h| - 2]), Last(h), horizon)
  }

  /** What a verdict reports: the root as it is, whether it is lost, and in how many
      ticks a straight line loses it, if it is held and shrinking; the prediction is
      that those ticks are within the horizon. */
  lemma VerdictReports(prev: Option<Ext>, r: Ext, horizon: nat)
    ensures
      var v := VerdictOf(prev, r, horizon);
      && v.robustness == r && (v.violated <==> r.NegInf? || (r.Fin? && r.v < 0.0))
      && (v.timeToViolation.Some? <==>
          && r.Fin? && r.v >= 0.0 && prev.Some?
          && (prev.value.PosInf? || (prev.value.Fin? && r.v < prev.value.v)))
      && (v.timeToViolation.Some? && prev.value.Fin? ==> v.timeToViolation.value * (prev.value.v - r.v) == r.v)
      && (v.timeToViolation.Some? && prev.value.PosInf? ==> v.timeToViolation.value == 0.0)
      && (v.predicted <==> v.timeToViolation.Some? && v.timeToViolation.value <= horizon as real)
  {}

  /** From root p to root x in one tick, going on in a straight line, the clause is
      lost within the horizon. */
  predicate LostWithin(p: real, x: real, horizon: nat) {
    x < p && x + horizon as real * (x - p) <= 0.0
  }

  /** Whatever this and the previous root are, a monitor fires iff the clause is
      violated, or its margin shrank between two reals and is lost within the horizon,
      or it fell from plus infinity to any real; it never fires on its first tick, or
      on a margin that grew, unless the clause is violated. */
  lemma FiredIff(prev: Option<Ext>, r: Ext, horizon: nat)
    ensures VerdictOf(prev, r, horizon).Fired() <==>
      || Negative(r)
      || (prev.Some? && prev.value.Fin? && r.Fin? && LostWithin(prev.value.v, r.v, horizon))
      || (prev.Some? && prev.value.PosInf? && r.Fin?)
  {
    match (prev, r)
    case (Some(Fin(p)), Fin(x)) => FiredIffExtrapolationFails(p, x, horizon);
    case _ =>
  }

  lemma FiredIffExtrapolationFails(p: real, x: real, horizon: nat)
    ensures VerdictOf(Some(Fin(p)), Fin(x), horizon).Fired() <==> x < 0.0 || LostWithin(p, x, horizon)
  {
    if x < p {
      Crossing(x, p - x, horizon as real);
    }
  }

  lemma Crossing(x: real, drop: real, g: real)
    requires drop > 0.0
    ensures x / drop <= g <==> x + g * -drop <= 0.0
  {
    var s := x / drop;
    assert s * drop == x;
    SignOfProduct(g - s, drop);
    assert (g - s) * drop == g * drop - x;
    assert g * -drop == -(g * drop);
  }

  lemma SignOfProduct(x: real, drop: real)
    requires drop > 0.0
    ensures x >= 0.0 <==> x * drop >= 0.0
  {}

  /** Leaving an empty window is read as a fall: a monitor whose root goes from
      +inf to any satisfied real value fires, however large that value is. */
  lemma LeavingVacuityFires(x: real, horizon: nat)
    requires x >= 0.0
    ensures VerdictOf(Some(PosInf), Fin(x), horizon).Fired()
    ensures !VerdictOf(Some(PosInf), Fin(x), horizon).violated
  {}

  /** The online state of one compiled monitor. `trace` is every tick it was
      advanced over. */
  class Monitor {
    const nodes: seq<NodeEval>
    const root: nat
    var prevRoot: Option<Ext>
    ghost const formula: Formula
    ghost const n: nat
    ghost const repr: set<object>
    ghost var trace: Trace

    constructor (f: Formula, ghost atoms: nat)
      requires Evaluable(f, atoms)
      ensures Valid() && fresh(repr) && trace == [] && formula == f && n == atoms
    {
      hide Plan, NodeEval.InStep, History, WellFormed, LeavesBelow;
      var plan, top := BuildPlan(f, atoms);
      hide StorageOf;
      nodes := plan;
      root := top;
      prevRoot := None;
      formula := f;
      n := atoms;
      repr := {this} + StorageOf(plan);
      trace := [];
      new;
      assert Static() && TraceOf(trace, n);
    }

    ghost function NodeRepr(): set<object> {
      StorageOf(nodes)
    }

    lemma NodeReprIsPart(i: nat)
      requires i < |nodes|
      ensures nodes[i].Repr() <= NodeRepr()
    {}

    ghost predicate Static() {
      && Plan(nodes, n) && Evaluable(formula, n)
      && root < |nodes| && nodes[root].formula == formula
      && this !in NodeRepr() && repr == {this} + NodeRepr()
    }

    ghost predicate Valid()
      reads this, repr
    {
      && Static() && TraceOf(trace, n)
      && (forall i :: 0 <= i < |nodes| ==> nodes[i].InStep(trace, n))
      && prevRoot == if trace == [] then None else Some(Last(History(formula, trace, n)))
    }

    /** Advance by one tick, given the robustness of every atom. */
    method Step(v: seq<Ext>, horizon: nat) returns (verdict: MonitorVerdict)
      requires Valid() && |v| == n
      modifies repr
      ensures Valid() && trace == old(trace) + [v]
      ensures verdict == VerdictAfter(formula, trace, n, horizon)
    {
      hide History, WellFormed, LeavesBelow, Plan, NodeEval.InStep;
      EvalAll(v, trace);
      RootIsCurrent(trace + [v]);
      var robustness := nodes[root].cur;
      var violated := Negative(robustness);
      var samples: Option<real> := None;
      var predicted := false;
      if prevRoot.Some? {
        samples := Trend(prevRoot, robustness);
        predicted := samples.Some? && samples.value <= horizon as real;
      }
      HistoryGrows(formula, trace, v, n);
      forall i | 0 <= i < |nodes| ensures this !in nodes[i].Repr() {
        NodeReprIsPart(i);
      }
      prevRoot := Some(robustness);
      trace := trace + [v];
      verdict := MonitorVerdict(robustness, violated, predicted, samples);
    }

    lemma RootIsCurrent(tr: Trace)
      requires Static() && TraceOf(tr, n) && tr != [] && nodes[root].InStep(tr, n)
      ensures nodes[root].cur == Last(History(formula, tr, n))
    {}

    /** The forward pass: every node after its children. */
    method EvalAll(v: seq<Ext>, ghost tr: Trace)
      requires Static() && |v| == n && TraceOf(tr, n)
      requires forall i :: 0 <= i < |nodes| ==> nodes[i].InStep(tr, n)
      modifies NodeRepr()
      ensures TraceOf(tr + [v], n)
      ensures forall i :: 0 <= i < |nodes| ==> nodes[i].InStep(tr + [v], n)
    {
      hide History, NodeEval.InStep, LeavesBelow, WellFormed, StorageOf;
      ghost var tr' := tr + [v];
      for i := 0 to |nodes|
        invariant TraceOf(tr', n)
        invariant forall j :: 0 <= j < i ==> nodes[j].InStep(tr', n)
        invariant forall j :: i <= j < |nodes| ==> nodes[j].InStep(tr, n)
      {
        NodeReprIsPart(i);
        StepNode(i, v, tr);
      }
    }

    /** Nodes below i already carry their value at the last tick of tr. */
    ghost predicate CurrentBelow(i: nat, tr: Trace)
      requires Static() && i <= |nodes| && TraceOf(tr, n) && tr != []
      reads nodes
    {
      forall j :: 0 <= j < i ==> nodes[j].cur == Last(History(nodes[j].formula, tr, n))
    }

    lemma ChildrenExtend(i: nat, v: seq<Ext>, tr: Trace)
      requires Static() && i < |nodes| && |v| == n && TraceOf(tr, n) && TraceOf(tr + [v], n)
      requires CurrentBelow(i, tr + [v])
      ensures CanEval(i, n)
      ensures
        var fs := nodes[i].formula.args;
        && |ChildValues(i)| == |fs|
        && (forall c :: 0 <= c < |fs| ==> ChildValues(i)[c] == Last(History(fs[c], tr + [v], n)))
        && forall c :: 0 <= c < |fs| ==>
            History(fs[c], tr + [v], n) == History(fs[c], tr, n) + [ChildValues(i)[c]]
    {
      var node := nodes[i];
      forall c | 0 <= c < |node.formula.args|
        ensures ChildValues(i)[c] == Last(History(node.formula.args[c], tr + [v], n))
        ensures History(node.formula.args[c], tr + [v], n) == History(node.formula.args[c], tr, n) + [ChildValues(i)[c]]
      {
        HistoryGrows(node.formula.args[c], tr, v, n);
        assert nodes[node.children[c]].cur == Last(History(nodes[node.children[c]].formula, tr + [v], n));
      }
    }

    method StepNode(i: nat, v: seq<Ext>, ghost tr: Trace)
      requires Static() && i < |nodes| && |v| == n && TraceOf(tr, n) && TraceOf(tr + [v], n)
      requires nodes[i].InStep(tr, n)
      requires forall j :: 0 <= j < i ==> nodes[j].InStep(tr + [v], n)
      modifies nodes[i].Repr()
      ensures nodes[i].InStep(tr + [v], n)
    {
      hide History, WellFormed, LeavesBelow, NodeValue;
      ghost var kids := ChildValues(i);
      BelowIsCurrent(i, tr + [v]);
      ChildrenExtend(i, v, tr);
      HoldsBuffers(i, tr);
      var cur := EvalNode(i, v);
      nodes[i].cur := cur;
      NowInStep(i, tr + [v], kids, if nodes[i].op.Predicate? then v[nodes[i].predicateIndex.value] else cur);
    }

    /** What InStep says of the node's buffers. */
    lemma HoldsBuffers(i: nat, tr: Trace)
      requires Static() && i < |nodes| && TraceOf(tr, n) && nodes[i].InStep(tr, n)
      ensures
        var node := nodes[i];
        && node.bufA.Valid() && node.bufB.Valid() && node.bufA.cap == node.bufB.cap == node.hi + 1
        && (node.op.Always? || node.op.Eventually? || node.op.Until? ==>
            |node.formula.args| > 0 && node.bufA.pushed == History(node.formula.args[0], tr, n))
        && (node.op.Until? ==>
            |node.formula.args| > 1 && node.bufB.pushed == History(node.formula.args[1], tr, n))
    {
      hide History;
    }

    /** A node whose buffers hold its operands' histories and whose value is its
        operator's on them is in step. */
    lemma NowInStep(i: nat, tr: Trace, kids: seq<Ext>, leaf: Ext)
      requires Static() && i < |nodes| && TraceOf(tr, n) && tr != []
      requires
        var node, f := nodes[i], nodes[i].formula;
        && node.bufA.Valid() && node.bufB.Valid() && node.bufA.cap == node.bufB.cap == node.hi + 1
        && |kids| == |f.args| && (forall c :: 0 <= c < |kids| ==> kids[c] == Last(History(f.args[c], tr, n)))
        && (f.op.Predicate? ==> leaf == Last(tr)[f.predicateIndex.value])
        && (f.op.Always? || f.op.Eventually? || f.op.Until? ==> node.bufA.pushed == History(f.args[0], tr, n))
        && (f.op.Until? ==> node.bufB.pushed == History(f.args[1], tr, n))
        && node.cur == NodeValue(node.op, node.lo, node.hi, leaf, kids, node.bufA.pushed, node.bufB.pushed)
      ensures nodes[i].InStep(tr, n)
    {
      hide History, NodeValue;
      var node, f := nodes[i], nodes[i].formula;
      NodeValueIsRobustness(f, tr, n, leaf, kids, node.bufA.pushed, node.bufB.pushed);
    }

    lemma BelowIsCurrent(i: nat, tr: Trace)
      requires Static() && i <= |nodes| && TraceOf(tr, n) && tr != []
      requires forall j :: 0 <= j < i ==> nodes[j].InStep(tr, n)
      ensures CurrentBelow(i, tr)
    {}

    /** Node i has the children and the atom its operator reads. */
    ghost predicate CanEval(i: nat, atoms: nat) {
      && i < |nodes| && nodes[i].OwnsItsBuffers()
      && (forall c :: 0 <= c < |nodes[i].children| ==> nodes[i].children[c] < |nodes|)
      && (nodes[i].op.Predicate? ==> nodes[i].predicateIndex.Some? && nodes[i].predicateIndex.value < atoms)
      && (nodes[i].op.Not? || nodes[i].op.Always? || nodes[i].op.Eventually? ==> |nodes[i].children| == 1)
      && (nodes[i].op.Until? ==> |nodes[i].children| == 2)
    }

    /** One node's value this tick, from the values its children already have. */
    method EvalNode(i: nat, v: seq<Ext>) returns (r: Ext)
      requires CanEval(i, |v|)
      requires nodes[i].bufA.Valid() && nodes[i].bufB.Valid()
      requires nodes[i].bufA.cap == nodes[i].bufB.cap == nodes[i].hi + 1
      requires nodes[i].op.Until? ==> |nodes[i].bufA.pushed| == |nodes[i].bufB.pushed|
      modifies nodes[i].bufA, nodes[i].bufA.data, nodes[i].bufB, nodes[i].bufB.data
      ensures nodes[i].bufA.Valid() && nodes[i].bufB.Valid()
      ensures
        var node, kids := nodes[i], old(ChildValues(i));
        && node.bufA.pushed == old(node.bufA.pushed)
            + (if node.op.Always? || node.op.Eventually? || node.op.Until? then [kids[0]] else [])
        && node.bufB.pushed == old(node.bufB.pushed) + (if node.op.Until? then [kids[1]] else [])
        && r == NodeValue(node.op, node.lo, node.hi,
            if node.op.Predicate? then v[node.predicateIndex.value] else r, kids, node.bufA.pushed, node.bufB.pushed)
    {
      var node := nodes[i];
      match node.op {
        case Predicate =>
          r := v[node.predicateIndex.value];
        case Not =>
          r := Neg(nodes[node.children[0]].cur);
        case And =>
          r := ReduceChildren(i, true);
        case Or =>
          r := ReduceChildren(i, false);
        case Always =>
          r := EvalWindow(i, true);
        case Eventually =>
          r := EvalWindow(i, false);
        case Until =>
          r := EvalUntil(i);
      }
    }

    method EvalWindow(i: nat, isMin: bool) returns (r: Ext)
      requires i < |nodes| && nodes[i].OwnsItsBuffers() && nodes[i].bufA.Valid() && nodes[i].bufB.Valid()
      requires |nodes[i].children| == 1 && nodes[i].children[0] < |nodes|
      requires nodes[i].bufA.cap == nodes[i].hi + 1
      modifies nodes[i].bufA, nodes[i].bufA.data
      ensures nodes[i].bufA.Valid() && nodes[i].bufB.Valid() && nodes[i].bufB.pushed == old(nodes[i].bufB.pushed)
      ensures
        var h := nodes[i].bufA.pushed;
        && h == old(nodes[i].bufA.pushed) + [nodes[nodes[i].children[0]].cur]
        && r == if isMin then WindowMin(h, |h| - 1, nodes[i].lo, nodes[i].hi + 1)
                else WindowMax(h, |h| - 1, nodes[i].lo, nodes[i].hi + 1)
    {
      nodes[i].bufA.Push(nodes[nodes[i].children[0]].cur);
      r := WindowReduce(i, isMin);
    }

    method EvalUntil(i: nat) returns (r: Ext)
      requires i < |nodes| && nodes[i].OwnsItsBuffers() && nodes[i].bufA.Valid() && nodes[i].bufB.Valid()
      requires |nodes[i].children| == 2 && nodes[i].children[0] < |nodes| && nodes[i].children[1] < |nodes|
      requires nodes[i].bufA.cap == nodes[i].bufB.cap == nodes[i].hi + 1
      requires |nodes[i].bufA.pushed| == |nodes[i].bufB.pushed|
      modifies nodes[i].bufA, nodes[i].bufA.data, nodes[i].bufB, nodes[i].bufB.data
      ensures nodes[i].bufA.Valid() && nodes[i].bufB.Valid()
      ensures
        var a, b := nodes[i].bufA.pushed, nodes[i].bufB.pushed;
        && a == old(nodes[i].bufA.pushed) + [nodes[nodes[i].children[0]].cur]
        && b == old(nodes[i].bufB.pushed) + [nodes[nodes[i].children[1]].cur]
        && r == UntilMax(a, b, |a| - 1, nodes[i].lo, nodes[i].hi + 1)
    {
      nodes[i].bufA.Push(nodes[nodes[i].children[0]].cur);
      nodes[i].bufB.Push(nodes[nodes[i].children[1]].cur);
      r := UntilReduce(i);
    }

    method ReduceChildren(i: nat, isMin: bool) returns (acc: Ext)
      requires i < |nodes| && forall c :: 0 <= c < |nodes[i].children| ==> nodes[i].children[c] < |nodes|
      ensures acc == if isMin then FoldMin(ChildValues(i)) else FoldMax(ChildValues(i))
    {
      var kids := nodes[i].children;
      ghost var values := ChildValues(i);
      acc := if isMin then PosInf else NegInf;
      for c := 0 to |kids|
        invariant acc == if isMin then FoldMin(values[..c]) else FoldMax(values[..c])
      {
        var x := nodes[kids[c]].cur;
        assert values[..c + 1][..c] == values[..c];
        acc := if isMin then Min(acc, x) else Max(acc, x);
      }
      assert values[..|kids|] == values;
    }

    ghost function ChildValues(i: nat): (xs: seq<Ext>)
      requires i < |nodes| && forall c :: 0 <= c < |nodes[i].children| ==> nodes[i].children[c] < |nodes|
      reads nodes
      ensures |xs| == |nodes[i].children|
    {
      seq(|nodes[i].children|, c requires 0 <= c < |nodes[i].children|
        reads nodes => nodes[nodes[i].children[c]].cur)
    }

    /** Bounded past-time `always` (least) or `eventually` (greatest). */
    method WindowReduce(i: nat, isMin: bool) returns (r: Ext)
      requires i < |nodes| && nodes[i].bufA.Valid() && nodes[i].bufA.pushed != []
      requires nodes[i].bufA.cap == nodes[i].hi + 1
      ensures
        var h := nodes[i].bufA.pushed;
        r == if isMin then WindowMin(h, |h| - 1, nodes[i].lo, nodes[i].hi + 1)
             else WindowMax(h, |h| - 1, nodes[i].lo, nodes[i].hi + 1)
    {
      var node := nodes[i];
      ghost var h := node.bufA.pushed;
      var acc := if isMin then PosInf else NegInf;
      var any := false;
      var k := node.lo;
      while k <= node.hi
        invariant acc == if isMin then WindowMin(h, |h| - 1, node.lo, k) else WindowMax(h, |h| - 1, node.lo, k)
        invariant !any ==> acc == if isMin then PosInf else NegInf
        invariant node.lo <= k && (k <= node.hi + 1 || k == node.lo)
      {
        var v := node.bufA.At(k);
        if v.Some? {
          any := true;
          acc := if isMin then Min(acc, v.value) else Max(acc, v.value);
        }
        k := k + 1;
      }
      if any {
        r := acc;
      } else if isMin {
        r := PosInf;
      } else {
        r := NegInf;
      }
    }

    /** Bounded past-time `until`, keeping the running minimum of phi. */
    method UntilReduce(i: nat) returns (best: Ext)
      requires i < |nodes| && nodes[i].bufA.Valid() && nodes[i].bufB.Valid()
      requires |nodes[i].bufA.pushed| == |nodes[i].bufB.pushed| > 0
      requires nodes[i].bufA.cap == nodes[i].bufB.cap == nodes[i].hi + 1
      ensures
        var a, b := nodes[i].bufA.pushed, nodes[i].bufB.pushed;
        best == UntilMax(a, b, |a| - 1, nodes[i].lo, nodes[i].hi + 1)
    {
      var node := nodes[i];
      ghost var a, b := node.bufA.pushed, node.bufB.pushed;
      best := NegInf;
      var phiRun := PosInf;
      for k := 0 to node.hi + 1
        invariant best == UntilMax(a, b, |a| - 1, node.lo, k)
        invariant phiRun == WindowMin(a, |a| - 1, 0, k)
      {
        if k >= node.lo {
          var psi := node.bufB.At(k);
          if psi.Some? {
            best := Max(best, Min(psi.value, phiRun));
          }
        }
        var phi := node.bufA.At(k);
        if phi.Some? {
          phiRun := Min(phiRun, phi.value);
        }
      }
    }
  }
}
