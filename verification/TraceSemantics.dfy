/** What a temporal clause means on a whole trace: bounded past-time robust
    semantics, stated on histories and independent of any ring buffer. */
module TraceSemantics {
  import opened Wrappers
  import opened Numbers

  datatype TemporalOp = Predicate | Not | And | Or | Always | Eventually | Until

  /** A compiled temporal clause (`CompiledNode`). */
  datatype Formula = Formula(
    op: TemporalOp,
    predicateIndex: Option<nat>,
    loSamples: Option<nat>,
    hiSamples: Option<nat>,
    args: seq<Formula>)
  {
    function Lo(): nat { if loSamples.Some? then loSamples.value else 0 }

    function Hi(): nat { if hiSamples.Some? then hiSamples.value else 0 }

    predicate HasInterval() {
      loSamples.Some? && hiSamples.Some? && loSamples.value <= hiSamples.value
    }

    /** The arity and interval demands on this one node. */
    predicate NodeOk() {
      match op
      case Predicate => predicateIndex.Some? && args == []
      case Not => |args| == 1
      case And => args != []
      case Or => args != []
      case Always => |args| == 1 && HasInterval()
      case Eventually => |args| == 1 && HasInterval()
      case Until => |args| == 2 && HasInterval()
    }
  }

  /** Every node of the tree meets its arity and interval demands. */
  predicate WellFormed(f: Formula) {
    f.NodeOk() && forall i :: 0 <= i < |f.args| ==> WellFormed(f.args[i])
  }

  /** Every leaf names one of the first n atoms. */
  predicate LeavesBelow(f: Formula, n: nat) {
    && (f.op.Predicate? && f.predicateIndex.Some? ==> f.predicateIndex.value < n)
    && forall i :: 0 <= i < |f.args| ==> LeavesBelow(f.args[i], n)
  }

  predicate Evaluable(f: Formula, n: nat) {
    WellFormed(f) && LeavesBelow(f, n)
  }

  /** A trace holds, tick by tick, the robustness of each of the n atoms. */
  type Trace = seq<seq<Ext>>

  predicate TraceOf(tr: Trace, n: nat) {
    forall t :: 0 <= t < |tr| ==> |tr[t]| == n
  }

  // ---- Folds over one tick and over a window of past ticks -----------------

  function FoldMin(xs: seq<Ext>): Ext {
    if xs == [] then PosInf else Min(FoldMin(xs[..|xs| - 1]), xs[|xs| - 1])
  }

  function FoldMax(xs: seq<Ext>): Ext {
    if xs == [] then NegInf else Max(FoldMax(xs[..|xs| - 1]), xs[|xs| - 1])
  }

  /** The entry k ticks before tick t. */
  function Ago<T>(h: seq<T>, t: nat, k: nat): T
    requires k <= t < |h|
  {
    h[t - k]
  }

  /** The least of h[t-k] for lo <= k < end among the ticks that exist. */
  function WindowMin(h: seq<Ext>, t: nat, lo: nat, end: nat): Ext
    requires t < |h|
  {
    if end <= lo then PosInf
    else if end - 1 <= t then Min(WindowMin(h, t, lo, end - 1), Ago(h, t, end - 1))
    else WindowMin(h, t, lo, end - 1)
  }

  function WindowMax(h: seq<Ext>, t: nat, lo: nat, end: nat): Ext
    requires t < |h|
  {
    if end <= lo then NegInf
    else if end - 1 <= t then Max(WindowMax(h, t, lo, end - 1), Ago(h, t, end - 1))
    else WindowMax(h, t, lo, end - 1)
  }

  /** What `psi at t-k, and phi at each of the k most recent ticks` is worth. */
  function Witness(phi: seq<Ext>, psi: seq<Ext>, t: nat, k: nat): Ext
    requires t < |phi| && t < |psi| && k <= t
  {
    Min(Ago(psi, t, k), WindowMin(phi, t, 0, k))
  }

  function UntilMax(phi: seq<Ext>, psi: seq<Ext>, t: nat, lo: nat, end: nat): Ext
    requires t < |phi| && t < |psi|
  {
    if end <= lo then NegInf
    else if end - 1 <= t then Max(UntilMax(phi, psi, t, lo, end - 1), Witness(phi, psi, t, end - 1))
    else UntilMax(phi, psi, t, lo, end - 1)
  }

  /** The robustness of f at every tick of the trace. */
  function History(f: Formula, tr: Trace, n: nat): (h: seq<Ext>)
    requires Evaluable(f, n) && TraceOf(tr, n)
    ensures |h| == |tr|
    decreases f
  {
    match f.op
    case Predicate => seq(|tr|, t requires 0 <= t < |tr| => tr[t][f.predicateIndex.value])
    case Not =>
      var a := History(f.args[0], tr, n);
      seq(|tr|, t requires 0 <= t < |tr| => Neg(a[t]))
    case And =>
      var hs := Histories(f.args, tr, n);
      seq(|tr|, t requires 0 <= t < |tr| => FoldMin(Column(hs, t)))
    case Or =>
      var hs := Histories(f.args, tr, n);
      seq(|tr|, t requires 0 <= t < |tr| => FoldMax(Column(hs, t)))
    case Always =>
      var a := History(f.args[0], tr, n);
      seq(|tr|, t requires 0 <= t < |tr| => WindowMin(a, t, f.Lo(), f.Hi() + 1))
    case Eventually =>
      var a := History(f.args[0], tr, n);
      seq(|tr|, t requires 0 <= t < |tr| => WindowMax(a, t, f.Lo(), f.Hi() + 1))
    case Until =>
      var a := History(f.args[0], tr, n);
      var b := History(f.args[1], tr, n);
      seq(|tr|, t requires 0 <= t < |tr| => UntilMax(a, b, t, f.Lo(), f.Hi() + 1))
  }

  function Histories(fs: seq<Formula>, tr: Trace, n: nat): (hs: seq<seq<Ext>>)
    requires TraceOf(tr, n) && forall i :: 0 <= i < |fs| ==> Evaluable(fs[i], n)
    ensures |hs| == |fs|
    ensures forall i :: 0 <= i < |hs| ==> hs[i] == History(fs[i], tr, n)
    decreases fs
  {
    seq(|fs|, i requires 0 <= i < |fs| => History(fs[i], tr, n))
  }

  function Column<T>(hs: seq<seq<T>>, t: nat): (c: seq<T>)
    requires forall i :: 0 <= i < |hs| ==> t < |hs[i]|
    ensures |c| == |hs|
  {
    seq(|hs|, i requires 0 <= i < |hs| => hs[i][t])
  }
}
