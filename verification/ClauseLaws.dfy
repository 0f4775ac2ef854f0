/** What each operator of a clause is worth, exactly: the values of the whole clause in
    terms of the values of its arguments, and the laws between the operators. */
module ClauseLaws {
  import opened Wrappers
  import opened Numbers
  import opened TraceSemantics
  import opened TraceTheorems

  /** a is not above b on the real line with both infinities. */
  predicate Below(a: Ext, b: Ext) {
    match (a, b)
    case (NegInf, _) => true
    case (_, PosInf) => true
    case (Fin(x), Fin(y)) => x <= y
    case _ => false
  }

  lemma LeIsBelow(a: Ext, b: Ext)
    ensures Le(a, b) <==> Below(a, b)
  {}

  /** The clauses of the theorems below. */
  function Negated(f: Formula): Formula { Formula(Not, None, None, None, [f]) }

  function Within(op: TemporalOp, lo: nat, hi: nat, args: seq<Formula>): Formula {
    Formula(op, None, Some(lo), Some(hi), args)
  }

  function Joined(op: TemporalOp, args: seq<Formula>): Formula { Formula(op, None, None, None, args) }

  // ---- Leaves and negation -----------------------------------------------------------

  lemma LeafValue(f: Formula, tr: Trace, n: nat, t: nat)
    requires Evaluable(f, n) && TraceOf(tr, n) && t < |tr| && f.op.Predicate?
    ensures f.predicateIndex.Some? && f.predicateIndex.value < n
    ensures History(f, tr, n)[t] == tr[t][f.predicateIndex.value]
  {}

  /** y is the arithmetic negation of x, the infinities exchanged. */
  predicate IsNegation(x: Ext, y: Ext) {
    match x
    case Fin(v) => y.Fin? && y.v + v == 0.0
    case NegInf => y.PosInf?
    case PosInf => y.NegInf?
  }

  lemma NotIsNegation(f: Formula, tr: Trace, n: nat, t: nat)
    requires Evaluable(f, n) && TraceOf(tr, n) && t < |tr| && f.op.Not?
    ensures IsNegation(History(f.args[0], tr, n)[t], History(f, tr, n)[t])
  {}

  lemma DoubleNegation(f: Formula, tr: Trace, n: nat)
    requires Evaluable(f, n) && TraceOf(tr, n)
    ensures Evaluable(Negated(Negated(f)), n) && History(Negated(Negated(f)), tr, n) == History(f, tr, n)
  {
    var h, once, twice := History(f, tr, n), Negated(f), Negated(Negated(f));
    assert once.args[0] == f && twice.args[0] == once;
    forall t: nat | t < |tr| ensures History(twice, tr, n)[t] == h[t] {
      assert History(once, tr, n)[t] == Neg(h[t]);
      assert History(twice, tr, n)[t] == Neg(History(once, tr, n)[t]);
    }
  }

  // ---- Conjunction and disjunction ----------------------------------------------------

  /** y is one of the arguments' values at t and not above (below) any of them. */
  ghost predicate IsLeastOfArgs(f: Formula, tr: Trace, n: nat, t: nat, y: Ext)
    requires Evaluable(f, n) && TraceOf(tr, n) && t < |tr|
  {
    && (exists i :: 0 <= i < |f.args| && y == History(f.args[i], tr, n)[t])
    && forall i :: 0 <= i < |f.args| ==> Below(y, History(f.args[i], tr, n)[t])
  }

  ghost predicate IsGreatestOfArgs(f: Formula, tr: Trace, n: nat, t: nat, y: Ext)
    requires Evaluable(f, n) && TraceOf(tr, n) && t < |tr|
  {
    && (exists i :: 0 <= i < |f.args| && y == History(f.args[i], tr, n)[t])
    && forall i :: 0 <= i < |f.args| ==> Below(History(f.args[i], tr, n)[t], y)
  }

  lemma AndIsLeast(f: Formula, tr: Trace, n: nat, t: nat)
    requires Evaluable(f, n) && TraceOf(tr, n) && t < |tr| && f.op.And?
    ensures IsLeastOfArgs(f, tr, n, t, History(f, tr, n)[t])
  {
    var c := Column(Histories(f.args, tr, n), t);
    assert forall i :: 0 <= i < |c| ==> c[i] == History(f.args[i], tr, n)[t];
    FoldMinIsLeast(c);
    LeastOfColumn(c);
  }

  lemma OrIsGreatest(f: Formula, tr: Trace, n: nat, t: nat)
    requires Evaluable(f, n) && TraceOf(tr, n) && t < |tr| && f.op.Or?
    ensures IsGreatestOfArgs(f, tr, n, t, History(f, tr, n)[t])
  {
    var c := Column(Histories(f.args, tr, n), t);
    assert forall i :: 0 <= i < |c| ==> c[i] == History(f.args[i], tr, n)[t];
    LeastOfColumn(c);
  }

  lemma LeastOfColumn(c: seq<Ext>)
    requires c != []
    ensures (exists i :: 0 <= i < |c| && FoldMin(c) == c[i]) && forall i :: 0 <= i < |c| ==> Below(FoldMin(c), c[i])
    ensures (exists i :: 0 <= i < |c| && FoldMax(c) == c[i]) && forall i :: 0 <= i < |c| ==> Below(c[i], FoldMax(c))
  {
    FoldMinIsLeast(c);
    FoldMaxIsGreatest(c);
    var s := iset x | x in c;
    assert c[0] in s;
    assert forall i :: 0 <= i < |c| ==> c[i] in s;
  }

  // ---- Windows ---------------------------------------------------------------------------

  /** Tick s is between lo and hi ticks before t. */
  predicate InReach(s: int, t: nat, lo: nat, hi: nat) { 0 <= s <= t && lo <= t - s <= hi }

  /** The least (greatest) value over the ticks in reach, attained; plus (minus)
      infinity if there are none. */
  ghost predicate IsLeastInReach(h: seq<Ext>, t: nat, lo: nat, hi: nat, y: Ext)
    requires t < |h|
  {
    && ((exists s :: InReach(s, t, lo, hi) && y == h[s]) || (y.PosInf? && forall s :: !InReach(s, t, lo, hi)))
    && forall s :: InReach(s, t, lo, hi) ==> Below(y, h[s])
  }

  ghost predicate IsGreatestInReach(h: seq<Ext>, t: nat, lo: nat, hi: nat, y: Ext)
    requires t < |h|
  {
    && ((exists s :: InReach(s, t, lo, hi) && y == h[s]) || (y.NegInf? && forall s :: !InReach(s, t, lo, hi)))
    && forall s :: InReach(s, t, lo, hi) ==> Below(h[s], y)
  }

  lemma WindowReaches(h: seq<Ext>, t: nat, lo: nat, hi: nat)
    requires t < |h| && lo <= hi
    ensures IsLeastInReach(h, t, lo, hi, WindowMin(h, t, lo, hi + 1))
    ensures IsGreatestInReach(h, t, lo, hi, WindowMax(h, t, lo, hi + 1))
  {
    var least, greatest, w := WindowMin(h, t, lo, hi + 1), WindowMax(h, t, lo, hi + 1), InWindow(h, t, lo, hi + 1);
    WindowMinIsLeast(h, t, lo, hi + 1);
    WindowMaxIsGreatest(h, t, lo, hi + 1);
    hide WindowMin, WindowMax;
    forall s | InReach(s, t, lo, hi) ensures h[s] in w && Below(least, h[s]) && Below(h[s], greatest) {
      var k: nat := t - s;
      assert Ago(h, t, k) in w;
    }
    if w != iset{} {
      var i: nat :| lo <= i < hi + 1 && i <= t && Ago(h, t, i) == least;
      var j: nat :| lo <= j < hi + 1 && j <= t && Ago(h, t, j) == greatest;
      assert InReach(t - i, t, lo, hi) && InReach(t - j, t, lo, hi);
    }
  }

  lemma AlwaysIsLeast(f: Formula, tr: Trace, n: nat, t: nat)
    requires Evaluable(f, n) && TraceOf(tr, n) && t < |tr| && f.op.Always?
    ensures f.loSamples.Some? && f.hiSamples.Some?
    ensures IsLeastInReach(History(f.args[0], tr, n), t, f.loSamples.value, f.hiSamples.value, History(f, tr, n)[t])
  {
    WindowReaches(History(f.args[0], tr, n), t, f.loSamples.value, f.hiSamples.value);
    hide WindowMin, IsLeastInReach, IsGreatestInReach;
  }

  lemma EventuallyIsGreatest(f: Formula, tr: Trace, n: nat, t: nat)
    requires Evaluable(f, n) && TraceOf(tr, n) && t < |tr| && f.op.Eventually?
    ensures f.loSamples.Some? && f.hiSamples.Some?
    ensures IsGreatestInReach(History(f.args[0], tr, n), t, f.loSamples.value, f.hiSamples.value, History(f, tr, n)[t])
  {
    WindowReaches(History(f.args[0], tr, n), t, f.loSamples.value, f.hiSamples.value);
    hide WindowMax, IsLeastInReach, IsGreatestInReach;
  }

  // ---- Until ------------------------------------------------------------------------------

  /** w is the least of psi at s and of phi at every tick after s up to t. */
  ghost predicate IsWitness(phi: seq<Ext>, psi: seq<Ext>, s: int, t: nat, w: Ext)
    requires 0 <= s <= t < |phi| && t < |psi|
  {
    && (w == psi[s] || exists r :: s < r <= t && w == phi[r])
    && Below(w, psi[s]) && forall r :: s < r <= t ==> Below(w, phi[r])
  }

  /** y is the greatest witness over the ticks in reach, minus infinity if none is. */
  ghost predicate IsGreatestWitness(phi: seq<Ext>, psi: seq<Ext>, t: nat, lo: nat, hi: nat, y: Ext)
    requires t < |phi| && t < |psi|
  {
    && ((exists s :: InReach(s, t, lo, hi) && IsWitness(phi, psi, s, t, y))
        || (y.NegInf? && forall s :: !InReach(s, t, lo, hi)))
    && forall s, w :: InReach(s, t, lo, hi) && IsWitness(phi, psi, s, t, w) ==> Below(w, y)
  }

  lemma WitnessIs(phi: seq<Ext>, psi: seq<Ext>, s: nat, t: nat)
    requires s <= t < |phi| && t < |psi|
    ensures IsWitness(phi, psi, s, t, Witness(phi, psi, t, t - s))
  {
    var k: nat := t - s;
    var w := Witness(phi, psi, t, k);
    var below := InWindow(phi, t, 0, k) + iset{psi[s]};
    assert Ago(psi, t, k) == psi[s];
    WitnessIsLeast(phi, psi, t, k);
    hide Witness;
    assert psi[s] in below;
    forall r | s < r <= t ensures Below(w, phi[r]) {
      var j: nat := t - r;
      assert Ago(phi, t, j) in below;
    }
    if w != psi[s] {
      var j: nat :| j < k && j <= t && Ago(phi, t, j) == w;
      var r := t - j;
      assert s < r <= t && w == phi[r];
    }
  }

  lemma WitnessIsUnique(phi: seq<Ext>, psi: seq<Ext>, s: int, t: nat, w: Ext, w': Ext)
    requires 0 <= s <= t < |phi| && t < |psi|
    requires IsWitness(phi, psi, s, t, w) && IsWitness(phi, psi, s, t, w')
    ensures w == w'
  {
    BelowBothWays(w, w');
  }

  lemma BelowBothWays(a: Ext, b: Ext)
    ensures Below(a, b) && Below(b, a) ==> a == b
  {}

  lemma UntilIsGreatestWitness(f: Formula, tr: Trace, n: nat, t: nat)
    requires Evaluable(f, n) && TraceOf(tr, n) && t < |tr| && f.op.Until?
    ensures f.loSamples.Some? && f.hiSamples.Some?
    ensures IsGreatestWitness(History(f.args[0], tr, n), History(f.args[1], tr, n), t,
      f.loSamples.value, f.hiSamples.value, History(f, tr, n)[t])
  {
    UntilReaches(History(f.args[0], tr, n), History(f.args[1], tr, n), t, f.loSamples.value, f.hiSamples.value);
    hide UntilMax, IsGreatestWitness;
  }

  lemma UntilReaches(phi: seq<Ext>, psi: seq<Ext>, t: nat, lo: nat, hi: nat)
    requires t < |phi| && t < |psi| && lo <= hi
    ensures IsGreatestWitness(phi, psi, t, lo, hi, UntilMax(phi, psi, t, lo, hi + 1))
  {
    var y, ws := UntilMax(phi, psi, t, lo, hi + 1), Witnesses(phi, psi, t, lo, hi + 1);
    UntilMaxIsGreatest(phi, psi, t, lo, hi + 1);
    hide UntilMax, Witness, IsWitness;
    forall s: int, w | InReach(s, t, lo, hi) && IsWitness(phi, psi, s, t, w) ensures Below(w, y) && w in ws {
      WitnessIs(phi, psi, s, t);
      var k: nat := t - s;
      assert Witness(phi, psi, t, k) in ws;
      WitnessIsUnique(phi, psi, s, t, w, Witness(phi, psi, t, k));
      LeIsBelow(w, y);
    }
    forall s | InReach(s, t, lo, hi) ensures ws != iset{} {
      var k: nat := t - s;
      assert Witness(phi, psi, t, k) in ws;
    }
    if ws != iset{} {
      var k: nat :| lo <= k < hi + 1 && k <= t && Witness(phi, psi, t, k) == y;
      var s: nat := t - k;
      WitnessIs(phi, psi, s, t);
      assert InReach(s, t, lo, hi) && IsWitness(phi, psi, s, t, y);
    }
  }

  // ---- Duality ------------------------------------------------------------------------------

  lemma NegSwaps(a: Ext, b: Ext)
    ensures Neg(Min(a, b)) == Max(Neg(a), Neg(b)) && Neg(Max(a, b)) == Min(Neg(a), Neg(b))
  {}

  lemma {:induction false} FoldsAreDual(c: seq<Ext>, d: seq<Ext>)
    requires |c| == |d| && forall i :: 0 <= i < |c| ==> d[i] == Neg(c[i])
    ensures Neg(FoldMin(c)) == FoldMax(d) && Neg(FoldMax(c)) == FoldMin(d)
  {
    hide Neg, Min, Max;
    if c == [] {
      NegOfInfinities();
    } else {
      var n: nat := |c| - 1;
      FoldsAreDual(c[..n], d[..n]);
      NegSwaps(FoldMin(c[..n]), c[n]);
      NegSwaps(FoldMax(c[..n]), c[n]);
    }
  }

  lemma NegOfInfinities()
    ensures Neg(PosInf) == NegInf && Neg(NegInf) == PosInf
  {}

  lemma {:induction false} WindowsAreDual(h: seq<Ext>, g: seq<Ext>, t: nat, lo: nat, end: nat)
    requires t < |h| == |g| && forall s :: 0 <= s < |h| ==> g[s] == Neg(h[s])
    ensures Neg(WindowMin(h, t, lo, end)) == WindowMax(g, t, lo, end)
    ensures Neg(WindowMax(h, t, lo, end)) == WindowMin(g, t, lo, end)
    decreases end
  {
    hide Neg, Min, Max;
    if end <= lo {
      NegOfInfinities();
    } else {
      WindowsAreDual(h, g, t, lo, end - 1);
      if end - 1 <= t {
        NegSwaps(WindowMin(h, t, lo, end - 1), Ago(h, t, end - 1));
        NegSwaps(WindowMax(h, t, lo, end - 1), Ago(h, t, end - 1));
      }
    }
  }

  function NegatedAll(fs: seq<Formula>): (gs: seq<Formula>)
    ensures |gs| == |fs| && forall i :: 0 <= i < |fs| ==> gs[i] == Negated(fs[i])
  {
    seq(|fs|, i requires 0 <= i < |fs| => Negated(fs[i]))
  }

  lemma NotHistory(f: Formula, tr: Trace, n: nat)
    requires Evaluable(f, n) && TraceOf(tr, n)
    ensures Evaluable(Negated(f), n)
    ensures forall t :: 0 <= t < |tr| ==> History(Negated(f), tr, n)[t] == Neg(History(f, tr, n)[t])
  {
    assert Negated(f).args[0] == f;
  }

  /** The negation of a conjunction is the disjunction of the negations, in value and
      not only in sign, and the other way round. */
  lemma DeMorgan(fs: seq<Formula>, tr: Trace, n: nat)
    requires fs != [] && TraceOf(tr, n) && forall i :: 0 <= i < |fs| ==> Evaluable(fs[i], n)
    ensures forall op: TemporalOp :: op.And? || op.Or? ==>
      Evaluable(Joined(op, fs), n) && Evaluable(Negated(Joined(op, fs)), n) && Evaluable(Joined(op, NegatedAll(fs)), n)
    ensures History(Negated(Joined(And, fs)), tr, n) == History(Joined(Or, NegatedAll(fs)), tr, n)
    ensures History(Negated(Joined(Or, fs)), tr, n) == History(Joined(And, NegatedAll(fs)), tr, n)
  {
    forall i | 0 <= i < |fs| ensures Evaluable(NegatedAll(fs)[i], n) {
      NotHistory(fs[i], tr, n);
    }
    NotHistory(Joined(And, fs), tr, n);
    NotHistory(Joined(Or, fs), tr, n);
    forall t: nat | t < |tr|
      ensures History(Negated(Joined(And, fs)), tr, n)[t] == History(Joined(Or, NegatedAll(fs)), tr, n)[t]
      ensures History(Negated(Joined(Or, fs)), tr, n)[t] == History(Joined(And, NegatedAll(fs)), tr, n)[t]
    {
      JoinedAt(fs, tr, n, t);
    }
  }

  lemma JoinedAt(fs: seq<Formula>, tr: Trace, n: nat, t: nat)
    requires TraceOf(tr, n) && t < |tr| && fs != [] && forall i :: 0 <= i < |fs| ==> Evaluable(fs[i], n)
    requires forall i :: 0 <= i < |fs| ==> Evaluable(NegatedAll(fs)[i], n)
    ensures forall op: TemporalOp :: op.And? || op.Or? ==>
      Evaluable(Joined(op, fs), n) && Evaluable(Joined(op, NegatedAll(fs)), n)
    ensures Neg(History(Joined(And, fs), tr, n)[t]) == History(Joined(Or, NegatedAll(fs)), tr, n)[t]
    ensures Neg(History(Joined(Or, fs), tr, n)[t]) == History(Joined(And, NegatedAll(fs)), tr, n)[t]
  {
    var c := Column(Histories(fs, tr, n), t);
    var d := Column(Histories(NegatedAll(fs), tr, n), t);
    forall i | 0 <= i < |fs| ensures d[i] == Neg(c[i]) {
      NotHistory(fs[i], tr, n);
    }
    FoldsAreDual(c, d);
    hide FoldMin, FoldMax, Neg;
  }

  lemma WithinHistory(op: TemporalOp, lo: nat, hi: nat, g: Formula, tr: Trace, n: nat)
    requires Evaluable(g, n) && TraceOf(tr, n) && lo <= hi && (op.Always? || op.Eventually?)
    ensures Evaluable(Within(op, lo, hi, [g]), n) && Evaluable(Negated(Within(op, lo, hi, [g])), n)
    ensures forall t :: 0 <= t < |tr| ==>
      History(Within(op, lo, hi, [g]), tr, n)[t]
      == if op.Always? then WindowMin(History(g, tr, n), t, lo, hi + 1) else WindowMax(History(g, tr, n), t, lo, hi + 1)
  {
    var f := Within(op, lo, hi, [g]);
    assert f.args[0] == g && |f.args| == 1;
    assert Evaluable(f, n);
    NotHistory(f, tr, n);
    hide WindowMin, WindowMax;
  }

  /** `not always` is `eventually not`, and the other way round, over every window. */
  lemma AlwaysIsDualToEventually(f: Formula, lo: nat, hi: nat, tr: Trace, n: nat)
    requires Evaluable(f, n) && TraceOf(tr, n) && lo <= hi
    ensures Evaluable(Negated(Within(Always, lo, hi, [f])), n) && Evaluable(Negated(Within(Eventually, lo, hi, [f])), n)
    ensures Evaluable(Within(Always, lo, hi, [Negated(f)]), n) && Evaluable(Within(Eventually, lo, hi, [Negated(f)]), n)
    ensures History(Negated(Within(Always, lo, hi, [f])), tr, n)
      == History(Within(Eventually, lo, hi, [Negated(f)]), tr, n)
    ensures History(Negated(Within(Eventually, lo, hi, [f])), tr, n)
      == History(Within(Always, lo, hi, [Negated(f)]), tr, n)
  {
    hide History, WindowMin, WindowMax, Neg, WellFormed, LeavesBelow, Evaluable;
    NotHistory(f, tr, n);
    var h, g := History(f, tr, n), History(Negated(f), tr, n);
    WithinHistory(Always, lo, hi, f, tr, n);
    WithinHistory(Eventually, lo, hi, f, tr, n);
    WithinHistory(Always, lo, hi, Negated(f), tr, n);
    WithinHistory(Eventually, lo, hi, Negated(f), tr, n);
    NotHistory(Within(Always, lo, hi, [f]), tr, n);
    NotHistory(Within(Eventually, lo, hi, [f]), tr, n);
    forall t: nat | t < |tr|
      ensures History(Negated(Within(Always, lo, hi, [f])), tr, n)[t]
        == History(Within(Eventually, lo, hi, [Negated(f)]), tr, n)[t]
      ensures History(Negated(Within(Eventually, lo, hi, [f])), tr, n)[t]
        == History(Within(Always, lo, hi, [Negated(f)]), tr, n)[t]
    {
      WindowsAreDual(h, g, t, lo, hi + 1);
    }
  }
}
