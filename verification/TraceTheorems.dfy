/** What trace robustness is worth: its value in terms of least and greatest
    elements, its continuity and finite memory, and its soundness for the Boolean
    reading of the clause. */
module TraceTheorems {
  import opened Numbers
  import opened TraceSemantics

  // ---- The folds are the extremes of the sets they range over --------------

  ghost predicate IsLeast(r: Ext, s: iset<Ext>) {
    (forall x <- s :: Le(r, x)) && (if s == iset{} then r == PosInf else r in s)
  }

  ghost predicate IsGreatest(r: Ext, s: iset<Ext>) {
    (forall x <- s :: Le(x, r)) && (if s == iset{} then r == NegInf else r in s)
  }

  ghost function InWindow(h: seq<Ext>, t: nat, lo: nat, end: nat): iset<Ext>
    requires t < |h|
  {
    iset k: nat | lo <= k < end && k <= t :: Ago(h, t, k)
  }

  ghost function Witnesses(phi: seq<Ext>, psi: seq<Ext>, t: nat, lo: nat, end: nat): iset<Ext>
    requires t < |phi| && t < |psi|
  {
    iset k: nat | lo <= k < end && k <= t :: Witness(phi, psi, t, k)
  }

  lemma LeastAdd(r: Ext, s: iset<Ext>, x: Ext)
    requires IsLeast(r, s)
    ensures IsLeast(Min(r, x), s + iset{x})
  {
    assert x in s + iset{x};
  }

  lemma GreatestAdd(r: Ext, s: iset<Ext>, x: Ext)
    requires IsGreatest(r, s)
    ensures IsGreatest(Max(r, x), s + iset{x})
  {
    assert x in s + iset{x};
  }

  lemma {:induction false} WindowMinIsLeast(h: seq<Ext>, t: nat, lo: nat, end: nat)
    requires t < |h|
    ensures IsLeast(WindowMin(h, t, lo, end), InWindow(h, t, lo, end))
    decreases end
  {
    if end <= lo {
      assert InWindow(h, t, lo, end) == iset{};
    } else {
      WindowMinIsLeast(h, t, lo, end - 1);
      if end - 1 <= t {
        LeastAdd(WindowMin(h, t, lo, end - 1), InWindow(h, t, lo, end - 1), Ago(h, t, end - 1));
        assert InWindow(h, t, lo, end) == InWindow(h, t, lo, end - 1) + iset{Ago(h, t, end - 1)};
      } else {
        assert InWindow(h, t, lo, end) == InWindow(h, t, lo, end - 1);
      }
    }
  }

  lemma {:induction false} WindowMaxIsGreatest(h: seq<Ext>, t: nat, lo: nat, end: nat)
    requires t < |h|
    ensures IsGreatest(WindowMax(h, t, lo, end), InWindow(h, t, lo, end))
    decreases end
  {
    if end <= lo {
      assert InWindow(h, t, lo, end) == iset{};
    } else {
      WindowMaxIsGreatest(h, t, lo, end - 1);
      if end - 1 <= t {
        GreatestAdd(WindowMax(h, t, lo, end - 1), InWindow(h, t, lo, end - 1), Ago(h, t, end - 1));
        assert InWindow(h, t, lo, end) == InWindow(h, t, lo, end - 1) + iset{Ago(h, t, end - 1)};
      } else {
        assert InWindow(h, t, lo, end) == InWindow(h, t, lo, end - 1);
      }
    }
  }

  lemma WitnessIsLeast(phi: seq<Ext>, psi: seq<Ext>, t: nat, k: nat)
    requires t < |phi| && t < |psi| && k <= t
    ensures IsLeast(Witness(phi, psi, t, k), InWindow(phi, t, 0, k) + iset{Ago(psi, t, k)})
  {
    WindowMinIsLeast(phi, t, 0, k);
    LeastAdd(WindowMin(phi, t, 0, k), InWindow(phi, t, 0, k), Ago(psi, t, k));
  }

  /** `until` is the greatest witness over k in the window, a witness being the
      least of psi at t-k and phi at the k most recent ticks (WitnessIsLeast). */
  lemma {:induction false} UntilMaxIsGreatest(phi: seq<Ext>, psi: seq<Ext>, t: nat, lo: nat, end: nat)
    requires t < |phi| && t < |psi|
    ensures IsGreatest(UntilMax(phi, psi, t, lo, end), Witnesses(phi, psi, t, lo, end))
    decreases end
  {
    if end <= lo {
      assert Witnesses(phi, psi, t, lo, end) == iset{};
    } else {
      UntilMaxIsGreatest(phi, psi, t, lo, end - 1);
      if end - 1 <= t {
        var w := Witness(phi, psi, t, end - 1);
        GreatestAdd(UntilMax(phi, psi, t, lo, end - 1), Witnesses(phi, psi, t, lo, end - 1), w);
        assert Witnesses(phi, psi, t, lo, end) == Witnesses(phi, psi, t, lo, end - 1) + iset{w};
      } else {
        assert Witnesses(phi, psi, t, lo, end) == Witnesses(phi, psi, t, lo, end - 1);
      }
    }
  }

  lemma {:induction false} FoldMinIsLeast(xs: seq<Ext>)
    ensures IsLeast(FoldMin(xs), iset x | x in xs)
  {
    if xs == [] {
      assert (iset x | x in xs) == iset{};
    } else {
      var ys, y := xs[..|xs| - 1], xs[|xs| - 1];
      assert xs == ys + [y];
      FoldMinIsLeast(ys);
      LeastAdd(FoldMin(ys), (iset x | x in ys), y);
      assert (iset x | x in xs) == (iset x | x in ys) + iset{y};
    }
  }

  lemma {:induction false} FoldMaxIsGreatest(xs: seq<Ext>)
    ensures IsGreatest(FoldMax(xs), iset x | x in xs)
  {
    if xs == [] {
      assert (iset x | x in xs) == iset{};
    } else {
      var ys, y := xs[..|xs| - 1], xs[|xs| - 1];
      assert xs == ys + [y];
      FoldMaxIsGreatest(ys);
      GreatestAdd(FoldMax(ys), (iset x | x in ys), y);
      assert (iset x | x in xs) == (iset x | x in ys) + iset{y};
    }
  }

  // ---- Continuity, causality and finite memory -----------------------------

  /** How many past ticks the clause can look back on: `hi` summed along the
      deepest temporal nesting. */
  function Memory(f: Formula): nat {
    (if f.op.Always? || f.op.Eventually? || f.op.Until? then f.Hi() else 0) + MemoryOfArgs(f.args)
  }

  function MemoryOfArgs(fs: seq<Formula>): (d: nat)
    ensures forall i :: 0 <= i < |fs| ==> Memory(fs[i]) <= d
  {
    if fs == [] then 0
    else
      var d := MemoryOfArgs(fs[..|fs| - 1]);
      var e := Memory(fs[|fs| - 1]);
      assert forall i :: 0 <= i < |fs| - 1 ==> fs[i] == fs[..|fs| - 1][i];
      if d < e then e else d
  }

  /** Every atom within delta of its counterpart. */
  predicate TickClose(delta: real, v: seq<Ext>, w: seq<Ext>) {
    |v| == |w| && forall i :: 0 <= i < |v| ==> Close(delta, v[i], w[i])
  }

  /** The last d+1 ticks up to t1 in one trace and up to t2 in the other exist
      alike and differ by at most delta in every atom. */
  ghost predicate RecentClose(tr1: Trace, t1: nat, tr2: Trace, t2: nat, d: nat, delta: real)
    requires t1 < |tr1| && t2 < |tr2|
  {
    && (t1 == t2 || (t1 >= d && t2 >= d))
    && forall k: nat :: k <= d && k <= t1 ==> TickClose(delta, Ago(tr1, t1, k), Ago(tr2, t2, k))
  }

  /** The same for two histories, on a window of `end` ticks. */
  ghost predicate WindowClose(h1: seq<Ext>, t1: nat, h2: seq<Ext>, t2: nat, end: nat, delta: real)
    requires t1 < |h1| && t2 < |h2|
  {
    && (t1 == t2 || (t1 + 1 >= end && t2 + 1 >= end))
    && forall k: nat :: k < end && k <= t1 ==> Close(delta, Ago(h1, t1, k), Ago(h2, t2, k))
  }

  lemma {:induction false} WindowFoldsClose(
    h1: seq<Ext>, t1: nat, h2: seq<Ext>, t2: nat, lo: nat, end: nat, delta: real)
    requires t1 < |h1| && t2 < |h2| && delta >= 0.0
    requires WindowClose(h1, t1, h2, t2, end, delta)
    ensures Close(delta, WindowMin(h1, t1, lo, end), WindowMin(h2, t2, lo, end))
    ensures Close(delta, WindowMax(h1, t1, lo, end), WindowMax(h2, t2, lo, end))
    decreases end
  {
    if end > lo {
      WindowFoldsClose(h1, t1, h2, t2, lo, end - 1, delta);
    }
  }

  lemma {:induction false} UntilClose(
    a1: seq<Ext>, b1: seq<Ext>, t1: nat, a2: seq<Ext>, b2: seq<Ext>, t2: nat, lo: nat, end: nat, delta: real)
    requires t1 < |a1| && t1 < |b1| && t2 < |a2| && t2 < |b2| && delta >= 0.0
    requires WindowClose(a1, t1, a2, t2, end, delta)
    requires WindowClose(b1, t1, b2, t2, end, delta)
    ensures Close(delta, UntilMax(a1, b1, t1, lo, end), UntilMax(a2, b2, t2, lo, end))
    decreases end
  {
    hide WindowMin, Close;
    if end <= lo {
      SameIsClose(delta, NegInf);
    } else {
      var k: nat := end - 1;
      UntilClose(a1, b1, t1, a2, b2, t2, lo, k, delta);
      if k <= t1 {
        WitnessClose(a1, b1, t1, a2, b2, t2, k, delta);
        MaxClose(delta, UntilMax(a1, b1, t1, lo, k), UntilMax(a2, b2, t2, lo, k), Witness(a1, b1, t1, k),
          Witness(a2, b2, t2, k));
      }
    }
  }

  lemma WitnessClose(
    a1: seq<Ext>, b1: seq<Ext>, t1: nat, a2: seq<Ext>, b2: seq<Ext>, t2: nat, k: nat, delta: real)
    requires t1 < |a1| && t1 < |b1| && t2 < |a2| && t2 < |b2| && delta >= 0.0 && k <= t1
    requires WindowClose(a1, t1, a2, t2, k + 1, delta) && WindowClose(b1, t1, b2, t2, k + 1, delta)
    ensures k <= t2 && Close(delta, Witness(a1, b1, t1, k), Witness(a2, b2, t2, k))
  {
    hide WindowMin;
    WindowFoldsClose(a1, t1, a2, t2, 0, k, delta);
    assert Close(delta, Ago(b1, t1, k), Ago(b2, t2, k));
  }

  lemma SameIsClose(delta: real, x: Ext)
    requires delta >= 0.0
    ensures Close(delta, x, x)
  {}

  lemma MaxClose(delta: real, x: Ext, x': Ext, y: Ext, y': Ext)
    requires delta >= 0.0 && Close(delta, x, x') && Close(delta, y, y')
    ensures Close(delta, Max(x, y), Max(x', y'))
  {}

  lemma {:induction false} FoldsClose(xs: seq<Ext>, ys: seq<Ext>, delta: real)
    requires delta >= 0.0 && TickClose(delta, xs, ys)
    ensures Close(delta, FoldMin(xs), FoldMin(ys))
    ensures Close(delta, FoldMax(xs), FoldMax(ys))
  {
    if xs != [] {
      FoldsClose(xs[..|xs| - 1], ys[..|ys| - 1], delta);
    }
  }

  lemma RecentCloseShift(tr1: Trace, t1: nat, tr2: Trace, t2: nat, d: nat, e: nat, k: nat, delta: real)
    requires t1 < |tr1| && t2 < |tr2| && RecentClose(tr1, t1, tr2, t2, d, delta)
    requires k + e <= d && k <= t1
    ensures k <= t2 && RecentClose(tr1, t1 - k, tr2, t2 - k, e, delta)
  {
    var u1: nat, u2: nat := t1 - k, t2 - k;
    forall j: nat | j <= e && j <= u1
      ensures TickClose(delta, Ago(tr1, u1, j), Ago(tr2, u2, j))
    {
      assert Ago(tr1, u1, j) == Ago(tr1, t1, k + j) && Ago(tr2, u2, j) == Ago(tr2, t2, k + j);
    }
  }

  /** The children's histories are close on the whole window of their parent. */
  lemma {:induction false} ChildWindowClose(
    f: Formula, hi: nat, d: nat, tr1: Trace, t1: nat, tr2: Trace, t2: nat, n: nat, delta: real)
    requires Evaluable(f, n) && TraceOf(tr1, n) && TraceOf(tr2, n) && t1 < |tr1| && t2 < |tr2|
    requires delta >= 0.0 && RecentClose(tr1, t1, tr2, t2, d, delta) && hi + Memory(f) <= d
    ensures WindowClose(History(f, tr1, n), t1, History(f, tr2, n), t2, hi + 1, delta)
    decreases f, 1
  {
    forall k: nat | k < hi + 1 && k <= t1
      ensures k <= t2 && Close(delta, Ago(History(f, tr1, n), t1, k), Ago(History(f, tr2, n), t2, k))
    {
      RecentCloseShift(tr1, t1, tr2, t2, d, Memory(f), k, delta);
      RobustnessIsAMargin(f, tr1, t1 - k, tr2, t2 - k, n, delta);
    }
  }

  /** If every atom changes by at most delta on the last Memory(f)+1 ticks, f's
      robustness is the same infinity or changes by at most delta, whatever the two
      traces hold before those ticks. */
  lemma {:induction false} RobustnessIsAMargin(
    f: Formula, tr1: Trace, t1: nat, tr2: Trace, t2: nat, n: nat, delta: real)
    requires Evaluable(f, n) && TraceOf(tr1, n) && TraceOf(tr2, n) && t1 < |tr1| && t2 < |tr2|
    requires delta >= 0.0 && RecentClose(tr1, t1, tr2, t2, Memory(f), delta)
    ensures Close(delta, History(f, tr1, n)[t1], History(f, tr2, n)[t2])
    decreases f, 0
  {
    hide FoldMin, FoldMax, WindowMin, WindowMax, UntilMax;
    var d := Memory(f);
    match f.op
    case Predicate =>
      assert Ago(tr1, t1, 0) == tr1[t1] && Ago(tr2, t2, 0) == tr2[t2];
    case Not =>
      RecentCloseShift(tr1, t1, tr2, t2, d, Memory(f.args[0]), 0, delta);
      RobustnessIsAMargin(f.args[0], tr1, t1, tr2, t2, n, delta);
    case And =>
      ArgsClose(f.args, d, tr1, t1, tr2, t2, n, delta);
    case Or =>
      ArgsClose(f.args, d, tr1, t1, tr2, t2, n, delta);
    case _ =>
      TemporalClose(f, tr1, t1, tr2, t2, n, delta);
  }

  lemma {:induction false} TemporalClose(
    f: Formula, tr1: Trace, t1: nat, tr2: Trace, t2: nat, n: nat, delta: real)
    requires Evaluable(f, n) && TraceOf(tr1, n) && TraceOf(tr2, n) && t1 < |tr1| && t2 < |tr2|
    requires delta >= 0.0 && RecentClose(tr1, t1, tr2, t2, Memory(f), delta)
    requires f.op.Always? || f.op.Eventually? || f.op.Until?
    ensures Close(delta, History(f, tr1, n)[t1], History(f, tr2, n)[t2])
    decreases f.args, 2
  {
    hide FoldMin, FoldMax, WindowMin, WindowMax, UntilMax;
    var d, end := Memory(f), f.Hi() + 1;
    var a1, a2 := History(f.args[0], tr1, n), History(f.args[0], tr2, n);
    ChildWindowClose(f.args[0], f.Hi(), d, tr1, t1, tr2, t2, n, delta);
    if f.op.Until? {
      ChildWindowClose(f.args[1], f.Hi(), d, tr1, t1, tr2, t2, n, delta);
      UntilClose(a1, History(f.args[1], tr1, n), t1, a2, History(f.args[1], tr2, n), t2, f.Lo(), end, delta);
    } else {
      WindowFoldsClose(a1, t1, a2, t2, f.Lo(), end, delta);
    }
  }

  lemma {:induction false} ArgsClose(
    fs: seq<Formula>, d: nat, tr1: Trace, t1: nat, tr2: Trace, t2: nat, n: nat, delta: real)
    requires forall i :: 0 <= i < |fs| ==> Evaluable(fs[i], n) && Memory(fs[i]) <= d
    requires TraceOf(tr1, n) && TraceOf(tr2, n) && t1 < |tr1| && t2 < |tr2|
    requires delta >= 0.0 && RecentClose(tr1, t1, tr2, t2, d, delta)
    ensures
      var c1 := Column(Histories(fs, tr1, n), t1);
      var c2 := Column(Histories(fs, tr2, n), t2);
      Close(delta, FoldMin(c1), FoldMin(c2)) && Close(delta, FoldMax(c1), FoldMax(c2))
    decreases fs
  {
    forall i | 0 <= i < |fs|
      ensures Close(delta, History(fs[i], tr1, n)[t1], History(fs[i], tr2, n)[t2])
    {
      RecentCloseShift(tr1, t1, tr2, t2, d, Memory(fs[i]), 0, delta);
      RobustnessIsAMargin(fs[i], tr1, t1, tr2, t2, n, delta);
    }
    FoldsClose(Column(Histories(fs, tr1, n), t1), Column(Histories(fs, tr2, n), t2), delta);
  }

  lemma SameTick(tr1: Trace, t1: nat, tr2: Trace, t2: nat, d: nat, k: nat)
    requires k <= d <= t1 < |tr1| && d <= t2 < |tr2|
    requires tr1[t1 - d..] == tr2[t2 - d..]
    ensures TickClose(0.0, Ago(tr1, t1, k), Ago(tr2, t2, k))
  {
    assert tr1[t1 - k] == tr1[t1 - d..][d - k];
    assert tr2[t2 - k] == tr2[t2 - d..][d - k];
  }

  /** Finite memory: two traces longer than Memory(f) that agree on their last
      Memory(f)+1 ticks give the same robustness. */
  lemma FiniteMemory(f: Formula, tr1: Trace, tr2: Trace, n: nat)
    requires Evaluable(f, n) && TraceOf(tr1, n) && TraceOf(tr2, n)
    requires |tr1| > Memory(f) && |tr2| > Memory(f)
    requires tr1[|tr1| - 1 - Memory(f)..] == tr2[|tr2| - 1 - Memory(f)..]
    ensures History(f, tr1, n)[|tr1| - 1] == History(f, tr2, n)[|tr2| - 1]
  {
    hide History, WellFormed, LeavesBelow;
    var d: nat, t1: nat, t2: nat := Memory(f), |tr1| - 1, |tr2| - 1;
    forall k: nat | k <= d
      ensures TickClose(0.0, Ago(tr1, t1, k), Ago(tr2, t2, k))
    {
      SameTick(tr1, t1, tr2, t2, d, k);
    }
    RobustnessIsAMargin(f, tr1, t1, tr2, t2, n, 0.0);
  }

  /** Causality: a further tick does not change the robustness of the past. */
  lemma HistoryIsCausal(f: Formula, tr: Trace, v: seq<Ext>, n: nat)
    requires Evaluable(f, n) && TraceOf(tr, n) && |v| == n
    ensures TraceOf(tr + [v], n)
    ensures History(f, tr + [v], n)[..|tr|] == History(f, tr, n)
  {
    forall t: nat | t < |tr|
      ensures History(f, tr + [v], n)[t] == History(f, tr, n)[t]
    {
      forall k: nat | k <= Memory(f) && k <= t
        ensures TickClose(0.0, Ago(tr + [v], t, k), Ago(tr, t, k))
      {}
      RobustnessIsAMargin(f, tr + [v], t, tr, t, n, 0.0);
    }
  }

  // ---- Soundness for the Boolean reading -----------------------------------

  /** Which atoms hold, tick by tick. */
  type Facts = seq<seq<bool>>

  predicate FactsFor(facts: Facts, n: nat) {
    forall s :: 0 <= s < |facts| ==> |facts[s]| == n
  }

  ghost predicate AllOf(bs: seq<bool>) {
    forall i :: 0 <= i < |bs| ==> bs[i]
  }

  ghost predicate AnyOf(bs: seq<bool>) {
    exists i :: 0 <= i < |bs| && bs[i]
  }

  ghost predicate AlwaysAt(bs: seq<bool>, t: nat, lo: nat, hi: nat)
    requires t < |bs|
  {
    forall s: nat :: s <= t && lo <= t - s <= hi ==> bs[s]
  }

  ghost predicate EventuallyAt(bs: seq<bool>, t: nat, lo: nat, hi: nat)
    requires t < |bs|
  {
    exists s: nat :: s <= t && lo <= t - s <= hi && bs[s]
  }

  /** phi at every tick after s up to t. */
  ghost predicate Since(phi: seq<bool>, s: nat, t: nat)
    requires t < |phi|
  {
    forall r: nat :: s < r <= t ==> phi[r]
  }

  ghost predicate UntilAt(phi: seq<bool>, psi: seq<bool>, t: nat, lo: nat, hi: nat)
    requires t < |phi| && t < |psi|
  {
    exists s: nat :: s <= t && lo <= t - s <= hi && psi[s] && Since(phi, s, t)
  }

  /** The clause read as a Boolean past-time formula, at every tick. */
  ghost function Truth(f: Formula, facts: Facts, n: nat): (bs: seq<bool>)
    requires Evaluable(f, n) && FactsFor(facts, n)
    ensures |bs| == |facts|
    decreases f
  {
    match f.op
    case Predicate => seq(|facts|, t requires 0 <= t < |facts| => facts[t][f.predicateIndex.value])
    case Not =>
      var a := Truth(f.args[0], facts, n);
      seq(|facts|, t requires 0 <= t < |facts| => !a[t])
    case And =>
      var bs := Truths(f.args, facts, n);
      seq(|facts|, t requires 0 <= t < |facts| => AllOf(Column(bs, t)))
    case Or =>
      var bs := Truths(f.args, facts, n);
      seq(|facts|, t requires 0 <= t < |facts| => AnyOf(Column(bs, t)))
    case Always =>
      var a := Truth(f.args[0], facts, n);
      seq(|facts|, t requires 0 <= t < |facts| => AlwaysAt(a, t, f.Lo(), f.Hi()))
    case Eventually =>
      var a := Truth(f.args[0], facts, n);
      seq(|facts|, t requires 0 <= t < |facts| => EventuallyAt(a, t, f.Lo(), f.Hi()))
    case Until =>
      var a := Truth(f.args[0], facts, n);
      var b := Truth(f.args[1], facts, n);
      seq(|facts|, t requires 0 <= t < |facts| => UntilAt(a, b, t, f.Lo(), f.Hi()))
  }

  ghost function Truths(fs: seq<Formula>, facts: Facts, n: nat): (bs: seq<seq<bool>>)
    requires FactsFor(facts, n) && forall i :: 0 <= i < |fs| ==> Evaluable(fs[i], n)
    ensures |bs| == |fs|
    ensures forall i :: 0 <= i < |bs| ==> bs[i] == Truth(fs[i], facts, n)
    decreases fs
  {
    seq(|fs|, i requires 0 <= i < |fs| => Truth(fs[i], facts, n))
  }

  /** A positive robustness goes with a true fact, a negative one with a false one. */
  predicate Sound(r: Ext, b: bool) {
    (Positive(r) ==> b) && (Negative(r) ==> !b)
  }

  predicate AllSound(h: seq<Ext>, bs: seq<bool>) {
    |h| == |bs| && forall t :: 0 <= t < |h| ==> Sound(h[t], bs[t])
  }

  lemma SignOfFolds(c: seq<Ext>, bs: seq<bool>)
    requires AllSound(c, bs) && c != []
    ensures Sound(FoldMin(c), AllOf(bs))
    ensures Sound(FoldMax(c), AnyOf(bs))
  {
    FoldMinIsLeast(c);
    FoldMaxIsGreatest(c);
    var s := iset x | x in c;
    assert forall i :: 0 <= i < |c| ==> c[i] in s;
    assert s != iset{};
    var i :| 0 <= i < |c| && c[i] == FoldMin(c);
    var j :| 0 <= j < |c| && c[j] == FoldMax(c);
    assert Sound(c[i], bs[i]) && Sound(c[j], bs[j]);
  }

  lemma SignOfWindow(h: seq<Ext>, bs: seq<bool>, t: nat, lo: nat, hi: nat)
    requires AllSound(h, bs) && t < |h|
    ensures Sound(WindowMin(h, t, lo, hi + 1), AlwaysAt(bs, t, lo, hi))
    ensures Sound(WindowMax(h, t, lo, hi + 1), EventuallyAt(bs, t, lo, hi))
  {
    var w := InWindow(h, t, lo, hi + 1);
    var least, greatest := WindowMin(h, t, lo, hi + 1), WindowMax(h, t, lo, hi + 1);
    WindowMinIsLeast(h, t, lo, hi + 1);
    WindowMaxIsGreatest(h, t, lo, hi + 1);
    forall s: nat | s <= t && lo <= t - s <= hi ensures h[s] in w && Sound(h[s], bs[s]) {
      assert Ago(h, t, t - s) in w;
    }
    if Negative(least) {
      var k: nat :| lo <= k < hi + 1 && k <= t && Ago(h, t, k) == least;
      assert Sound(h[t - k], bs[t - k]);
    }
    if Positive(greatest) {
      var k: nat :| lo <= k < hi + 1 && k <= t && Ago(h, t, k) == greatest;
      assert Sound(h[t - k], bs[t - k]);
    }
  }

  lemma SignOfWitness(a: seq<Ext>, b: seq<Ext>, phi: seq<bool>, psi: seq<bool>, t: nat, s: nat)
    requires AllSound(a, phi) && AllSound(b, psi) && |a| == |b| && s <= t < |a|
    ensures Sound(Witness(a, b, t, t - s), psi[s] && Since(phi, s, t))
  {
    var w, k := Witness(a, b, t, t - s), t - s;
    WitnessIsLeast(a, b, t, k);
    assert Sound(b[s], psi[s]) && Ago(b, t, k) == b[s];
    assert w in InWindow(a, t, 0, k) + iset{b[s]};
    forall r: nat | s < r <= t ensures Le(w, a[r]) && Sound(a[r], phi[r]) {
      assert Ago(a, t, t - r) in InWindow(a, t, 0, k);
    }
    if Negative(w) && w != b[s] {
      var j: nat :| 0 <= j < k && j <= t && Ago(a, t, j) == w;
      assert Sound(a[t - j], phi[t - j]);
    }
  }

  lemma PositiveUntil(a: seq<Ext>, b: seq<Ext>, phi: seq<bool>, psi: seq<bool>, t: nat, lo: nat, hi: nat)
    requires AllSound(a, phi) && AllSound(b, psi) && |a| == |b| && t < |a|
    requires Positive(UntilMax(a, b, t, lo, hi + 1))
    ensures UntilAt(phi, psi, t, lo, hi)
  {
    hide UntilMax, Since, Witness;
    var k := UntilIsAWitness(a, b, t, lo, hi + 1);
    SignOfWitness(a, b, phi, psi, t, t - k);
    assert psi[t - k];
  }

  /** A value above minus infinity is that of some witness in the window. */
  lemma {:induction false} UntilIsAWitness(a: seq<Ext>, b: seq<Ext>, t: nat, lo: nat, end: nat) returns (k: nat)
    requires t < |a| && t < |b| && !UntilMax(a, b, t, lo, end).NegInf?
    ensures lo <= k < end && k <= t && Witness(a, b, t, k) == UntilMax(a, b, t, lo, end)
    decreases end
  {
    hide Witness;
    k := end - 1;
    if k > t || Witness(a, b, t, k) != UntilMax(a, b, t, lo, end) {
      k := UntilIsAWitness(a, b, t, lo, end - 1);
    }
  }

  lemma NegativeUntil(a: seq<Ext>, b: seq<Ext>, phi: seq<bool>, psi: seq<bool>, t: nat, lo: nat, hi: nat)
    requires AllSound(a, phi) && AllSound(b, psi) && |a| == |b| && t < |a|
    requires Negative(UntilMax(a, b, t, lo, hi + 1))
    ensures !UntilAt(phi, psi, t, lo, hi)
  {
    UntilMaxIsGreatest(a, b, t, lo, hi + 1);
    forall s: nat | s <= t && lo <= t - s <= hi && psi[s] ensures !Since(phi, s, t) {
      var w := Witness(a, b, t, t - s);
      assert w in Witnesses(a, b, t, lo, hi + 1);
      assert Negative(w);
      SignOfWitness(a, b, phi, psi, t, s);
    }
  }

  lemma SignOfUntil(a: seq<Ext>, b: seq<Ext>, phi: seq<bool>, psi: seq<bool>, t: nat, lo: nat, hi: nat)
    requires AllSound(a, phi) && AllSound(b, psi) && |a| == |b| && t < |a|
    ensures Sound(UntilMax(a, b, t, lo, hi + 1), UntilAt(phi, psi, t, lo, hi))
  {
    var u := UntilMax(a, b, t, lo, hi + 1);
    if Positive(u) {
      PositiveUntil(a, b, phi, psi, t, lo, hi);
    } else if Negative(u) {
      NegativeUntil(a, b, phi, psi, t, lo, hi);
    }
  }

  ghost predicate FactsOf(facts: Facts, tr: Trace, n: nat) {
    && TraceOf(tr, n) && FactsFor(facts, n) && |facts| == |tr|
    && forall t :: 0 <= t < |facts| ==> AllSound(tr[t], facts[t])
  }

  ghost predicate ArgsSound(f: Formula, tr: Trace, facts: Facts, n: nat)
    requires Evaluable(f, n) && FactsOf(facts, tr, n)
  {
    forall i :: 0 <= i < |f.args| ==> AllSound(History(f.args[i], tr, n), Truth(f.args[i], facts, n))
  }

  lemma SignOfLogic(f: Formula, tr: Trace, facts: Facts, n: nat, t: nat)
    requires Evaluable(f, n) && FactsOf(facts, tr, n) && ArgsSound(f, tr, facts, n) && t < |tr|
    requires f.op.Predicate? || f.op.Not? || f.op.And? || f.op.Or?
    ensures Sound(History(f, tr, n)[t], Truth(f, facts, n)[t])
  {
    if f.op.Predicate? {
      assert AllSound(tr[t], facts[t]);
    } else if f.op.Not? {
      assert AllSound(History(f.args[0], tr, n), Truth(f.args[0], facts, n));
    } else {
      SignOfFolds(Column(Histories(f.args, tr, n), t), Column(Truths(f.args, facts, n), t));
    }
  }

  lemma SignOfTemporal(f: Formula, tr: Trace, facts: Facts, n: nat, t: nat)
    requires Evaluable(f, n) && FactsOf(facts, tr, n) && ArgsSound(f, tr, facts, n) && t < |tr|
    requires f.op.Always? || f.op.Eventually? || f.op.Until?
    ensures Sound(History(f, tr, n)[t], Truth(f, facts, n)[t])
  {
    var h, b := History(f.args[0], tr, n), Truth(f.args[0], facts, n);
    assert AllSound(h, b);
    hide WindowMin, WindowMax, UntilMax, AlwaysAt, EventuallyAt, UntilAt, Sound, AllSound;
    if f.op.Until? {
      SignOfUntil(h, History(f.args[1], tr, n), b, Truth(f.args[1], facts, n), t, f.Lo(), f.Hi());
    } else {
      SignOfWindow(h, b, t, f.Lo(), f.Hi());
    }
  }

  /** A strictly positive root means the Boolean formula holds, a strictly negative
      one that it fails, at every tick. */
  lemma {:induction false} RobustnessSignIsSound(f: Formula, tr: Trace, facts: Facts, n: nat)
    requires Evaluable(f, n) && FactsOf(facts, tr, n)
    ensures AllSound(History(f, tr, n), Truth(f, facts, n))
    decreases f
  {
    forall i | 0 <= i < |f.args|
      ensures AllSound(History(f.args[i], tr, n), Truth(f.args[i], facts, n))
    {
      RobustnessSignIsSound(f.args[i], tr, facts, n);
    }
    forall t: nat | t < |tr| ensures Sound(History(f, tr, n)[t], Truth(f, facts, n)[t]) {
      if f.op.Always? || f.op.Eventually? || f.op.Until? {
        SignOfTemporal(f, tr, facts, n, t);
      } else {
        SignOfLogic(f, tr, facts, n, t);
      }
    }
  }

  /** The two together: a clause whose margin exceeds delta keeps its truth value
      on every trace whose atoms stay within delta of the one seen. */
  lemma MarginProtects(f: Formula, tr: Trace, seen: Facts, tr': Trace, facts: Facts, t: nat, n: nat, delta: real)
    requires Evaluable(f, n) && FactsOf(seen, tr, n) && FactsOf(facts, tr', n) && t < |tr| == |tr'|
    requires delta >= 0.0 && RecentClose(tr, t, tr', t, Memory(f), delta)
    requires !Close(delta, History(f, tr, n)[t], Fin(0.0))
    ensures Truth(f, facts, n)[t] == Truth(f, seen, n)[t]
  {
    RobustnessIsAMargin(f, tr, t, tr', t, n, delta);
    RobustnessSignIsSound(f, tr, seen, n);
    RobustnessSignIsSound(f, tr', facts, n);
  }
}
