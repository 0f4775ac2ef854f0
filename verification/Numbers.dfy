/** The two number types the safety core needs besides `real`: inputs that may
    be malformed, and robustness values that may be infinite. */
module Numbers {

  /** A 64-bit float as the core receives it: a finite value, or NaN or an infinity. */
  datatype Float = Finite(r: real) | NonFinite

  /** A robustness value or barrier margin: a real extended by the two infinities. */
  datatype Ext = NegInf | Fin(v: real) | PosInf

  predicate AllFinite(xs: seq<Float>) {
    forall i :: 0 <= i < |xs| ==> xs[i].Finite?
  }

  /** The i-th component, with a missing or malformed one read as zero. */
  function FiniteAt(xs: seq<Float>, i: nat): real {
    if i < |xs| && xs[i].Finite? then xs[i].r else 0.0
  }

  /** The first n components as reals. */
  function Values(xs: seq<Float>, n: nat): (ys: seq<real>)
    ensures |ys| == n
  {
    seq(n, i requires 0 <= i => FiniteAt(xs, i))
  }

  function Lift(xs: seq<real>): (ys: seq<Float>)
    ensures |ys| == |xs| && AllFinite(ys)
  {
    seq(|xs|, i requires 0 <= i < |xs| => Finite(xs[i]))
  }

  lemma ValuesOfLift(xs: seq<real>)
    ensures Values(Lift(xs), |xs|) == xs
  {}

  predicate Le(a: Ext, b: Ext) {
    a.NegInf? || b.PosInf? || (a.Fin? && b.Fin? && a.v <= b.v)
  }

  function Min(a: Ext, b: Ext): Ext {
    if Le(a, b) then a else b
  }

  function Max(a: Ext, b: Ext): Ext {
    if Le(a, b) then b else a
  }

  function Neg(a: Ext): Ext {
    match a
    case NegInf => PosInf
    case Fin(v) => Fin(-v)
    case PosInf => NegInf
  }

  predicate Positive(a: Ext) { a.PosInf? || (a.Fin? && a.v > 0.0) }

  predicate Negative(a: Ext) { a.NegInf? || (a.Fin? && a.v < 0.0) }

  /** The same infinity, or two reals at most `delta` apart. */
  predicate Close(delta: real, a: Ext, b: Ext) {
    match a
    case Fin(v) => b.Fin? && -delta <= v - b.v <= delta
    case _ => a == b
  }

  function RMin(a: real, b: real): real { if a <= b then a else b }

  function RMax(a: real, b: real): real { if a <= b then b else a }

  function RAbs(a: real): real { if a < 0.0 then -a else a }

  /** The nearest point of [lo, hi]; an empty interval has none. */
  function Clamp(x: real, lo: real, hi: real): (y: real)
    requires lo <= hi
    ensures lo <= y <= hi
    ensures lo <= x <= hi ==> y == x
  {
    if x < lo then lo else if x > hi then hi else x
  }
}
