/** The convex sets a command must lie in, their projections, and Dykstra's
    alternating projection over them with everything a cycle preserves. */
module Projections {
  import opened Numbers
  import opened Vectors

  // ---- The ball kernel ------------------------------------------------------

  /** `f64::EPSILON`. */
  const EPSILON: real := 1.0 / 4503599627370496.0

  predicate ScaleIsSound(len: real, radius: real, scale: real) {
    0.0 <= scale <= 1.0 && len * scale <= radius * (1.0 + 4.0 * EPSILON)
  }

  /** The scale factor into the ball, given whatever the divider answered. */
  function ValidatedScale(len: real, radius: real, candidate: real): real {
    if len > radius && len > 0.0 then
      if ScaleIsSound(len, radius, candidate) then candidate else 0.0
    else 1.0
  }

  function BallScale(len: real, radius: real): real {
    ValidatedScale(len, radius, if len == 0.0 then 0.0 else radius / len)
  }

  /** No divider, however wrong, can make the kernel leave the ball by more than
      its validation slack, or turn or lengthen the command. */
  lemma AnyDividerStaysInBall(len: real, radius: real, candidate: real)
    requires len >= 0.0 && radius >= 0.0
    ensures 0.0 <= ValidatedScale(len, radius, candidate) <= 1.0
    ensures len * ValidatedScale(len, radius, candidate) <= radius * (1.0 + 1.0 / 1125899906842624.0)
  {
    assert radius * (1.0 + 4.0 * EPSILON) == radius + radius * (4.0 * EPSILON);
  }

  /** With an exact divider the factor lands on the sphere, and is 1 inside it. */
  lemma BallScaleIsExact(len: real, radius: real)
    requires len >= 0.0 && radius >= 0.0
    ensures 0.0 <= BallScale(len, radius) <= 1.0
    ensures len * BallScale(len, radius) == (if len <= radius then len else radius)
    ensures len <= radius ==> BallScale(len, radius) == 1.0
  {
    if len > radius {
      var s := radius / len;
      assert s * len == radius;
      assert (1.0 - s) * len == len - radius;
      NonposFactor(-s, len);
      NonposFactor(s - 1.0, len);
      assert radius * (1.0 + 4.0 * EPSILON) == radius + radius * (4.0 * EPSILON);
    }
  }

  // ---- Convex sets and their projections ------------------------------------

  datatype Convex =
    | BoxSet(limit: real)
    | BallSet(center: Vec, radius: real)
    | HalfSet(a: Vec, b: real)
  {
    predicate Fits(n: nat) {
      match this
      case BoxSet(limit) => limit >= 0.0
      case BallSet(c, _) => |c| == n
      case HalfSet(a, _) => |a| == n
    }
  }

  predicate Contains(sqrt: Root, s: Convex, z: Vec)
    requires s.Fits(|z|)
  {
    match s
    case BoxSet(limit) => forall i :: 0 <= i < |z| ==> -limit <= z[i] <= limit
    case BallSet(c, radius) => Norm(sqrt, Sub(z, c)) <= radius
    case HalfSet(a, b) => Dot(a, z) >= b
  }

  /** y moved by t along a, on one axis. */
  function Along(y: real, t: real, a: real): real {
    y + t * a
  }

  /** y scaled towards c, on one axis. */
  function Toward(c: real, y: real, scale: real): real {
    c + (y - c) * scale
  }

  function Project(sqrt: Root, s: Convex, y: Vec): (x: Vec)
    requires s.Fits(|y|)
    ensures |x| == |y|
  {
    match s
    case BoxSet(limit) => seq(|y|, i requires 0 <= i < |y| => Clamp(y[i], -limit, limit))
    case BallSet(c, radius) =>
      var scale := BallScale(Norm(sqrt, Sub(y, c)), radius);
      seq(|y|, i requires 0 <= i < |y| => Toward(c[i], y[i], scale))
    case HalfSet(a, b) =>
      if Dot(a, y) < b && Norm2(a) > 0.0 then
        var t := (b - Dot(a, y)) / Norm2(a);
        seq(|y|, i requires 0 <= i < |y| => Along(y[i], t, a[i]))
      else y
  }

  lemma {:induction false} DotNNonpos(u: Vec, w: Vec, n: nat)
    requires n <= |u| && n <= |w| && forall i :: 0 <= i < n ==> u[i] * w[i] <= 0.0
    ensures DotN(u, w, n) <= 0.0
  {
    if n > 0 {
      DotNNonpos(u, w, n - 1);
    }
  }

  lemma ClampIsNormal(y: real, limit: real, z: real)
    requires limit >= 0.0 && -limit <= z <= limit
    ensures (y - Clamp(y, -limit, limit)) * (z - Clamp(y, -limit, limit)) <= 0.0
  {}

  lemma BoxNormal(limit: real, y: Vec, z: Vec)
    requires limit >= 0.0 && |y| == |z| && forall i :: 0 <= i < |z| ==> -limit <= z[i] <= limit
    ensures
      var x := seq(|y|, i requires 0 <= i < |y| => Clamp(y[i], -limit, limit));
      Dot(Sub(y, x), Sub(z, x)) <= 0.0
  {
    var x := seq(|y|, i requires 0 <= i < |y| => Clamp(y[i], -limit, limit));
    var u, w := Sub(y, x), Sub(z, x);
    forall i | 0 <= i < |y| ensures u[i] * w[i] <= 0.0 {
      ClampIsNormal(y[i], limit, z[i]);
    }
    DotNNonpos(u, w, |u|);
  }

  lemma BallNormal(sqrt: Root, c: Vec, radius: real, y: Vec, z: Vec)
    requires IsSqrt(sqrt) && |y| == |z| == |c| && Norm(sqrt, Sub(z, c)) <= radius
    ensures
      var x := Project(sqrt, BallSet(c, radius), y);
      && Dot(Sub(y, x), Sub(z, x)) <= 0.0
      && Norm(sqrt, Sub(x, c)) <= radius
  {
    var x := Project(sqrt, BallSet(c, radius), y);
    BallCore(sqrt, c, radius, y, z, x);
  }

  lemma BallCore(sqrt: Root, c: Vec, radius: real, y: Vec, z: Vec, x: Vec)
    requires IsSqrt(sqrt) && |y| == |z| == |c| == |x| && Norm(sqrt, Sub(z, c)) <= radius
    requires forall i :: 0 <= i < |x| ==> x[i] == c[i] + (y[i] - c[i]) * BallScale(Norm(sqrt, Sub(y, c)), radius)
    ensures Dot(Sub(y, x), Sub(z, x)) <= 0.0 && Norm(sqrt, Sub(x, c)) <= radius
  {
    var d, e, f := Sub(y, c), Sub(z, c), Sub(x, c);
    var s := BallScale(Norm(sqrt, d), radius);
    BallEntries(c, y, z, x, s);
    hide *;
    BallOffset(sqrt, f, s, d, radius, e);
    BallResidual(Sub(y, x), Sub(z, x), d, e, s);
    BallSign(sqrt, d, e, s, radius, Dot(Sub(y, x), Sub(z, x)));
  }

  lemma BallOffset(sqrt: Root, f: Vec, s: real, d: Vec, radius: real, e: Vec)
    requires IsSqrt(sqrt) && Multiple(f, s, d) && s == BallScale(Norm(sqrt, d), radius)
    requires Norm(sqrt, e) <= radius
    ensures Norm(sqrt, f) <= radius
  {
    hide Norm, BallScale, IsSqrt;
    NormSquared(sqrt, d);
    NormSquared(sqrt, e);
    BallScaleIsExact(Norm(sqrt, d), radius);
    NormOfMultiple(sqrt, f, s, d);
  }

  lemma BallSign(sqrt: Root, d: Vec, e: Vec, s: real, radius: real, residual: real)
    requires IsSqrt(sqrt) && |d| == |e| && s == BallScale(Norm(sqrt, d), radius)
    requires Norm(sqrt, e) <= radius
    requires residual == (1.0 - s) * (Dot(d, e) - s * Norm2(d))
    ensures residual <= 0.0
  {
    hide *;
    NormSquared(sqrt, d);
    NormSquared(sqrt, e);
    BallScaleIsExact(Norm(sqrt, d), radius);
    DotBoundedByNorms(sqrt, d, e);
    BallArithmetic(Norm(sqrt, d), Norm2(d), s, radius, Dot(d, e), Norm(sqrt, e), residual);
  }

  /** Residual, slack and offset of a point scaled towards a centre, in terms of
      y - c and z - c. */
  lemma BallEntries(c: Vec, y: Vec, z: Vec, x: Vec, s: real)
    requires |c| == |y| == |z| == |x|
    requires forall i :: 0 <= i < |x| ==> x[i] == c[i] + (y[i] - c[i]) * s
    ensures
      var d, e := Sub(y, c), Sub(z, c);
      && Multiple(Sub(y, x), 1.0 - s, d) && Combines(Sub(z, x), 1.0, e, -s, d) && Multiple(Sub(x, c), s, d)
  {
    forall i | 0 <= i < |x|
      ensures y[i] - x[i] == (1.0 - s) * (y[i] - c[i])
      ensures z[i] - x[i] == (z[i] - c[i]) + -s * (y[i] - c[i])
      ensures x[i] - c[i] == s * (y[i] - c[i])
    {
      ScaledOffset(c[i], y[i], z[i], x[i], s);
    }
  }

  lemma ScaledOffset(c: real, y: real, z: real, x: real, s: real)
    requires x == c + (y - c) * s
    ensures y - x == (1.0 - s) * (y - c) && z - x == (z - c) + -s * (y - c) && x - c == s * (y - c)
  {}

  lemma NormOfMultiple(sqrt: Root, f: Vec, s: real, d: Vec)
    requires IsSqrt(sqrt) && s >= 0.0 && Multiple(f, s, d)
    ensures Norm(sqrt, f) <= Norm(sqrt, d) * s
  {
    Norm2Multiple(f, s, d);
    NormSquared(sqrt, f);
    NormSquared(sqrt, d);
    var len := Norm(sqrt, d);
    assert (len * s) * (len * s) == s * s * (len * len);
    SquareOrder(Norm(sqrt, f), len * s);
  }

  lemma BallResidual(u: Vec, w: Vec, d: Vec, e: Vec, s: real)
    requires Multiple(u, 1.0 - s, d) && Combines(w, 1.0, e, -s, d)
    ensures Dot(u, w) == (1.0 - s) * (Dot(d, e) - s * Norm2(d))
  {
    DotMultiple(u, 1.0 - s, d, w);
    DotCombine(w, 1.0, e, -s, d, d);
    assert -s * Norm2(d) == -(s * Norm2(d));
  }

  lemma BallArithmetic(len: real, dd: real, s: real, radius: real, de: real, e: real, residual: real)
    requires len >= 0.0 && len * len == dd && 0.0 <= s <= 1.0 && radius >= e
    requires len * s == (if len <= radius then len else radius) && (len <= radius ==> s == 1.0) && de <= len * e
    requires residual == (1.0 - s) * (de - s * dd)
    ensures residual <= 0.0
  {
    if len > radius {
      assert s * dd == len * radius by {
        assert s * (len * len) == (len * s) * len;
      }
      assert len * e <= len * radius by {
        assert len * (radius - e) >= 0.0;
      }
      assert (1.0 - s) * (len * radius - de) >= 0.0;
      assert (1.0 - s) * (de - len * radius) == -((1.0 - s) * (len * radius - de));
    }
  }

  lemma HalfNormal(sqrt: Root, a: Vec, b: real, y: Vec, z: Vec)
    requires |a| == |y| == |z| && Dot(a, z) >= b
    ensures
      var x := Project(sqrt, HalfSet(a, b), y);
      && Dot(Sub(y, x), Sub(z, x)) <= 0.0
      && Dot(a, x) >= b
  {
    var x := Project(sqrt, HalfSet(a, b), y);
    var u, w := Sub(y, x), Sub(z, x);
    if Dot(a, y) < b && Norm2(a) > 0.0 {
      var t := (b - Dot(a, y)) / Norm2(a);
      assert t * Norm2(a) == b - Dot(a, y);
      NonposFactor(-t, Norm2(a));
      assert Combines(x, 1.0, y, t, a);
      DotCombine(x, 1.0, y, t, a, a);
      assert Multiple(u, -t, a);
      DotMultiple(u, -t, a, w);
      DotSub(z, x, a);
      DotSym(a, y);
      DotSym(a, z);
      assert t * (Dot(a, z) - b) >= 0.0;
    } else {
      Norm2Nonneg(a);
      DotSub(y, x, w);
      if Norm2(a) <= 0.0 {
        DotSym(a, y);
        DotSym(a, z);
        DotWithZero(y, a);
        DotWithZero(z, a);
      }
    }
  }

  /** Project is the metric projection onto any of the sets that is not empty: it
      lands in the set and the residual is an outward normal there. */
  lemma ProjectionIsNormal(sqrt: Root, s: Convex, y: Vec, z: Vec)
    requires IsSqrt(sqrt) && |y| == |z| && s.Fits(|y|) && Contains(sqrt, s, z)
    ensures
      var x := Project(sqrt, s, y);
      Contains(sqrt, s, x) && Dot(Sub(y, x), Sub(z, x)) <= 0.0
  {
    match s
    case BoxSet(limit) => BoxNormal(limit, y, z);
    case BallSet(c, radius) => BallNormal(sqrt, c, radius, y, z);
    case HalfSet(a, b) => HalfNormal(sqrt, a, b, y, z);
  }

  lemma ProjectionFixesMembers(sqrt: Root, s: Convex, y: Vec)
    requires IsSqrt(sqrt) && s.Fits(|y|) && Contains(sqrt, s, y)
    ensures Project(sqrt, s, y) == y
  {
    if s.BallSet? {
      NormSquared(sqrt, Sub(y, s.center));
      BallScaleIsExact(Norm(sqrt, Sub(y, s.center)), s.radius);
    }
  }

  // ---- Dykstra's algorithm --------------------------------------------------

  /** The iterate and one correction per set. */
  datatype Iterate = Iterate(x: Vec, corr: seq<Vec>)

  predicate Sized(sets: seq<Convex>, it: Iterate) {
    && |it.corr| == |sets|
    && forall k :: 0 <= k < |sets| ==> sets[k].Fits(|it.x|) && |it.corr[k]| == |it.x|
  }

  /** One projection step: onto set s, with correction k. */
  function OneStage(sqrt: Root, s: Convex, it: Iterate, k: nat): (r: Iterate)
    requires k < |it.corr| && |it.corr[k]| == |it.x| && s.Fits(|it.x|)
  {
    var y := Add(it.x, it.corr[k]);
    var x := Project(sqrt, s, y);
    Iterate(x, it.corr[k := Sub(y, x)])
  }

  /** The iterate after the first j sets of a cycle. */
  function Stage(sqrt: Root, sets: seq<Convex>, it: Iterate, j: nat): (r: Iterate)
    requires Sized(sets, it) && j <= |sets|
    ensures Sized(sets, r) && |r.x| == |it.x|
  {
    if j == 0 then it else OneStage(sqrt, sets[j - 1], Stage(sqrt, sets, it, j - 1), j - 1)
  }

  function Cycle(sqrt: Root, sets: seq<Convex>, it: Iterate): (r: Iterate)
    requires Sized(sets, it)
    ensures Sized(sets, r) && |r.x| == |it.x|
  {
    Stage(sqrt, sets, it, |sets|)
  }

  function SumOf(vs: seq<Vec>, n: nat, k: nat): (s: Vec)
    requires k <= |vs| && forall j :: 0 <= j < |vs| ==> |vs[j]| == n
    ensures |s| == n
  {
    if k == 0 then Zeros(n) else Add(SumOf(vs, n, k - 1), vs[k - 1])
  }

  /** Iterate plus corrections still add up to the proposal. */
  ghost predicate Conserved(sets: seq<Convex>, it: Iterate, x0: Vec) {
    Sized(sets, it) && |x0| == |it.x| && Add(it.x, SumOf(it.corr, |x0|, |it.corr|)) == x0
  }

  lemma {:induction false} SumAfterUpdate(vs: seq<Vec>, n: nat, k: nat, j: nat, w: Vec)
    requires k <= |vs| && j < |vs| && |w| == n && forall i :: 0 <= i < |vs| ==> |vs[i]| == n
    ensures SumOf(vs[j := w], n, k) == if j < k then Add(SumOf(vs, n, k), Sub(w, vs[j])) else SumOf(vs, n, k)
    decreases k
  {
    if k > 0 {
      SumAfterUpdate(vs, n, k - 1, j, w);
    }
  }

  /** Moving the iterate anywhere, against the correction of one set. */
  lemma ExchangeConserves(sets: seq<Convex>, s: Iterate, x0: Vec, k: nat, x: Vec)
    requires Conserved(sets, s, x0) && k < |sets| && |x| == |x0|
    ensures Conserved(sets, Iterate(x, s.corr[k := Sub(Add(s.x, s.corr[k]), x)]), x0)
  {
    var c := Sub(Add(s.x, s.corr[k]), x);
    SumAfterUpdate(s.corr, |x0|, |sets|, k, c);
    var sum := SumOf(s.corr, |x0|, |sets|);
    assert Add(x, Add(sum, Sub(c, s.corr[k]))) == Add(s.x, sum);
  }

  /** Every stage of every cycle conserves x + sum of corrections. */
  lemma {:induction false} StageConserves(sqrt: Root, sets: seq<Convex>, it: Iterate, x0: Vec, j: nat)
    requires Conserved(sets, it, x0) && j <= |sets|
    ensures Conserved(sets, Stage(sqrt, sets, it, j), x0)
  {
    if j > 0 {
      StageConserves(sqrt, sets, it, x0, j - 1);
      var s := Stage(sqrt, sets, it, j - 1);
      ExchangeConserves(sets, s, x0, j - 1, Project(sqrt, sets[j - 1], Add(s.x, s.corr[j - 1])));
    }
  }

  /** A stage touches only its own correction. */
  lemma {:induction false} StageKeepsCorrections(sqrt: Root, sets: seq<Convex>, it: Iterate, i: nat, j: nat, k: nat)
    requires Sized(sets, it) && i <= j <= |sets| && k < |sets| && (k < i || k >= j)
    ensures Stage(sqrt, sets, it, j).corr[k] == Stage(sqrt, sets, it, i).corr[k]
    decreases j
  {
    if i < j {
      StageKeepsCorrections(sqrt, sets, it, i, j - 1, k);
    }
  }

  ghost predicate Feasible(sqrt: Root, sets: seq<Convex>, z: Vec) {
    forall k :: 0 <= k < |sets| ==> sets[k].Fits(|z|) && Contains(sqrt, sets[k], z)
  }

  /** The correction a cycle leaves for set k is an outward normal of that set at
      the point stage k produced, and that point is in the set. */
  lemma CorrectionsAreNormals(sqrt: Root, sets: seq<Convex>, it: Iterate, k: nat, z: Vec)
    requires IsSqrt(sqrt) && Sized(sets, it) && k < |sets| && |z| == |it.x|
    requires Contains(sqrt, sets[k], z)
    ensures Contains(sqrt, sets[k], Stage(sqrt, sets, it, k + 1).x)
    ensures Dot(Cycle(sqrt, sets, it).corr[k], Sub(z, Stage(sqrt, sets, it, k + 1).x)) <= 0.0
  {
    var s := Stage(sqrt, sets, it, k);
    ProjectionIsNormal(sqrt, sets[k], Add(s.x, s.corr[k]), z);
    StageKeepsCorrections(sqrt, sets, it, k + 1, |sets|, k);
  }

  /** How far the stage points of the cycle still lie from its end point, weighed
      by the corrections: sum over the first j sets of c.(x_stage - x_end). */
  function Drift(sqrt: Root, sets: seq<Convex>, it: Iterate, j: nat): real
    requires Sized(sets, it) && j <= |sets|
  {
    if j == 0 then 0.0
    else
      var end := Cycle(sqrt, sets, it);
      Drift(sqrt, sets, it, j - 1) + Dot(end.corr[j - 1], Sub(Stage(sqrt, sets, it, j).x, end.x))
  }

  lemma {:induction false} SumAgainstDrift(sqrt: Root, sets: seq<Convex>, it: Iterate, z: Vec, j: nat)
    requires IsSqrt(sqrt) && Sized(sets, it) && j <= |sets| && |z| == |it.x| && Feasible(sqrt, sets, z)
    ensures
      var end := Cycle(sqrt, sets, it);
      Dot(SumOf(end.corr, |z|, j), Sub(z, end.x)) <= Drift(sqrt, sets, it, j)
  {
    hide Project, Contains, Dot;
    var end := Cycle(sqrt, sets, it);
    var d := Sub(z, end.x);
    if j == 0 {
      DotZeros(|z|, d);
    } else {
      SumAgainstDrift(sqrt, sets, it, z, j - 1);
      CorrectionsAreNormals(sqrt, sets, it, j - 1, z);
      var p, c := Stage(sqrt, sets, it, j).x, end.corr[j - 1];
      hide Stage, Sub, Add;
      DotAdd(SumOf(end.corr, |z|, j - 1), c, d);
      SplitAt(c, z, p, end.x);
    }
  }

  lemma SplitAt(c: Vec, z: Vec, p: Vec, e: Vec)
    requires |c| == |z| == |p| == |e|
    ensures Dot(c, Sub(z, e)) == Dot(c, Sub(z, p)) + Dot(c, Sub(p, e))
  {
    assert Sub(z, e) == Add(Sub(z, p), Sub(p, e));
    DotAdd(Sub(z, p), Sub(p, e), c);
  }

  lemma DotZeros(n: nat, d: Vec)
    requires |d| == n
    ensures Dot(Zeros(n), d) == 0.0
  {
    DotNWithZero(d, Zeros(n), n);
    DotSym(d, Zeros(n));
  }

  /** At every cycle end, however early the loop stops, no feasible command is
      closer to the proposal than the iterate by more than twice the drift, and the
      closest one is itself that near the iterate. */
  lemma CycleEndIsNearOptimal(sqrt: Root, sets: seq<Convex>, it: Iterate, x0: Vec, z: Vec)
    requires IsSqrt(sqrt) && Conserved(sets, it, x0) && |z| == |x0| && Feasible(sqrt, sets, z)
    ensures
      var end := Cycle(sqrt, sets, it);
      var drift := Drift(sqrt, sets, it, |sets|);
      && Dot(Sub(x0, end.x), Sub(z, end.x)) <= drift
      && Norm2(Sub(x0, end.x)) + Norm2(Sub(z, end.x)) <= Norm2(Sub(x0, z)) + 2.0 * drift
  {
    hide Project, Contains, Norm2, Dot, Stage, SumOf;
    var end := Cycle(sqrt, sets, it);
    StageConserves(sqrt, sets, it, x0, |sets|);
    SumAgainstDrift(sqrt, sets, it, z, |sets|);
    Residual(end.x, SumOf(end.corr, |x0|, |sets|), x0);
    CosineLaw(x0, z, end.x);
  }

  lemma Residual(x: Vec, c: Vec, x0: Vec)
    requires |x| == |c| == |x0| && Add(x, c) == x0
    ensures Sub(x0, x) == c
  {
    forall i | 0 <= i < |x| ensures Sub(x0, x)[i] == c[i] {
      assert Add(x, c)[i] == x[i] + c[i];
    }
  }

  lemma CosineLaw(x0: Vec, z: Vec, x: Vec)
    requires |x0| == |z| == |x|
    ensures Norm2(Sub(x0, z)) == Norm2(Sub(x0, x)) - 2.0 * Dot(Sub(x0, x), Sub(z, x)) + Norm2(Sub(z, x))
  {
    assert Sub(x0, z) == Sub(Sub(x0, x), Sub(z, x));
    Norm2Sub(Sub(x0, x), Sub(z, x));
  }

  /** No stage of the cycle moved the point. */
  ghost predicate Still(sqrt: Root, sets: seq<Convex>, it: Iterate)
    requires Sized(sets, it)
  {
    forall j :: 0 <= j <= |sets| ==> Stage(sqrt, sets, it, j).x == it.x
  }

  lemma {:induction false} StillHasNoDrift(sqrt: Root, sets: seq<Convex>, it: Iterate, j: nat)
    requires Sized(sets, it) && Still(sqrt, sets, it) && j <= |sets|
    ensures Drift(sqrt, sets, it, j) == 0.0
  {
    if j > 0 {
      StillHasNoDrift(sqrt, sets, it, j - 1);
      var end := Cycle(sqrt, sets, it);
      assert Sub(Stage(sqrt, sets, it, j).x, end.x) == Zeros(|it.x|);
      DotZeros(|it.x|, end.corr[j - 1]);
      DotSym(Zeros(|it.x|), end.corr[j - 1]);
    }
  }

  /** When no stage of a cycle moves the point and some command is feasible, the
      point is feasible and strictly closer to the proposal than any other feasible
      command. */
  lemma StillCycleIsTheProjection(sqrt: Root, sets: seq<Convex>, it: Iterate, x0: Vec, z: Vec)
    requires IsSqrt(sqrt) && Conserved(sets, it, x0) && Still(sqrt, sets, it)
    requires |z| == |x0| && Feasible(sqrt, sets, z)
    ensures Feasible(sqrt, sets, it.x)
    ensures z != it.x ==> Norm2(Sub(x0, it.x)) < Norm2(Sub(x0, z))
  {
    forall k | 0 <= k < |sets| ensures Contains(sqrt, sets[k], it.x) {
      CorrectionsAreNormals(sqrt, sets, it, k, z);
      assert Stage(sqrt, sets, it, k + 1).x == it.x;
    }
    CycleEndIsNearOptimal(sqrt, sets, it, x0, z);
    StillHasNoDrift(sqrt, sets, it, |sets|);
    Norm2Nonneg(Sub(z, it.x));
    if Norm2(Sub(z, it.x)) == 0.0 {
      ZeroDistance(z, it.x);
    }
  }

  lemma ZeroDistance(a: Vec, b: Vec)
    requires |a| == |b| && Norm2(Sub(a, b)) == 0.0
    ensures a == b
  {
    Norm2Nonneg(Sub(a, b));
    forall i | 0 <= i < |a| ensures a[i] == b[i] {
      assert Sub(a, b)[i] == 0.0;
    }
  }

  function Start(sets: seq<Convex>, x0: Vec): (it: Iterate)
    requires forall k :: 0 <= k < |sets| ==> sets[k].Fits(|x0|)
    ensures Sized(sets, it)
  {
    Iterate(x0, seq(|sets|, _ => Zeros(|x0|)))
  }

  lemma {:induction false} SumOfZeros(vs: seq<Vec>, n: nat, k: nat)
    requires k <= |vs| && forall j :: 0 <= j < |vs| ==> vs[j] == Zeros(n)
    ensures (forall j :: 0 <= j < |vs| ==> |vs[j]| == n) && SumOf(vs, n, k) == Zeros(n)
  {
    if k > 0 {
      SumOfZeros(vs, n, k - 1);
    }
  }

  lemma StartConserves(sets: seq<Convex>, x0: Vec)
    requires forall k :: 0 <= k < |sets| ==> sets[k].Fits(|x0|)
    ensures Conserved(sets, Start(sets, x0), x0)
  {
    SumOfZeros(Start(sets, x0).corr, |x0|, |sets|);
  }

  lemma ZeroMove(x: Vec)
    ensures Add(x, Zeros(|x|)) == x && Sub(x, x) == Zeros(|x|)
  {}

  /** A feasible proposal is a fixed point: no stage moves it or its corrections. */
  lemma {:induction false} FeasibleIsFixed(sqrt: Root, sets: seq<Convex>, x0: Vec, j: nat)
    requires IsSqrt(sqrt) && Feasible(sqrt, sets, x0) && j <= |sets|
    ensures Stage(sqrt, sets, Start(sets, x0), j) == Start(sets, x0)
  {
    if j > 0 {
      FeasibleIsFixed(sqrt, sets, x0, j - 1);
      hide Project, Contains;
      ProjectionFixesMembers(sqrt, sets[j - 1], x0);
      ZeroMove(x0);
      var corr := Start(sets, x0).corr;
      assert corr[j - 1 := Zeros(|x0|)] == corr;
    }
  }
}
