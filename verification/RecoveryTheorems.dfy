/** What the recovery laws guarantee: they keep the envelope and the safe set,
    bound the target energy over a streak, and brake to rest. */
module RecoveryTheorems {
  import opened Wrappers
  import opened Numbers
  import opened Vectors
  import opened Barriers
  import opened Projections
  import opened Shields
  import opened Backups

  // ---- Envelope and safe set ---------------------------------------------------

  /** A vector scaled by the ball kernel is inside the ball, exactly. */
  lemma ScaledIntoBall(sqrt: Root, a: Vec, radius: real)
    requires IsSqrt(sqrt) && radius >= 0.0
    ensures Norm(sqrt, Scale(BallScale(Norm(sqrt, a), radius), a)) <= radius
  {
    hide BallScale, Norm;
    NormSquared(sqrt, a);
    BallScaleIsExact(Norm(sqrt, a), radius);
    NormOfMultiple(sqrt, Scale(BallScale(Norm(sqrt, a), radius), a), BallScale(Norm(sqrt, a), radius), a);
  }

  lemma NormOfZeros(sqrt: Root, n: nat)
    requires IsSqrt(sqrt)
    ensures Norm(sqrt, Zeros(n)) == 0.0
  {
    DotZeros(n, Zeros(n));
    NormSquared(sqrt, Zeros(n));
    ZeroSquare(Norm(sqrt, Zeros(n)));
  }

  /** Every backup command is inside its mode's kinematic set, with no tolerance:
      the box for any input at all, the speed ball likewise, the step ball about any
      well-formed position. */
  lemma LawIsInEnvelope(b: Backup, kind: BackupKind, mode: ControlMode, p: seq<Float>, v: seq<Float>, hold: Option<seq<Float>>)
    requires b.Ok() && b.vMax >= 0.0 && b.stepMax >= 0.0
    ensures
      var action := b.Law(kind, mode, p, v, hold);
      && (mode.Effort? ==> forall i :: 0 <= i < |action| ==> RAbs(action[i]) <= b.uMax)
      && (mode.Velocity? ==> Norm(b.sqrt, action) <= b.vMax)
      && (mode.Position? && b.dim > 0 && GoodVector(p, b.dim)
          ==> Norm(b.sqrt, Sub(action, Values(p, b.dim))) <= b.stepMax)
  {
    var target := b.Target(kind, hold);
    match mode
    case Effort =>
    case Velocity =>
      NormOfZeros(b.sqrt, b.CtrlDim());
      if target.Some? && b.CanMove(target.value, p) {
        ScaledIntoBall(b.sqrt, Scale(b.kP, Sub(Values(target.value, b.dim), Values(p, b.dim))), b.vMax);
      }
    case Position =>
      if b.dim > 0 && GoodVector(p, b.dim) {
        var pose := Values(p, b.dim);
        NormOfZeros(b.sqrt, b.dim);
        assert Sub(b.StayLaw(p), pose) == Zeros(b.dim);
        if target.Some? && b.CanMove(target.value, p) {
          var d := Sub(Values(target.value, b.dim), pose);
          ScaledIntoBall(b.sqrt, d, b.stepMax);
          assert Sub(b.PullPosition(Values(target.value, b.dim), pose), pose)
            == Scale(BallScale(Norm(b.sqrt, d), b.stepMax), d);
        }
      }
  }

  /** In a kinematic channel no recovery law leaves the safe set: the next pose is
      in it to within SET_TOL, or the plant does not move at all. */
  lemma LawKeepsSafe(b: Backup, kind: BackupKind, mode: ControlMode, p: seq<Float>, v: seq<Float>, hold: Option<seq<Float>>)
    requires b.Ok() && b.dim > 0 && GoodVector(p, b.dim) && !mode.Effort?
    ensures
      var pose := Values(p, b.dim);
      var next := NextPose(mode, b.dt, pose, b.Law(kind, mode, p, v, hold));
      next == pose || b.SafeAt(next)
  {
    var pose := Values(p, b.dim);
    assert NextPose(Velocity, b.dt, pose, Zeros(b.dim)) == pose;
    assert b.StayLaw(p) == pose;
  }

  // ---- Energy of a retreat or a hold ---------------------------------------------

  datatype Motion = Motion(p: Vec, v: Vec)

  function Pow(x: real, n: nat): real {
    if n == 0 then 1.0 else x * Pow(x, n - 1)
  }

  /** One tick in which the guard admits the pull, its command is what the law
      emits, and the plant takes the exact step. */
  ghost predicate PullTick(b: Backup, g: Vec, s: Motion, s': Motion)
    requires b.Ok() && |g| == b.dim
  {
    && |s.p| == |s.v| == b.dim
    && var u := b.PullEffort(g, s.p, s.v);
      && b.MoveAdmitted(g, s.p, s.v, u)
      && s' == Motion(b.Predicted(s.p, s.v, u), b.PredictedVelocity(s.v, u))
  }

  lemma PullTickIsTheLaw(b: Backup, g: Vec, s: Motion, s': Motion)
    requires b.Ok() && b.dim > 0 && |g| == b.dim && PullTick(b, g, s, s')
    ensures b.EffortLaw(Lift(g), Lift(s.p), Lift(s.v)) == b.PullEffort(g, s.p, s.v)
  {
    ValuesOfLift(g);
    ValuesOfLift(s.p);
    ValuesOfLift(s.v);
    assert Lift(g)[..b.dim] == Lift(g) && Lift(s.p)[..b.dim] == Lift(s.p) && Lift(s.v)[..b.dim] == Lift(s.v);
  }

  ghost function EnergyAt(b: Backup, g: Vec, s: Motion): real
    requires |s.p| == |s.v| == |g| == b.dim
  {
    Energy(b.kP, s.p, s.v, g, b.dim)
  }

  lemma PullTickFacts(b: Backup, g: Vec, s: Motion, s': Motion)
    requires b.Ok() && |g| == b.dim && PullTick(b, g, s, s')
    ensures |s.p| == |s.v| == |s'.p| == |s'.v| == b.dim && b.SafeAt(s'.p)
    ensures EnergyAt(b, g, s') <= EnergyAt(b, g, s) * (1.0 + DIST_TOL) + DIST_TOL
  {}

  ghost predicate Streak(b: Backup, g: Vec, s: seq<Motion>)
    requires b.Ok() && |g| == b.dim
  {
    && |s| > 0 && |s[0].p| == |s[0].v| == b.dim
    && forall k: nat :: k + 1 < |s| ==> PullTick(b, g, s[k], s[k + 1])
  }

  /** Along any streak of admitted pulls the energy grows by at most the slack each
      tick, and every position reached is in the safe set. */
  lemma {:induction false} StreakEnergy(b: Backup, g: Vec, s: seq<Motion>)
    requires b.Ok() && |g| == b.dim && Streak(b, g, s)
    ensures forall k :: 0 <= k < |s| ==> |s[k].p| == |s[k].v| == b.dim
    ensures forall k :: 1 <= k < |s| ==> b.SafeAt(s[k].p)
    ensures EnergyAt(b, g, s[|s| - 1]) + 1.0 <= Pow(1.0 + DIST_TOL, |s| - 1) * (EnergyAt(b, g, s[0]) + 1.0)
    decreases |s|
  {
    hide PullTick, EnergyAt;
    var n: nat := |s| - 1;
    if n > 0 {
      var r := s[..n];
      assert Streak(b, g, r) by {
        assert forall k :: 0 <= k < |r| ==> r[k] == s[k];
      }
      StreakEnergy(b, g, r);
      var m: nat := n - 1;
      assert PullTick(b, g, s[m], s[m + 1]);
      PullTickFacts(b, g, s[m], s[n]);
      assert forall k :: 0 <= k < n ==> s[k] == r[k];
      GrowOneTick(EnergyAt(b, g, s[n]), EnergyAt(b, g, s[m]), Pow(1.0 + DIST_TOL, m), EnergyAt(b, g, s[0]));
    }
  }

  lemma GrowOneTick(next: real, now: real, factor: real, start: real)
    requires next <= now * (1.0 + DIST_TOL) + DIST_TOL
    requires now + 1.0 <= factor * (start + 1.0)
    ensures next + 1.0 <= (1.0 + DIST_TOL) * factor * (start + 1.0)
  {
    var q := 1.0 + DIST_TOL;
    assert next + 1.0 <= q * (now + 1.0);
    assert q * (factor * (start + 1.0)) == q * factor * (start + 1.0);
  }

  // ---- Braking --------------------------------------------------------------------

  /** One axis after one tick of braking under the sampled plant. */
  function BrakeTick(k: real, uMax: real, dt: real, v: real): real
    requires uMax >= 0.0
  {
    StepVelocity(v, BrakeAxis(v, k, uMax), dt)
  }

  function BrakeTicks(k: real, uMax: real, dt: real, v: real, n: nat): real
    requires uMax >= 0.0
  {
    if n == 0 then v else BrakeTick(k, uMax, dt, BrakeTicks(k, uMax, dt, v, n - 1))
  }

  lemma BrakeTickBound(k: real, uMax: real, dt: real, v: real)
    requires k >= 0.0 && uMax >= 0.0 && dt > 0.0 && k * dt <= 2.0
    ensures RAbs(BrakeTick(k, uMax, dt, v)) <= RAbs(v)
  {
    BrakeTickRange(k, uMax, dt, v, 2.0);
  }

  /** The brake takes between nothing and c times the velocity off it, if the gain
      times the period is at most c. */
  lemma BrakeTickRange(k: real, uMax: real, dt: real, v: real, c: real)
    requires k >= 0.0 && uMax >= 0.0 && dt > 0.0 && k * dt <= c
    ensures
      var v' := BrakeTick(k, uMax, dt, v);
      && (v >= 0.0 ==> v - c * v <= v' <= v)
      && (v <= 0.0 ==> v <= v' <= v - c * v)
  {
    hide BrakeTick;
    if v >= 0.0 {
      ForwardTickRange(k, uMax, dt, v, c);
    }
    if v <= 0.0 {
      BrakeTickIsOdd(k, uMax, dt, v);
      ForwardTickRange(k, uMax, dt, -v, c);
      assert c * -v == -(c * v);
    }
  }

  /** Braking treats both directions of travel alike. */
  lemma BrakeTickIsOdd(k: real, uMax: real, dt: real, v: real)
    requires uMax >= 0.0
    ensures BrakeTick(k, uMax, dt, -v) == -BrakeTick(k, uMax, dt, v)
  {
    var u := BrakeAxis(v, k, uMax);
    assert -k * -v == -(-k * v);
    assert BrakeAxis(-v, k, uMax) == -u;
    assert -u * dt == -(u * dt);
  }

  /** Travelling forwards, the brake takes off k*v or u_max, whichever is less. */
  lemma ForwardTick(k: real, uMax: real, dt: real, v: real)
    requires k >= 0.0 && uMax >= 0.0 && v >= 0.0
    ensures BrakeTick(k, uMax, dt, v) == v + -RMin(k * v, uMax) * dt
  {
    assert -k * v == -(k * v);
    NonnegProduct(k, v);
  }

  lemma ForwardTickRange(k: real, uMax: real, dt: real, v: real, c: real)
    requires k >= 0.0 && uMax >= 0.0 && dt > 0.0 && k * dt <= c && v >= 0.0
    ensures v - c * v <= BrakeTick(k, uMax, dt, v) <= v
  {
    var u := BrakeAxis(v, k, uMax);
    GainBound(k, dt, v, c);
    assert -k * v == -(k * v);
    hide Clamp;
    OrderedScaling(-(k * v), u, 0.0, dt);
    assert -(k * v) * dt == -((k * v) * dt);
  }

  lemma GainBound(k: real, dt: real, a: real, c: real)
    requires k >= 0.0 && a >= 0.0 && k * dt <= c
    ensures k * a >= 0.0 && (k * a) * dt <= c * a
  {
    assert (c - k * dt) * a >= 0.0;
    assert (c - k * dt) * a == c * a - (k * a) * dt;
  }

  lemma OrderedScaling(x: real, y: real, z: real, dt: real)
    requires x <= y <= z && dt > 0.0
    ensures x * dt <= y * dt <= z * dt
  {
    assert (y - x) * dt >= 0.0 && (z - y) * dt >= 0.0;
  }

  /** Sampled braking never speeds an axis up exactly when k_brake*dt is at most 2;
      the continuous-time argument has no such bound. */
  lemma BrakingNeverSpeedsUpIff(k: real, uMax: real, dt: real)
    requires k >= 0.0 && uMax > 0.0 && dt > 0.0
    ensures (forall v: real :: RAbs(BrakeTick(k, uMax, dt, v)) <= RAbs(v)) <==> k * dt <= 2.0
  {
    if k * dt <= 2.0 {
      forall v: real ensures RAbs(BrakeTick(k, uMax, dt, v)) <= RAbs(v) {
        BrakeTickBound(k, uMax, dt, v);
      }
    } else {
      SpeedsUpWitness(k, uMax, dt);
    }
  }

  /** The fastest unsaturated velocity overshoots past its mirror image. */
  lemma SpeedsUpWitness(k: real, uMax: real, dt: real)
    requires k >= 0.0 && uMax > 0.0 && dt > 0.0 && k * dt > 2.0
    ensures k > 0.0 && RAbs(BrakeTick(k, uMax, dt, uMax / k)) > RAbs(uMax / k)
  {
    EdgeTick(k, uMax, dt);
    PositiveExcess(k * dt, 2.0, uMax / k);
  }

  /** The fastest velocity the brake does not saturate on becomes 1 - k*dt times itself. */
  lemma EdgeTick(k: real, uMax: real, dt: real)
    requires k >= 0.0 && uMax > 0.0 && dt > 0.0 && k * dt > 0.0
    ensures k > 0.0 && uMax / k > 0.0
    ensures BrakeTick(k, uMax, dt, uMax / k) == uMax / k - (k * dt) * (uMax / k)
  {
    var v := uMax / k;
    assert k * v == uMax;
    NonposFactor(-v, k);
    assert -k * v == -uMax;
    assert (k * dt) * v == (k * v) * dt;
  }

  lemma PositiveExcess(x: real, c: real, v: real)
    requires x > c && v > 0.0
    ensures x * v > c * v
  {
    assert (x - c) * v > 0.0;
  }

  /** The axis keeps its direction of travel. */
  predicate NoReversal(v: real, v': real) {
    (v >= 0.0 ==> v' >= 0.0) && (v <= 0.0 ==> v' <= 0.0)
  }

  lemma BrakeTickKeepsDirection(k: real, uMax: real, dt: real, v: real)
    requires k >= 0.0 && uMax >= 0.0 && dt > 0.0 && k * dt <= 1.0
    ensures NoReversal(v, BrakeTick(k, uMax, dt, v))
  {
    BrakeTickRange(k, uMax, dt, v, 1.0);
  }

  /** It never reverses an axis exactly when k_brake*dt is at most 1. */
  lemma BrakingNeverReversesIff(k: real, uMax: real, dt: real)
    requires k >= 0.0 && uMax > 0.0 && dt > 0.0
    ensures (forall v: real :: NoReversal(v, BrakeTick(k, uMax, dt, v))) <==> k * dt <= 1.0
  {
    if k * dt <= 1.0 {
      forall v: real ensures NoReversal(v, BrakeTick(k, uMax, dt, v)) {
        BrakeTickKeepsDirection(k, uMax, dt, v);
      }
    } else {
      EdgeTick(k, uMax, dt);
      PositiveExcess(k * dt, 1.0, uMax / k);
      assert !NoReversal(uMax / k, BrakeTick(k, uMax, dt, uMax / k));
    }
  }

  /** While the brake is saturated each tick takes exactly u_max*dt off the speed, so
      the saturated phase lasts at most |v|/(u_max*dt) ticks. */
  lemma {:induction false} SaturatedPhaseEnds(k: real, uMax: real, dt: real, v: real, n: nat)
    requires k >= 0.0 && uMax > 0.0 && dt > 0.0 && k * dt <= 1.0
    requires forall i: nat :: i < n ==> k * RAbs(BrakeTicks(k, uMax, dt, v, i)) > uMax
    ensures RAbs(BrakeTicks(k, uMax, dt, v, n)) == RAbs(v) - n as real * (uMax * dt)
    ensures n as real * (uMax * dt) <= RAbs(v)
  {
    hide BrakeTick, RAbs;
    if n > 0 {
      SaturatedPhaseEnds(k, uMax, dt, v, n - 1);
      var w := BrakeTicks(k, uMax, dt, v, n - 1);
      SaturatedTick(k, uMax, dt, w);
      OneMore(n, uMax * dt);
    }
    AbsNonneg(BrakeTicks(k, uMax, dt, v, n));
  }

  lemma AbsNonneg(x: real)
    ensures RAbs(x) >= 0.0
  {}

  lemma OneMore(n: nat, x: real)
    requires n > 0
    ensures n as real * x == (n - 1) as real * x + x
  {}

  lemma SaturatedTick(k: real, uMax: real, dt: real, w: real)
    requires k >= 0.0 && uMax > 0.0 && dt > 0.0 && k * dt <= 1.0 && k * RAbs(w) > uMax
    ensures RAbs(BrakeTick(k, uMax, dt, w)) == RAbs(w) - uMax * dt
  {
    BrakeTickKeepsDirection(k, uMax, dt, w);
    if w >= 0.0 {
      assert -k * w == -(k * w);
    } else {
      assert -k * w == k * -w;
    }
  }

  /** Once unsaturated, braking contracts the velocity by exactly 1 - k_brake*dt per
      tick, forever. */
  lemma {:induction false} UnsaturatedContraction(k: real, uMax: real, dt: real, v: real, n: nat)
    requires k >= 0.0 && uMax > 0.0 && dt > 0.0 && k * dt <= 1.0 && k * RAbs(v) <= uMax
    ensures BrakeTicks(k, uMax, dt, v, n) == Pow(1.0 - k * dt, n) * v
    ensures k * RAbs(BrakeTicks(k, uMax, dt, v, n)) <= uMax
  {
    hide BrakeTick, RAbs;
    if n > 0 {
      UnsaturatedContraction(k, uMax, dt, v, n - 1);
      var w := BrakeTicks(k, uMax, dt, v, n - 1);
      UnsaturatedTick(k, uMax, dt, w);
      BrakeTickBound(k, uMax, dt, w);
      OrderedGain(k, RAbs(BrakeTick(k, uMax, dt, w)), RAbs(w));
      PowStep(1.0 - k * dt, n, v);
    }
  }

  lemma PowStep(q: real, n: nat, v: real)
    requires n > 0
    ensures q * (Pow(q, n - 1) * v) == Pow(q, n) * v
  {}

  lemma OrderedGain(k: real, x: real, y: real)
    requires k >= 0.0 && x <= y
    ensures k * x <= k * y
  {
    assert k * (y - x) >= 0.0;
  }

  lemma UnsaturatedTick(k: real, uMax: real, dt: real, w: real)
    requires k >= 0.0 && uMax > 0.0 && k * RAbs(w) <= uMax
    ensures BrakeTick(k, uMax, dt, w) == (1.0 - k * dt) * w
  {
    assert k * -w == -(k * w) && -k * w == -(k * w);
    assert (k * dt) * w == (k * w) * dt;
  }

  lemma {:induction false} TicksCompose(k: real, uMax: real, dt: real, v: real, m: nat, n: nat)
    requires uMax >= 0.0
    ensures BrakeTicks(k, uMax, dt, v, m + n) == BrakeTicks(k, uMax, dt, BrakeTicks(k, uMax, dt, v, m), n)
  {
    hide BrakeTick;
    if n > 0 {
      TicksCompose(k, uMax, dt, v, m, n - 1);
    }
  }

  /** From any speed the saturated phase is over after some m ticks, m being at most
      |v|/(u_max*dt), and from then on the velocity is the geometric one, forever. */
  lemma BrakingSettles(k: real, uMax: real, dt: real, v: real) returns (m: nat)
    requires k >= 0.0 && uMax > 0.0 && dt > 0.0 && k * dt <= 1.0
    ensures m as real * (uMax * dt) <= RAbs(v)
    ensures forall i: nat :: i < m ==> k * RAbs(BrakeTicks(k, uMax, dt, v, i)) > uMax
    ensures k * RAbs(BrakeTicks(k, uMax, dt, v, m)) <= uMax
    ensures forall n: nat :: IsGeometric(k, uMax, dt, v, m, n)
  {
    hide BrakeTicks, RAbs, Pow;
    m := SaturatedTicks(k, uMax, dt, v);
    SaturatedPhaseEnds(k, uMax, dt, v, m);
    forall n: nat ensures IsGeometric(k, uMax, dt, v, m, n) {
      TicksCompose(k, uMax, dt, v, m, n);
      UnsaturatedContraction(k, uMax, dt, BrakeTicks(k, uMax, dt, v, m), n);
    }
  }

  /** n ticks after tick m the velocity is 1 - k*dt, n times over, what it was then. */
  predicate IsGeometric(k: real, uMax: real, dt: real, v: real, m: nat, n: nat)
    requires uMax >= 0.0
  {
    BrakeTicks(k, uMax, dt, v, m + n) == Pow(1.0 - k * dt, n) * BrakeTicks(k, uMax, dt, v, m)
  }

  /** How many ticks the saturated phase lasts. */
  lemma SaturatedTicks(k: real, uMax: real, dt: real, v: real) returns (m: nat)
    requires k >= 0.0 && uMax > 0.0 && dt > 0.0 && k * dt <= 1.0
    ensures forall i: nat :: i < m ==> k * RAbs(BrakeTicks(k, uMax, dt, v, i)) > uMax
    ensures k * RAbs(BrakeTicks(k, uMax, dt, v, m)) <= uMax
  {
    hide BrakeTicks, RAbs;
    AbsNonneg(v);
    NonnegStep(uMax, dt);
    var bound := TicksBound(RAbs(v), uMax * dt);
    m := 0;
    while m < bound && k * RAbs(BrakeTicks(k, uMax, dt, v, m)) > uMax
      invariant m <= bound
      invariant forall i: nat :: i < m ==> k * RAbs(BrakeTicks(k, uMax, dt, v, i)) > uMax
    {
      m := m + 1;
    }
    SaturatedPhaseEnds(k, uMax, dt, v, m);
  }

  lemma NonnegStep(x: real, y: real)
    requires x > 0.0 && y > 0.0
    ensures x * y > 0.0
  {}

  /** A number of steps that no speed a can take. */
  lemma TicksBound(a: real, step: real) returns (bound: nat)
    requires a >= 0.0 && step > 0.0
    ensures bound as real * step > a
  {
    var q := a / step;
    bound := q.Floor + 1;
    assert q * step == a;
    assert (bound as real - q) * step > 0.0;
  }

  /** n ticks at rate c have brought `from` down to at most itself over 1 + n*c. */
  predicate FallenOff(from: real, now: real, n: nat, c: real) { (1.0 + n as real * c) * now <= from }

  /** n ticks after tick m the speed has fallen off so from that of v. */
  predicate Rests(k: real, uMax: real, dt: real, v: real, m: nat, n: nat)
    requires uMax >= 0.0
  {
    FallenOff(RAbs(v), RAbs(BrakeTicks(k, uMax, dt, v, m + n)), n, k * dt)
  }

  /** And the axis comes to rest: n ticks into the second phase the speed is at most
      the first one divided by 1 + n*k_brake*dt. */
  lemma BrakingComesToRest(k: real, uMax: real, dt: real, v: real) returns (m: nat)
    requires k >= 0.0 && uMax > 0.0 && dt > 0.0 && k * dt <= 1.0
    ensures m as real * (uMax * dt) <= RAbs(v)
    ensures forall n: nat :: Rests(k, uMax, dt, v, m, n)
  {
    hide BrakeTicks, Pow;
    m := BrakingSettles(k, uMax, dt, v);
    SpeedOnlyFalls(k, uMax, dt, v, m);
    NonnegProduct(k, dt);
    forall n: nat ensures Rests(k, uMax, dt, v, m, n) {
      assert IsGeometric(k, uMax, dt, v, m, n);
      GeometricRests(k, uMax, dt, v, m, n);
    }
  }

  lemma GeometricRests(k: real, uMax: real, dt: real, v: real, m: nat, n: nat)
    requires uMax >= 0.0 && 0.0 <= k * dt <= 1.0 && IsGeometric(k, uMax, dt, v, m, n)
    requires RAbs(BrakeTicks(k, uMax, dt, v, m)) <= RAbs(v)
    ensures Rests(k, uMax, dt, v, m, n)
  {
    hide BrakeTicks, Pow;
    PowBound(1.0 - k * dt, n);
    NonnegProduct(n as real, k * dt);
    ScaledDown(1.0 + n as real * (k * dt), Pow(1.0 - k * dt, n), BrakeTicks(k, uMax, dt, v, m),
      BrakeTicks(k, uMax, dt, v, m + n));
  }

  lemma NonnegProduct(x: real, y: real)
    requires x >= 0.0 && y >= 0.0
    ensures x * y >= 0.0
  {}

  lemma {:induction false} SpeedOnlyFalls(k: real, uMax: real, dt: real, v: real, n: nat)
    requires k >= 0.0 && uMax >= 0.0 && dt > 0.0 && k * dt <= 2.0
    ensures RAbs(BrakeTicks(k, uMax, dt, v, n)) <= RAbs(v)
  {
    hide BrakeTick, RAbs;
    if n > 0 {
      SpeedOnlyFalls(k, uMax, dt, v, n - 1);
      BrakeTickBound(k, uMax, dt, BrakeTicks(k, uMax, dt, v, n - 1));
    }
  }

  lemma {:induction false} PowBound(q: real, n: nat)
    requires 0.0 <= q <= 1.0
    ensures Pow(q, n) >= 0.0 && (1.0 + n as real * (1.0 - q)) * Pow(q, n) <= 1.0
  {
    PowNext(q, n);
    hide Pow;
    if n > 0 {
      PowBound(q, n - 1);
      var p, c, m := Pow(q, n - 1), 1.0 - q, (n - 1) as real;
      NonnegProduct(q, p);
      NonnegProduct(c, c);
      NonnegProduct(n as real, c * c);
      NonnegProduct(n as real * (c * c), p);
      Widened(n as real, m, c);
      OneTickDown(1.0 + n as real * c, q, p, 1.0 + m * c, n as real * (c * c));
    }
  }

  lemma PowNext(q: real, n: nat)
    ensures Pow(q, n) == if n == 0 then 1.0 else q * Pow(q, n - 1)
  {}

  lemma Widened(n: real, m: real, c: real)
    requires m == n - 1.0
    ensures (1.0 + n * c) * (1.0 - c) == (1.0 + m * c) - n * (c * c)
  {}

  lemma OneTickDown(x: real, q: real, p: real, y: real, z: real)
    requires x * q == y - z && z * p >= 0.0 && y * p <= 1.0
    ensures x * (q * p) <= 1.0
  {
    assert x * (q * p) == (x * q) * p;
    assert (y - z) * p == y * p - z * p;
  }

  lemma ScaledDown(a: real, p: real, v: real, w: real)
    requires a >= 0.0 && p >= 0.0 && a * p <= 1.0 && w == p * v
    ensures a * RAbs(w) <= RAbs(v)
  {
    var x := RAbs(v);
    assert RAbs(w) == p * x by {
      if v >= 0.0 {
        NonnegProduct(p, v);
      } else {
        NonnegProduct(p, -v);
        assert p * -v == -(p * v);
      }
    }
    assert a * (p * x) == (a * p) * x;
    assert (1.0 - a * p) * x >= 0.0;
  }

  /** For the whole plant: one tick of the brake law does not increase the speed. */
  lemma BrakeLawSlowsThePlant(b: Backup, v: Vec)
    requires b.Ok() && b.dim > 0 && |v| == b.dim && b.kBrake >= 0.0 && b.kBrake * b.dt <= 2.0
    ensures Norm2(b.PredictedVelocity(v, b.BrakeLaw(Lift(v)))) <= Norm2(v)
  {
    var w := b.PredictedVelocity(v, b.BrakeLaw(Lift(v)));
    forall i | 0 <= i < |v| ensures RAbs(w[i]) <= RAbs(v[i]) {
      BrakeTickBound(b.kBrake, b.uMax, b.dt, v[i]);
    }
    AxesSlower(w, v, |v|);
  }

  lemma {:induction false} AxesSlower(w: Vec, v: Vec, n: nat)
    requires n <= |w| == |v| && forall i :: 0 <= i < n ==> RAbs(w[i]) <= RAbs(v[i])
    ensures DotN(w, w, n) <= DotN(v, v, n)
  {
    if n > 0 {
      AxesSlower(w, v, n - 1);
      var x, y := w[n - 1], v[n - 1];
      assert (RAbs(y) - RAbs(x)) * (RAbs(y) + RAbs(x)) >= 0.0;
      assert (RAbs(y) - RAbs(x)) * (RAbs(y) + RAbs(x)) == y * y - x * x;
    }
  }
}
