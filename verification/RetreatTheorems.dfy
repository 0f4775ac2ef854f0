/** Where the guarded pulls lead: every admitted pull closes on its target, in the
    Position channel by a full step a tick. */
module RetreatTheorems {
  import opened Wrappers
  import opened Numbers
  import opened Vectors
  import opened Barriers
  import opened Projections
  import opened Backups
  import opened RecoveryTheorems

  function Distance(sqrt: Root, a: Vec, b: Vec): real
    requires |a| == |b|
  {
    Norm(sqrt, Sub(a, b))
  }

  /** A vector s times another is |s| times as long. */
  lemma ScaledLength(sqrt: Root, c: Vec, s: real, a: Vec)
    requires IsSqrt(sqrt) && Multiple(c, s, a)
    ensures Norm(sqrt, c) == RAbs(s) * Norm(sqrt, a)
  {
    hide Norm;
    Norm2Multiple(c, s, a);
    NormSquared(sqrt, c);
    NormSquared(sqrt, a);
    var len := Norm(sqrt, a);
    SquareOfProduct(s, len);
    SquareOrder(Norm(sqrt, c), RAbs(s) * len);
    SquareOrder(RAbs(s) * len, Norm(sqrt, c));
  }

  lemma SquareOfProduct(s: real, x: real)
    requires x >= 0.0
    ensures RAbs(s) * x >= 0.0 && (RAbs(s) * x) * (RAbs(s) * x) == s * s * (x * x)
  {}

  // ---- Position ------------------------------------------------------------------------

  /** A position pull ends on the segment to the target, one full step closer, or on
      the target itself. */
  lemma PositionPullApproaches(b: Backup, g: Vec, p: Vec)
    requires b.Ok() && b.stepMax >= 0.0 && |g| == |p|
    ensures Distance(b.sqrt, b.PullPosition(g, p), g) == RMax(0.0, Distance(b.sqrt, p, g) - b.stepMax)
  {
    var far := Norm(b.sqrt, Sub(g, p));
    var s := BallScale(far, b.stepMax);
    PositionLeftover(b, g, p);
    hide Backup.PullPosition, Norm, BallScale, Sub, Multiple;
    NormSquared(b.sqrt, Sub(g, p));
    BallScaleIsExact(far, b.stepMax);
    ScaledLength(b.sqrt, Sub(b.PullPosition(g, p), g), 1.0 - s, Sub(p, g));
    SameDistance(b.sqrt, p, g);
    CloserBy(s, far, b.stepMax);
  }

  lemma PositionLeftover(b: Backup, g: Vec, p: Vec)
    requires |g| == |p|
    ensures Multiple(Sub(b.PullPosition(g, p), g), 1.0 - BallScale(Norm(b.sqrt, Sub(g, p)), b.stepMax), Sub(p, g))
  {
    hide Norm, BallScale;
    var s := BallScale(Norm(b.sqrt, Sub(g, p)), b.stepMax);
    forall i | 0 <= i < |p| ensures Sub(b.PullPosition(g, p), g)[i] == (1.0 - s) * Sub(p, g)[i] {
      Leftover(p[i], g[i], s);
    }
  }

  lemma SameDistance(sqrt: Root, a: Vec, b: Vec)
    requires IsSqrt(sqrt) && |a| == |b|
    ensures Distance(sqrt, a, b) == Distance(sqrt, b, a)
  {
    hide Norm;
    assert Multiple(Sub(a, b), -1.0, Sub(b, a));
    ScaledLength(sqrt, Sub(a, b), -1.0, Sub(b, a));
  }

  lemma CloserBy(s: real, far: real, step: real)
    requires 0.0 <= s <= 1.0 && far >= 0.0 && step >= 0.0 && far * s == (if far <= step then far else step)
    ensures RAbs(1.0 - s) * far == RMax(0.0, far - step)
  {
    assert (1.0 - s) * far == far - far * s;
  }

  lemma Leftover(p: real, g: real, s: real)
    ensures (p + s * (g - p)) - g == (1.0 - s) * (p - g)
  {}

  /** A streak of ticks in which the guard admits the position pull. */
  ghost predicate PositionStreak(b: Backup, g: Vec, poses: seq<Vec>)
    requires b.Ok() && |g| == b.dim
  {
    && |poses| > 0 && (forall k :: 0 <= k < |poses| ==> |poses[k]| == b.dim)
    && forall k: nat :: k + 1 < |poses| ==> StepsTo(b, g, poses[k], poses[k + 1])
  }

  ghost predicate StepsTo(b: Backup, g: Vec, p: Vec, q: Vec)
    requires b.Ok() && |g| == |p| == b.dim
  {
    q == b.PullPosition(g, p) && b.SafeAt(q)
  }

  lemma StepIsTheLaw(b: Backup, g: Vec, p: Vec, q: Vec)
    requires b.Ok() && b.dim > 0 && |g| == |p| == b.dim && StepsTo(b, g, p, q)
    ensures b.PositionLaw(Lift(g), Lift(p)) == q
  {
    ValuesOfLift(g);
    ValuesOfLift(p);
    assert Lift(g)[..b.dim] == Lift(g) && Lift(p)[..b.dim] == Lift(p);
  }

  /** A distance with n steps gone, or none left. */
  function Remaining(far: real, n: nat, step: real): real { RMax(0.0, far - n as real * step) }

  /** After n admitted pulls exactly n steps of the distance are gone: a retreat or a
      hold reaches its target after ceil(distance / step) of them and then stays. */
  lemma {:induction false} PositionRetreatArrives(b: Backup, g: Vec, poses: seq<Vec>)
    requires b.Ok() && |g| == b.dim && b.stepMax >= 0.0 && PositionStreak(b, g, poses)
    ensures Distance(b.sqrt, poses[|poses| - 1], g) == Remaining(Distance(b.sqrt, poses[0], g), |poses| - 1, b.stepMax)
    decreases |poses|
  {
    assert IsSqrt(b.sqrt);
    hide PositionStreak, StepsTo, Distance, Remaining;
    StreakParts(b, g, poses);
    var n: nat := |poses| - 1;
    if n == 0 {
      StartDistance(b.sqrt, poses[0], g, b.stepMax);
    } else {
      PositionRetreatArrives(b, g, poses[..n]);
      StepApproaches(b, g, poses[n - 1], poses[n]);
      OneMoreStep(n, b.stepMax, Distance(b.sqrt, poses[0], g));
    }
  }

  lemma StreakParts(b: Backup, g: Vec, poses: seq<Vec>)
    requires b.Ok() && |g| == b.dim && PositionStreak(b, g, poses)
    ensures |poses| > 0 && |poses[0]| == |poses[|poses| - 1]| == b.dim
    ensures
      var n := |poses| - 1;
      n > 0 ==> |poses[n - 1]| == b.dim && PositionStreak(b, g, poses[..n]) && StepsTo(b, g, poses[n - 1], poses[n])
  {
    hide StepsTo;
    var n: nat := |poses| - 1;
    if n > 0 {
      var m: nat := n - 1;
      assert StepsTo(b, g, poses[m], poses[m + 1]);
      assert forall k :: 0 <= k < n ==> poses[..n][k] == poses[k];
    }
  }

  lemma StepApproaches(b: Backup, g: Vec, p: Vec, q: Vec)
    requires b.Ok() && b.stepMax >= 0.0 && |g| == |p| == b.dim && StepsTo(b, g, p, q)
    ensures |q| == b.dim && Distance(b.sqrt, q, g) == RMax(0.0, Distance(b.sqrt, p, g) - b.stepMax)
  {
    PositionPullApproaches(b, g, p);
  }

  lemma StartDistance(sqrt: Root, p: Vec, g: Vec, step: real)
    requires IsSqrt(sqrt) && |p| == |g|
    ensures Distance(sqrt, p, g) == Remaining(Distance(sqrt, p, g), 0, step)
  {
    hide Distance;
    DistanceNonneg(sqrt, p, g);
  }

  lemma DistanceNonneg(sqrt: Root, p: Vec, g: Vec)
    requires IsSqrt(sqrt) && |p| == |g|
    ensures Distance(sqrt, p, g) >= 0.0
  {
    NormSquared(sqrt, Sub(p, g));
  }

  lemma OneMoreStep(n: nat, step: real, far: real)
    requires n > 0 && step >= 0.0
    ensures RMax(0.0, Remaining(far, n - 1, step) - step) == Remaining(far, n, step)
  {
    assert n as real * step == (n - 1) as real * step + step;
    assert (n - 1) as real * step >= 0.0;
  }

  // ---- Velocity -----------------------------------------------------------------------------

  /** What is left of the offset from the target after one velocity pull. */
  function Left(b: Backup, far: real): real { LeftOf(BallScale(b.kP * far, b.vMax), b.kP, b.dt) }

  function LeftOf(s: real, kP: real, dt: real): real { 1.0 - s * (kP * dt) }

  /** The distance after one velocity pull from distance far. */
  function Closing(b: Backup, far: real): real { RAbs(Left(b, far)) * far }

  lemma VelocityPullScales(b: Backup, g: Vec, p: Vec)
    requires b.Ok() && b.vMax >= 0.0 && b.kP >= 0.0 && |g| == |p|
    ensures
      var q := NextPose(Velocity, b.dt, p, b.PullVelocity(g, p));
      Distance(b.sqrt, q, g) == Closing(b, Distance(b.sqrt, p, g))
  {
    var far := Distance(b.sqrt, p, g);
    VelocityLeftover(b, g, p);
    hide Backup.PullVelocity, NextPose, Norm, Left, Sub, Multiple;
    ScaledLength(b.sqrt, Sub(NextPose(Velocity, b.dt, p, b.PullVelocity(g, p)), g), Left(b, far), Sub(p, g));
  }

  lemma VelocityLeftover(b: Backup, g: Vec, p: Vec)
    requires b.Ok() && b.kP >= 0.0 && |g| == |p|
    ensures Multiple(
      Sub(NextPose(Velocity, b.dt, p, b.PullVelocity(g, p)), g), Left(b, Distance(b.sqrt, p, g)), Sub(p, g))
  {
    hide Distance, Backup.PullVelocity, Left;
    var q := NextPose(Velocity, b.dt, p, b.PullVelocity(g, p));
    forall i | 0 <= i < |p| ensures Sub(q, g)[i] == Left(b, Distance(b.sqrt, p, g)) * Sub(p, g)[i] {
      EntryLeft(b, g, p, i);
    }
  }

  lemma EntryLeft(b: Backup, g: Vec, p: Vec, i: nat)
    requires b.Ok() && b.kP >= 0.0 && i < |g| == |p|
    ensures (p[i] + b.PullVelocity(g, p)[i] * b.dt) - g[i] == Left(b, Distance(b.sqrt, p, g)) * (p[i] - g[i])
  {
    hide Backup.PullVelocity, Distance;
    EntryPulled(b, g, p, i);
    var far := Distance(b.sqrt, p, g);
    Unroll(b.PullVelocity(g, p)[i], Left(b, far), p[i], g[i], BallScale(b.kP * far, b.vMax), b.kP, b.dt);
  }

  /** A gap times the gain, capped by a scale. */
  function Pulled(s: real, kP: real, gap: real): real { s * (kP * gap) }

  lemma EntryPulled(b: Backup, g: Vec, p: Vec, i: nat)
    requires b.Ok() && b.kP >= 0.0 && i < |g| == |p|
    ensures b.PullVelocity(g, p)[i]
      == Pulled(BallScale(b.kP * Distance(b.sqrt, p, g), b.vMax), b.kP, g[i] - p[i])
  {
    PullLength(b, g, p);
    var pull := Scale(b.kP, Sub(g, p));
    assert pull[i] == b.kP * (g[i] - p[i]);
  }

  lemma PullLength(b: Backup, g: Vec, p: Vec)
    requires b.Ok() && b.kP >= 0.0 && |g| == |p|
    ensures Norm(b.sqrt, Scale(b.kP, Sub(g, p))) == b.kP * Distance(b.sqrt, p, g)
  {
    SameDistance(b.sqrt, g, p);
    hide Norm;
    ScaledLength(b.sqrt, Scale(b.kP, Sub(g, p)), b.kP, Sub(g, p));
  }

  lemma Unroll(w: real, left: real, p: real, g: real, s: real, kP: real, dt: real)
    requires w == Pulled(s, kP, g - p) && left == LeftOf(s, kP, dt)
    ensures (p + w * dt) - g == left * (p - g)
  {
    assert s * (kP * (g - p)) * dt == s * (kP * dt) * (g - p);
  }

  /** A velocity pull never moves away from its target, from whatever pose, exactly
      when k_p*dt is at most 2. */
  lemma VelocityPullApproachesIff(b: Backup)
    requires b.Ok() && b.dim > 0 && b.vMax > 0.0 && b.kP >= 0.0
    ensures (forall g: Vec, p: Vec :: |g| == |p| == b.dim ==> Approaches(b, g, p)) <==> b.kP * b.dt <= 2.0
  {
    hide Backup.PullVelocity, Approaches;
    if b.kP * b.dt <= 2.0 {
      forall g: Vec, p: Vec | |g| == |p| == b.dim ensures Approaches(b, g, p) {
        PullApproaches(b, g, p);
      }
    } else {
      var g, p := Overshoots(b);
      assert !Approaches(b, g, p);
    }
  }

  lemma PullApproaches(b: Backup, g: Vec, p: Vec)
    requires b.Ok() && b.vMax > 0.0 && b.kP >= 0.0 && b.kP * b.dt <= 2.0 && |g| == |p|
    ensures Approaches(b, g, p)
  {
    hide Backup.PullVelocity, Distance, Closing, NextPose;
    VelocityPullScales(b, g, p);
    DistanceNonneg(b.sqrt, p, g);
    StaysInReach(b, Distance(b.sqrt, p, g));
  }

  ghost predicate Approaches(b: Backup, g: Vec, p: Vec)
    requires b.Ok() && |g| == |p|
  {
    Distance(b.sqrt, NextPose(Velocity, b.dt, p, b.PullVelocity(g, p)), g) <= Distance(b.sqrt, p, g)
  }

  lemma StaysInReach(b: Backup, far: real)
    requires b.dt > 0.0 && b.vMax >= 0.0 && b.kP >= 0.0 && far >= 0.0 && b.kP * b.dt <= 2.0
    ensures Closing(b, far) <= far
  {
    assert b.kP * far >= 0.0;
    BallScaleIsExact(b.kP * far, b.vMax);
    LeftIsSmall(BallScale(b.kP * far, b.vMax), b.kP, b.dt);
    Shrinks(Left(b, far), far);
  }

  lemma LeftIsSmall(s: real, kP: real, dt: real)
    requires 0.0 <= s <= 1.0 && kP >= 0.0 && dt > 0.0 && kP * dt <= 2.0
    ensures -1.0 <= LeftOf(s, kP, dt) <= 1.0
  {
    var c := kP * dt;
    NonnegProduct(kP, dt);
    NonnegProduct(s, c);
    NonnegProduct(1.0 - s, c);
    assert (1.0 - s) * c == c - s * c;
  }

  lemma Shrinks(x: real, far: real)
    requires -1.0 <= x <= 1.0 && far >= 0.0
    ensures RAbs(x) * far <= far
  {
    assert (1.0 - RAbs(x)) * far >= 0.0;
  }

  /** From a pose whose pull is not capped, a gain above the bound overshoots. */
  lemma Overshoots(b: Backup) returns (g: Vec, p: Vec)
    requires b.Ok() && b.dim > 0 && b.vMax > 0.0 && b.kP >= 0.0 && b.kP * b.dt > 2.0
    ensures |g| == |p| == b.dim && !Approaches(b, g, p)
  {
    if b.kP <= 0.0 {
      NonposFactor(b.kP, b.dt);
    }
    var far := b.vMax / b.kP;
    assert b.kP * far == b.vMax && far > 0.0;
    g := Zeros(b.dim);
    p := seq(b.dim, i requires 0 <= i < b.dim => if i == 0 then far else 0.0);
    assert Sub(p, g) == p;
    AxisLength(b.sqrt, p, far);
    ClosesBeyond(b, far);
    VelocityPullScales(b, g, p);
    hide Closing, NextPose, Backup.PullVelocity;
    assert !Approaches(b, g, p);
  }

  lemma ClosesBeyond(b: Backup, far: real)
    requires b.kP * far == b.vMax > 0.0 && far > 0.0 && b.kP * b.dt > 2.0
    ensures Closing(b, far) > far
  {
    BallScaleIsExact(b.vMax, b.vMax);
    assert Left(b, far) == 1.0 - 1.0 * (b.kP * b.dt);
    assert (RAbs(Left(b, far)) - 1.0) * far > 0.0;
  }

  lemma AxisLength(sqrt: Root, p: Vec, x: real)
    requires IsSqrt(sqrt) && |p| > 0 && x >= 0.0
    requires forall i :: 0 <= i < |p| ==> p[i] == if i == 0 then x else 0.0
    ensures Norm(sqrt, p) == x
  {
    AxisSquare(p, x, |p|);
    NormSquared(sqrt, p);
    SquareOrder(Norm(sqrt, p), x);
    SquareOrder(x, Norm(sqrt, p));
  }

  lemma {:induction false} AxisSquare(p: Vec, x: real, n: nat)
    requires 0 < n <= |p| && forall i :: 0 <= i < |p| ==> p[i] == if i == 0 then x else 0.0
    ensures DotN(p, p, n) == x * x
  {
    if n > 1 {
      AxisSquare(p, x, n - 1);
    } else {
      assert DotN(p, p, 0) == 0.0;
    }
  }

  /** The emitted command, pull or stop, leaves the plant no farther from the target. */
  ghost predicate LawApproaches(b: Backup, g: Vec, p: Vec)
    requires b.Ok() && b.dim > 0 && |g| == |p| == b.dim
  {
    Distance(b.sqrt, NextPose(Velocity, b.dt, p, b.VelocityLaw(Lift(g), Lift(p))), g) <= Distance(b.sqrt, p, g)
  }

  /** The same controller with other keep-outs. */
  function Among(b: Backup, keepOuts: seq<Barrier>): Backup { b.(barriers := keepOuts) }

  /** With the guard in place the bound is the same: whatever the keep-outs, the goal
      and the pose, the command a velocity retreat or hold emits never moves away from
      its target, exactly when k_p*dt is at most 2. */
  lemma VelocityLawApproachesIff(b: Backup)
    requires b.Ok() && b.dim > 0 && b.vMax > 0.0 && b.kP >= 0.0
    ensures
      (forall bs: seq<Barrier>, g: Vec, p: Vec ::
        |g| == |p| == b.dim && Among(b, bs).Ok() ==> LawApproaches(Among(b, bs), g, p))
      <==> b.kP * b.dt <= 2.0
  {
    if b.kP * b.dt <= 2.0 {
      forall bs: seq<Barrier>, g: Vec, p: Vec | |g| == |p| == b.dim && Among(b, bs).Ok()
        ensures LawApproaches(Among(b, bs), g, p)
      {
        LawClosesIn(Among(b, bs), g, p);
      }
    } else {
      var bs, g, p := LawOvershoots(b);
      hide LawApproaches;
      assert |g| == |p| == b.dim && Among(b, bs).Ok();
    }
  }

  lemma LawClosesIn(b: Backup, g: Vec, p: Vec)
    requires b.Ok() && b.dim > 0 && b.vMax > 0.0 && b.kP >= 0.0 && b.kP * b.dt <= 2.0 && |g| == |p| == b.dim
    ensures LawApproaches(b, g, p)
  {
    PullApproaches(b, g, p);
    LawIsPullOrStop(b, g, p);
    hide Backup.VelocityLaw, Backup.PullVelocity, Distance;
    assert NextPose(Velocity, b.dt, p, Zeros(b.dim)) == p;
  }

  lemma LawIsPullOrStop(b: Backup, g: Vec, p: Vec)
    requires b.Ok() && b.dim > 0 && |g| == |p| == b.dim
    ensures b.VelocityLaw(Lift(g), Lift(p)) == (
      if b.SafeAt(NextPose(Velocity, b.dt, p, b.PullVelocity(g, p))) then b.PullVelocity(g, p) else Zeros(b.dim))
  {
    hide Backup.PullVelocity, NextPose;
    ValuesOfLift(g);
    ValuesOfLift(p);
    assert Lift(g)[..b.dim] == Lift(g) && Lift(p)[..b.dim] == Lift(p);
  }

  /** One keep-out, a half-space well clear of the overshot pose: the guard admits
      the pull, and the law itself moves away. */
  lemma LawOvershoots(b: Backup) returns (bs: seq<Barrier>, g: Vec, p: Vec)
    requires b.Ok() && b.dim > 0 && b.vMax > 0.0 && b.kP >= 0.0 && b.kP * b.dt > 2.0
    ensures |bs| == 1 && |g| == |p| == b.dim && Among(b, bs).Ok() && !LawApproaches(Among(b, bs), g, p)
  {
    g, p := Overshoots(b);
    var q := NextPose(Velocity, b.dt, p, b.PullVelocity(g, p));
    bs := [Half(p, DotN(p, q, b.dim) - 1.0)];
    var b' := Among(b, bs);
    SamePull(b, bs, g, p);
    LawIsPullOrStop(b', g, p);
    assert b'.SafeAt(q);
  }

  lemma SamePull(b: Backup, bs: seq<Barrier>, g: Vec, p: Vec)
    requires |g| == |p|
    ensures Among(b, bs).PullVelocity(g, p) == b.PullVelocity(g, p)
  {}

  /** A streak of ticks in which the guard admits the velocity pull. */
  ghost predicate VelocityStreak(b: Backup, g: Vec, poses: seq<Vec>)
    requires b.Ok() && |g| == b.dim
  {
    && |poses| > 0 && (forall k :: 0 <= k < |poses| ==> |poses[k]| == b.dim)
    && forall k: nat :: k + 1 < |poses| ==> PullsTo(b, g, poses[k], poses[k + 1])
  }

  ghost predicate PullsTo(b: Backup, g: Vec, p: Vec, q: Vec)
    requires b.Ok() && |g| == |p| == b.dim
  {
    q == NextPose(Velocity, b.dt, p, b.PullVelocity(g, p)) && b.SafeAt(q)
  }

  lemma PullIsTheLaw(b: Backup, g: Vec, p: Vec, q: Vec)
    requires b.Ok() && b.dim > 0 && |g| == |p| == b.dim && PullsTo(b, g, p, q)
    ensures q == NextPose(Velocity, b.dt, p, b.VelocityLaw(Lift(g), Lift(p)))
  {
    LawIsPullOrStop(b, g, p);
  }

  /** Closing in is braking, the distance in place of the speed, the gain k_p in place
      of the brake gain and the speed ceiling in place of the control box. */
  lemma ClosingIsBraking(b: Backup, far: real)
    requires b.vMax >= 0.0 && b.kP >= 0.0 && far >= 0.0
    ensures Closing(b, far) == RAbs(BrakeTick(b.kP, b.vMax, b.dt, far))
  {
    hide BrakeTick;
    ForwardTick(b.kP, b.vMax, b.dt, far);
    PullTakesOff(b, far);
    ScaledAbs(Left(b, far), far);
  }

  lemma PullTakesOff(b: Backup, far: real)
    requires b.vMax >= 0.0 && b.kP >= 0.0 && far >= 0.0
    ensures Left(b, far) * far == far + -RMin(b.kP * far, b.vMax) * b.dt
  {
    NonnegProduct(b.kP, far);
    BallScaleIsExact(b.kP * far, b.vMax);
    TakenOff(BallScale(b.kP * far, b.vMax), b.kP, b.dt, far, RMin(b.kP * far, b.vMax), Left(b, far));
  }

  lemma TakenOff(s: real, kP: real, dt: real, far: real, w: real, left: real)
    requires kP * far * s == w && left == LeftOf(s, kP, dt)
    ensures left * far == far + -w * dt
  {
    assert s * (kP * dt) * far == (kP * far * s) * dt;
  }

  lemma ScaledAbs(x: real, far: real)
    requires far >= 0.0
    ensures RAbs(x) * far == RAbs(x * far)
  {
    if x >= 0.0 {
      NonnegProduct(x, far);
    } else {
      NonnegProduct(-x, far);
      assert -x * far == -(x * far);
    }
  }

  /** After n admitted velocity pulls the distance is what n ticks of braking leave of
      a speed of that size: so all that is proved of braking holds of the retreat. */
  lemma {:induction false} VelocityRetreatIsBraking(b: Backup, g: Vec, poses: seq<Vec>)
    requires b.Ok() && |g| == b.dim && b.vMax >= 0.0 && b.kP >= 0.0 && VelocityStreak(b, g, poses)
    ensures |poses| > 0 && |poses[0]| == |poses[|poses| - 1]| == b.dim
    ensures Distance(b.sqrt, poses[|poses| - 1], g)
      == RAbs(BrakeTicks(b.kP, b.vMax, b.dt, Distance(b.sqrt, poses[0], g), |poses| - 1))
    decreases |poses|
  {
    assert IsSqrt(b.sqrt);
    hide VelocityStreak, PullsTo, Distance, BrakeTick, RAbs;
    VelocityParts(b, g, poses);
    var n: nat := |poses| - 1;
    if n == 0 {
      DistanceNonneg(b.sqrt, poses[0], g);
      AbsOfNonneg(Distance(b.sqrt, poses[0], g));
    } else {
      VelocityRetreatIsBraking(b, g, poses[..n]);
      PullCloses(b, g, poses[n - 1], poses[n]);
      BrakeTickOfAbs(b.kP, b.vMax, b.dt, BrakeTicks(b.kP, b.vMax, b.dt, Distance(b.sqrt, poses[0], g), n - 1));
    }
  }

  lemma AbsOfNonneg(x: real)
    requires x >= 0.0
    ensures RAbs(x) == x
  {}

  lemma BrakeTickOfAbs(k: real, uMax: real, dt: real, v: real)
    requires uMax >= 0.0
    ensures RAbs(BrakeTick(k, uMax, dt, RAbs(v))) == RAbs(BrakeTick(k, uMax, dt, v))
  {
    hide BrakeTick;
    BrakeTickIsOdd(k, uMax, dt, v);
  }

  lemma PullCloses(b: Backup, g: Vec, p: Vec, q: Vec)
    requires b.Ok() && b.vMax >= 0.0 && b.kP >= 0.0 && |g| == |p| == b.dim && PullsTo(b, g, p, q)
    ensures |q| == b.dim
    ensures Distance(b.sqrt, q, g) == RAbs(BrakeTick(b.kP, b.vMax, b.dt, Distance(b.sqrt, p, g)))
  {
    hide Distance, Backup.PullVelocity, Closing, BrakeTick;
    VelocityPullScales(b, g, p);
    DistanceNonneg(b.sqrt, p, g);
    ClosingIsBraking(b, Distance(b.sqrt, p, g));
  }

  lemma VelocityParts(b: Backup, g: Vec, poses: seq<Vec>)
    requires b.Ok() && |g| == b.dim && VelocityStreak(b, g, poses)
    ensures |poses| > 0 && |poses[0]| == |poses[|poses| - 1]| == b.dim
    ensures
      var n := |poses| - 1;
      n > 0 ==> |poses[n - 1]| == b.dim && VelocityStreak(b, g, poses[..n]) && PullsTo(b, g, poses[n - 1], poses[n])
  {
    hide PullsTo;
    var n: nat := |poses| - 1;
    if n > 0 {
      var m: nat := n - 1;
      assert PullsTo(b, g, poses[m], poses[m + 1]);
      assert forall k :: 0 <= k < n ==> poses[..n][k] == poses[k];
    }
  }

  /** A velocity retreat arrives: the capped phase takes some m pulls, m being at most
      the distance over the largest step, and every n pulls further on the distance is
      at most the first one divided by 1 + n*k_p*dt. */
  lemma VelocityRetreatArrives(b: Backup, g: Vec, poses: seq<Vec>) returns (m: nat)
    requires b.Ok() && |g| == b.dim && b.vMax > 0.0 && b.kP >= 0.0 && b.kP * b.dt <= 1.0
    requires VelocityStreak(b, g, poses)
    ensures |poses| > 0 && |poses[0]| == |poses[|poses| - 1]| == b.dim
    ensures m as real * (b.vMax * b.dt) <= Distance(b.sqrt, poses[0], g)
    ensures |poses| > m ==>
      FallenOff(Distance(b.sqrt, poses[0], g), Distance(b.sqrt, poses[|poses| - 1], g), |poses| - 1 - m, b.kP * b.dt)
  {
    hide VelocityStreak, Distance, BrakeTicks;
    VelocityRetreatIsBraking(b, g, poses);
    var far := Distance(b.sqrt, poses[0], g);
    DistanceNonneg(b.sqrt, poses[0], g);
    m := BrakingComesToRest(b.kP, b.vMax, b.dt, far);
    if |poses| > m {
      var n: nat := |poses| - 1 - m;
      assert Rests(b.kP, b.vMax, b.dt, far, m, n);
    }
  }

  // ---- Effort -----------------------------------------------------------------------------------

  /** Where no axis saturates, the pull takes energy out at exactly the rate
      k_d |v|^2: force on velocity plus the spring's work. */
  lemma PullDissipates(b: Backup, g: Vec, p: Vec, v: Vec)
    requires |g| == |p| == |v| && b.uMax >= 0.0
    requires forall i :: 0 <= i < |p| ==> -b.uMax <= b.kP * (g[i] - p[i]) - b.kD * v[i] <= b.uMax
    ensures Dot(b.PullEffort(g, p, v), v) + b.kP * Dot(Sub(p, g), v) == -(b.kD * Norm2(v))
  {
    hide Backup.PullEffort;
    UnclampedPull(b, g, p, v);
    DampedSpring(b.PullEffort(g, p, v), Sub(p, g), v, b.kP, b.kD);
  }

  lemma DampedSpring(u: Vec, e: Vec, v: Vec, k: real, d: real)
    requires Combines(u, -k, e, -d, v)
    ensures Dot(u, v) + k * Dot(e, v) == -(d * Norm2(v))
  {
    hide Dot, Norm2;
    DotCombine(u, -k, e, -d, v, v);
    DotSelf(v);
    Balance(Dot(u, v), k, Dot(e, v), d, Dot(v, v));
  }

  lemma DotSelf(v: Vec)
    ensures Dot(v, v) == Norm2(v)
  {}

  lemma UnclampedPull(b: Backup, g: Vec, p: Vec, v: Vec)
    requires |g| == |p| == |v| && b.uMax >= 0.0
    requires forall i :: 0 <= i < |p| ==> -b.uMax <= b.kP * (g[i] - p[i]) - b.kD * v[i] <= b.uMax
    ensures Combines(b.PullEffort(g, p, v), -b.kP, Sub(p, g), -b.kD, v)
  {
    forall i | 0 <= i < |p| ensures b.PullEffort(g, p, v)[i] == -b.kP * Sub(p, g)[i] + -b.kD * v[i] {
      Unclamped(b.kP, b.kD, g[i], p[i], v[i]);
    }
  }

  lemma Unclamped(kP: real, kD: real, g: real, p: real, v: real)
    ensures kP * (g - p) - kD * v == -kP * (p - g) + -kD * v
  {}

  lemma Balance(uv: real, k: real, x: real, d: real, y: real)
    requires uv == -k * x + -d * y
    ensures uv + k * x == -(d * y)
  {}
}
