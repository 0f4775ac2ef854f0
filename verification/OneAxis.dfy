/** On one axis the alternating projection is exact after a single cycle, and later
    cycles, however many, leave the answer where it is. */
module OneAxis {
  import opened Numbers
  import opened Vectors
  import opened Barriers
  import opened Projections
  import opened Shields
  import opened StopTests

  /** a is not before b, looking up or down the axis. */
  predicate Past(up: bool, a: real, b: real) { if up then a >= b else a <= b }

  lemma DotOfOne(a: Vec, b: Vec)
    requires |a| == |b| == 1
    ensures Dot(a, b) == a[0] * b[0]
  {
    assert DotN(a, b, 0) == 0.0;
  }

  /** A projection lands between the point and any point of the set. */
  lemma LandsBetween(sqrt: Root, s: Convex, y: Vec, w: Vec)
    requires IsSqrt(sqrt) && |y| == |w| == 1 && s.Fits(1) && Contains(sqrt, s, w)
    ensures
      var x := Project(sqrt, s, y);
      Contains(sqrt, s, x) && (y[0] <= x[0] <= w[0] || w[0] <= x[0] <= y[0])
  {
    var x := Project(sqrt, s, y);
    ProjectionIsNormal(sqrt, s, y, w);
    DotOfOne(Sub(y, x), Sub(w, x));
    OppositeSides(y[0] - x[0], w[0] - x[0]);
  }

  lemma OppositeSides(a: real, b: real)
    requires a * b <= 0.0
    ensures (a >= 0.0 && b <= 0.0) || (a <= 0.0 && b >= 0.0)
  {}

  lemma SetsAreIntervals(sqrt: Root, s: Convex, u: Vec, m: Vec, w: Vec)
    requires IsSqrt(sqrt) && |u| == |m| == |w| == 1 && s.Fits(1)
    requires Contains(sqrt, s, u) && Contains(sqrt, s, w) && u[0] <= m[0] <= w[0]
    ensures Contains(sqrt, s, m)
  {
    var x := Project(sqrt, s, m);
    LandsBetween(sqrt, s, m, u);
    LandsBetween(sqrt, s, m, w);
    assert x == m;
  }

  /** No point of the set is beyond x. */
  ghost predicate Caps(sqrt: Root, s: Convex, up: bool, x: real)
    requires s.Fits(1)
  {
    forall w: Vec :: |w| == 1 && Contains(sqrt, s, w) ==> Past(up, x, w[0])
  }

  /** A projection that moves caps the set where it lands. */
  lemma MovingCaps(sqrt: Root, s: Convex, up: bool, y: Vec, z: Vec)
    requires IsSqrt(sqrt) && |y| == |z| == 1 && s.Fits(1) && Contains(sqrt, s, z)
    requires Past(up, y[0], Project(sqrt, s, y)[0]) && y != Project(sqrt, s, y)
    ensures Caps(sqrt, s, up, Project(sqrt, s, y)[0])
  {
    var x := Project(sqrt, s, y);
    forall w: Vec | |w| == 1 && Contains(sqrt, s, w) ensures Past(up, x[0], w[0]) {
      LandsBetween(sqrt, s, y, w);
    }
  }

  /** Every correction pushes the same way, those from set n on are zero, and the set
      before n caps the iterate. */
  ghost predicate Capped(sqrt: Root, sets: seq<Convex>, it: Iterate, up: bool, n: nat)
  {
    && Sized(sets, it) && |it.x| == 1 && n <= |sets|
    && (forall k :: 0 <= k < |sets| ==> Past(up, it.corr[k][0], 0.0) && (k >= n ==> it.corr[k] == [0.0]))
    && (n > 0 ==> Caps(sqrt, sets[n - 1], up, it.x[0]))
  }

  /** The first cycle walks from the proposal towards the feasible z, into one set
      after the other, and stops where the last set that moved it ends. */
  lemma {:induction false} FirstWalk(sqrt: Root, sets: seq<Convex>, x0: Vec, z: Vec, up: bool, j: nat) returns (n: nat)
    requires IsSqrt(sqrt) && |x0| == |z| == 1 && SetsFit(sets, 1) && Feasible(sqrt, sets, z)
    requires Past(up, x0[0], z[0]) && j <= |sets|
    ensures n <= j
    ensures
      var s := Stage(sqrt, sets, Start(sets, x0), j);
      && Past(up, x0[0], s.x[0]) && Past(up, s.x[0], z[0])
      && Capped(sqrt, sets, s, up, n) && forall k :: 0 <= k < j ==> Contains(sqrt, sets[k], s.x)
  {
    if j == 0 {
      n := 0;
    } else {
      var i: nat := j - 1;
      n := FirstWalk(sqrt, sets, x0, z, up, i);
      hide Stage, Project, Contains, Capped;
      FreshStage(sqrt, sets, x0, i);
      var s, t := Stage(sqrt, sets, Start(sets, x0), i), Stage(sqrt, sets, Start(sets, x0), j);
      forall k | 0 <= k < |sets| && k != i ensures t.corr[k] == s.corr[k] {
        StageKeepsCorrections(sqrt, sets, Start(sets, x0), i, j, k);
      }
      EntersNext(sqrt, sets, s.x, z, up, i);
      n := CappedNext(sqrt, sets, s, t, z, up, n, i);
    }
  }

  lemma EntersNext(sqrt: Root, sets: seq<Convex>, x: Vec, z: Vec, up: bool, i: nat)
    requires IsSqrt(sqrt) && |x| == |z| == 1 && SetsFit(sets, 1) && Feasible(sqrt, sets, z) && i < |sets|
    requires Past(up, x[0], z[0]) && forall k :: 0 <= k < i ==> Contains(sqrt, sets[k], x)
    ensures
      var t := Project(sqrt, sets[i], x);
      && Past(up, x[0], t[0]) && Past(up, t[0], z[0])
      && forall k :: 0 <= k <= i ==> Contains(sqrt, sets[k], t)
  {
    hide Project, Contains;
    var t := Project(sqrt, sets[i], x);
    LandsBetween(sqrt, sets[i], x, z);
    forall k | 0 <= k < i ensures Contains(sqrt, sets[k], t) {
      if up {
        SetsAreIntervals(sqrt, sets[k], z, t, x);
      } else {
        SetsAreIntervals(sqrt, sets[k], x, t, z);
      }
    }
  }

  lemma CappedNext(sqrt: Root, sets: seq<Convex>, s: Iterate, t: Iterate, z: Vec, up: bool, n: nat, i: nat)
    returns (n': nat)
    requires IsSqrt(sqrt) && |z| == 1 && i < |sets| && n <= i && SetsFit(sets, 1) && Contains(sqrt, sets[i], z)
    requires Capped(sqrt, sets, s, up, n) && Sized(sets, t) && t.x == Project(sqrt, sets[i], s.x)
    requires t.corr[i] == Sub(s.x, t.x) && Past(up, s.x[0], t.x[0])
    requires forall k :: 0 <= k < |sets| && k != i ==> t.corr[k] == s.corr[k]
    ensures n' <= i + 1 && Capped(sqrt, sets, t, up, n')
  {
    hide Project;
    if t.x != s.x {
      MovingCaps(sqrt, sets[i], up, s.x, z);
      n' := i + 1;
    } else {
      assert t.corr[i] == [0.0];
      n' := n;
    }
  }

  /** A later cycle that starts capped at a feasible point walks out and back to it. */
  lemma {:induction false} LaterWalk(sqrt: Root, sets: seq<Convex>, it: Iterate, up: bool, n: nat, j: nat)
    requires IsSqrt(sqrt) && SetsFit(sets, 1) && Capped(sqrt, sets, it, up, n)
    requires Feasible(sqrt, sets, it.x) && j <= |sets|
    ensures
      var s := Stage(sqrt, sets, it, j);
      && |s.x| == 1 && Past(up, s.x[0], it.x[0]) && (j >= n ==> s.x == it.x)
      && forall k :: 0 <= k < |sets| ==> Past(up, s.corr[k][0], 0.0) && (k >= n ==> s.corr[k] == [0.0])
  {
    hide Project, Contains, Caps, Add, Sub;
    if j > 0 {
      var i: nat := j - 1;
      LaterWalk(sqrt, sets, it, up, n, i);
      var s := Stage(sqrt, sets, it, i);
      assert Stage(sqrt, sets, it, j) == OneStage(sqrt, sets[i], s, i);
      WalkStep(sqrt, sets[i], s, i, it.x, up);
    }
  }

  lemma WalkStep(sqrt: Root, c: Convex, s: Iterate, i: nat, base: Vec, up: bool)
    requires IsSqrt(sqrt) && |s.x| == |base| == 1 && c.Fits(1) && Contains(sqrt, c, base)
    requires i < |s.corr| && |s.corr[i]| == 1 && Past(up, s.x[0], base[0]) && Past(up, s.corr[i][0], 0.0)
    ensures
      var t := OneStage(sqrt, c, s, i);
      && |t.x| == 1 && Past(up, t.x[0], base[0]) && |t.corr[i]| == 1 && Past(up, t.corr[i][0], 0.0)
      && (s.x == base && s.corr[i] == [0.0] ==> t.x == base && t.corr[i] == [0.0])
      && (Caps(sqrt, c, up, base[0]) ==> t.x == base)
  {
    hide Project;
    var y := Add(s.x, s.corr[i]);
    LandsBetween(sqrt, c, y, base);
    assert Past(up, y[0], base[0]);
    if Caps(sqrt, c, up, base[0]) {
      CapIsReached(sqrt, c, y, base, up);
    }
    if s.x == base && s.corr[i] == [0.0] {
      assert y == base;
    }
  }

  /** A projection onto a set capped at a point of it, from beyond, lands there. */
  lemma CapIsReached(sqrt: Root, c: Convex, y: Vec, base: Vec, up: bool)
    requires IsSqrt(sqrt) && |y| == |base| == 1 && c.Fits(1) && Contains(sqrt, c, base)
    requires Past(up, y[0], base[0]) && Caps(sqrt, c, up, base[0])
    ensures Project(sqrt, c, y) == base
  {
    hide Project;
    LandsBetween(sqrt, c, y, base);
    var x := Project(sqrt, c, y);
    assert Past(up, base[0], x[0]);
    assert x == [x[0]] && base == [base[0]];
  }

  lemma {:induction false} CappedStays(
    sqrt: Root, sets: seq<Convex>, rows: seq<Row>, tol: real, it: Iterate, up: bool, n: nat, budget: nat)
    requires IsSqrt(sqrt) && SetsFit(sets, 1) && Capped(sqrt, sets, it, up, n) && Feasible(sqrt, sets, it.x)
    ensures Budgeted(sqrt, sets, rows, tol, it, budget).x == it.x
    decreases budget
  {
    hide Stage, Stops, Caps;
    if budget > 0 {
      LaterWalk(sqrt, sets, it, up, n, |sets|);
      var next := Cycle(sqrt, sets, it);
      assert Capped(sqrt, sets, next, up, n);
      CappedStays(sqrt, sets, rows, tol, next, up, n, budget - 1);
    }
  }

  /** On one axis, if any command is feasible, every positive budget answers a
      feasible command that lies between the proposal and every feasible one. */
  lemma OneAxisIsExact(
    sqrt: Root, sets: seq<Convex>, rows: seq<Row>, tol: real, x0: Vec, z: Vec, budget: nat)
    requires IsSqrt(sqrt) && |x0| == |z| == 1 && SetsFit(sets, 1) && Feasible(sqrt, sets, z) && budget > 0
    ensures
      var x := Budgeted(sqrt, sets, rows, tol, Start(sets, x0), budget).x;
      |x| == 1 && Feasible(sqrt, sets, x) && (x0[0] <= x[0] <= z[0] || z[0] <= x[0] <= x0[0])
  {
    hide Project, Stops, Capped;
    var up := x0[0] >= z[0];
    var n := FirstWalk(sqrt, sets, x0, z, up, |sets|);
    CappedStays(sqrt, sets, rows, tol, Cycle(sqrt, sets, Start(sets, x0)), up, n, budget - 1);
  }
}
