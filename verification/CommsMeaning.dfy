/** What the contact-window builder forbids and bounds, in terms of the request alone:
    who may serve a task, when a contact carries it, what is emitted. */
module CommsMeaning {
  import opened Wrappers
  import opened Numbers
  import opened CommsWindows

  // ---- Relay targets ---------------------------------------------------------------------

  /** The word "relay" stands at i, in any mix of cases. */
  predicate RelayAt(kind: string, i: int) {
    0 <= i <= |kind| - 5 && forall j :: 0 <= j < 5 ==> kind[i..i + 5][j] == "relay"[j] || kind[i..i + 5][j] == "RELAY"[j]
  }

  /** A ground node, or one whose kind has "relay" in it. */
  ghost predicate IsClassified(node: ContactNode) {
    node.ground || (node.kind.Some? && exists i :: RelayAt(node.kind.value, i))
  }

  /** A task may relay to the classified nodes, and to every node if none is. */
  ghost predicate IsRelay(plan: ContactPlan, id: string) {
    exists node :: node in plan.nodes && node.id == id
      && (IsClassified(node) || forall other :: other in plan.nodes ==> !IsClassified(other))
  }

  lemma LowerIs(c: char, j: int)
    requires 0 <= j < 5
    ensures LowerChar(c) == "relay"[j] <==> c == "relay"[j] || c == "RELAY"[j]
  {
    assert "relay" == ['r', 'e', 'l', 'a', 'y'] && "RELAY" == ['R', 'E', 'L', 'A', 'Y'];
  }

  lemma MatchIs(kind: string, i: nat)
    requires i + 5 <= |kind|
    ensures MatchesAt(kind, "relay", i) <==> RelayAt(kind, i)
  {
    forall j | 0 <= j < 5
      ensures kind[i..][j] == kind[i..i + 5][j]
      ensures LowerChar(kind[i..][j]) == "relay"[j] <==> kind[i..i + 5][j] == "relay"[j] || kind[i..i + 5][j] == "RELAY"[j]
    {
      LowerIs(kind[i..][j], j);
    }
  }

  lemma TargetIffClassified(node: ContactNode)
    ensures IsRelayTarget(node) <==> IsClassified(node)
  {
    if node.kind.Some? {
      var kind := node.kind.value;
      forall i | 0 <= i <= |kind| - 5 ensures MatchesAt(kind, "relay", i) <==> RelayAt(kind, i) {
        MatchIs(kind, i);
      }
    }
  }

  lemma TargetIffRelay(plan: ContactPlan, id: string)
    ensures id in RelayTargets(plan) <==> IsRelay(plan, id)
  {
    forall node ensures IsRelayTarget(node) <==> IsClassified(node) { TargetIffClassified(node); }
    hide IsRelayTarget, IsClassified;
    var targets := set i | 0 <= i < |plan.nodes| && IsRelayTarget(plan.nodes[i]) :: plan.nodes[i].id;
    if node :| node in plan.nodes && IsClassified(node) {
      assert node.id in targets;
    } else {
      assert targets == {};
    }
  }

  // ---- Order -------------------------------------------------------------------------------

  /** a and b agree up to i, where a ends or has the smaller character. */
  predicate FirstDifference(a: string, b: string, i: nat) {
    && i <= |a| && i <= |b| && a[..i] == b[..i]
    && (i == |a| || (i < |b| && a[i] < b[i]))
  }

  lemma {:induction false} StringLeIff(a: string, b: string)
    ensures StringLe(a, b) <==> exists i: nat :: FirstDifference(a, b, i)
  {
    if a == "" {
      assert FirstDifference(a, b, 0);
    } else if b == "" || a[0] > b[0] {
      forall i: nat ensures !FirstDifference(a, b, i) {
        if 0 < i <= |a| && i <= |b| {
          assert a[..i][0] == a[0] && b[..i][0] == b[0];
        }
      }
    } else if a[0] < b[0] {
      assert FirstDifference(a, b, 0);
    } else {
      StringLeIff(a[1..], b[1..]);
      if i: nat :| FirstDifference(a[1..], b[1..], i) {
        assert a[..i + 1] == [a[0]] + a[1..][..i] && b[..i + 1] == [b[0]] + b[1..][..i];
        assert FirstDifference(a, b, i + 1);
      }
      if i: nat :| FirstDifference(a, b, i) {
        assert i > 0;
        assert a[1..][..i - 1] == a[..i][1..] && b[1..][..i - 1] == b[..i][1..];
        assert FirstDifference(a[1..], b[1..], i - 1);
      }
    }
  }

  /** Contacts come by start; those that start together by end; then by the first node and
      the second. */
  lemma OrderIs(ivs: seq<ContactInterval>, i: nat)
    requires InOrder(ivs) && i + 1 < |ivs|
    ensures
      var x, y := ivs[i], ivs[i + 1];
      && x.start <= y.start && (x.start == y.start ==> x.end <= y.end)
      && (x.start == y.start && x.end == y.end ==> exists k: nat :: FirstDifference(x.nodeA, y.nodeA, k))
      && (x.start == y.start && x.end == y.end && x.nodeA == y.nodeA ==>
          exists k: nat :: FirstDifference(x.nodeB, y.nodeB, k))
  {
    var x, y := ivs[i], ivs[i + 1];
    assert IntervalLe(ivs[i + 1 - 1], ivs[i + 1]);
    StringLeIff(x.nodeA, y.nodeA);
    StringLeIff(x.nodeB, y.nodeB);
    if x.nodeA == y.nodeA {
      assert FirstDifference(x.nodeA, y.nodeA, |x.nodeA|);
    }
  }

  // ---- Feasible starts ------------------------------------------------------------------------

  /** From s the task starts no earlier than its window and the contact, shifted by the
      epoch, open, and ends no later than they close. */
  predicate RunsInside(tw: TimeWindow, iv: ContactInterval, duration: real, epoch0: real, s: real) {
    s >= tw.start && s >= iv.start - epoch0 && s <= tw.end - duration && s <= iv.end - epoch0 - duration
  }

  /** At episode time u the window is open, and so is the contact at u on its own clock. */
  predicate BothOpen(tw: TimeWindow, iv: ContactInterval, epoch0: real, u: real) {
    tw.start <= u <= tw.end && iv.start <= u + epoch0 <= iv.end
  }

  /** For a duration, that is being inside both at every instant from start to end. */
  lemma RunsInsideThroughout(tw: TimeWindow, iv: ContactInterval, duration: real, epoch0: real, s: real)
    requires duration >= 0.0
    ensures RunsInside(tw, iv, duration, epoch0, s) <==>
      forall u: real :: s <= u <= s + duration ==> BothOpen(tw, iv, epoch0, u)
  {
    if forall u: real :: s <= u <= s + duration ==> BothOpen(tw, iv, epoch0, u) {
      var end := s + duration;
      assert BothOpen(tw, iv, epoch0, s) && BothOpen(tw, iv, epoch0, end);
    }
  }

  lemma FitsIffRunsInside(tw: TimeWindow, iv: ContactInterval, duration: real, epoch0: real, s: real)
    ensures Fits(tw, iv, duration, epoch0, s) <==> RunsInside(tw, iv, duration, epoch0, s)
  {}

  /** The pair may serve the task: it is declared to need a relay, by id or by kind, the
      asset is eligible and nothing upstream forbids it. */
  ghost predicate MayServe(r: Request, t: string, a: string)
    requires r.Ok()
  {
    && r.policy.Some? && t in r.pairs && a in r.pairs[t] && (t, a) !in r.forbidden
    && (t in r.policy.value.relayTasks || r.tasks[t].kind in r.policy.value.relayKinds)
  }

  /** The windows of a task, or its envelope if it declares none. */
  predicate IsWindow(task: Task, tw: TimeWindow) {
    tw in task.timeWindows || (task.timeWindows == [] && tw == task.envelope)
  }

  /** The contact joins the asset's node, its own id unless overridden, and a relay, at
      either end. */
  ghost predicate Joins(r: Request, a: string, iv: ContactInterval)
    requires r.policy.Some? && r.contacts.Some?
  {
    var ids := r.policy.value.nodeIds;
    var node := if a in ids then ids[a] else a;
    && iv in r.contacts.value.intervals
    && ((iv.nodeA == node && IsRelay(r.contacts.value, iv.nodeB))
        || (iv.nodeB == node && IsRelay(r.contacts.value, iv.nodeA)))
  }

  /** Some window and some contact carry the task on the asset from s, for its declared
      duration or for none. */
  ghost predicate StartsAt(r: Request, t: string, a: string, s: real)
    requires r.Ok()
  {
    && r.policy.Some? && r.contacts.Some? && t in r.pairs
    && exists tw, iv :: IsWindow(r.tasks[t], tw) && Joins(r, a, iv)
        && RunsInside(tw, iv, if (t, a) in r.durations then r.durations[(t, a)] else 0.0, r.policy.value.epoch0, s)
  }

  lemma OpenIffMayServe(r: Request, t: string, a: string)
    requires r.Ok()
    ensures r.Open(t, a) <==> MayServe(r, t, a)
  {}

  lemma IntervalIffJoins(r: Request, a: string, iv: ContactInterval)
    requires r.policy.Some? && r.contacts.Some?
    ensures iv in r.Intervals(a) <==> Joins(r, a, iv)
  {
    var plan, node := r.contacts.value, r.policy.value.NodeId(a);
    var out := IntervalsFor(plan.intervals, node, RelayTargets(plan));
    TargetIffRelay(plan, iv.nodeA);
    TargetIffRelay(plan, iv.nodeB);
    hide IntervalsFor, RelayTargets, IsRelay;
    assert iv in out <==> multiset(out)[iv] > 0;
    assert iv in plan.intervals <==> multiset(plan.intervals)[iv] > 0;
  }

  lemma CanStartIffStartsAt(r: Request, t: string, a: string, s: real)
    requires r.Ok() && MayServe(r, t, a)
    ensures r.CanStart(t, a, s) <==> StartsAt(r, t, a, s)
  {
    if r.contacts.Some? {
      var d := if (t, a) in r.durations then r.durations[(t, a)] else 0.0;
      assert r.Gated(t) && r.Duration(t, a) == d;
      forall iv ensures iv in r.Intervals(a) <==> Joins(r, a, iv) { IntervalIffJoins(r, a, iv); }
      forall tw ensures tw in WindowsOf(r.tasks[t]) <==> IsWindow(r.tasks[t], tw) {}
      forall tw, iv
        ensures Fits(tw, iv, d, r.policy.value.epoch0, s) <==> RunsInside(tw, iv, d, r.policy.value.epoch0, s)
      {
        FitsIffRunsInside(tw, iv, d, r.policy.value.epoch0, s);
      }
      hide Fits, RunsInside, Joins, Request.Intervals, WindowsOf, IsWindow;
    }
  }

  // ---- The result --------------------------------------------------------------------------------

  /** s is a start of the task on some pair that may serve it. */
  ghost predicate IsStart(r: Request, t: string, s: real)
    requires r.Ok()
  {
    exists a :: MayServe(r, t, a) && StartsAt(r, t, a, s)
  }

  lemma TaskStartIff(r: Request, t: string, s: real)
    requires r.Ok()
    ensures r.TaskStart(t, s) <==> IsStart(r, t, s)
  {
    hide Request.CanStart, StartsAt;
    forall a ensures r.Open(t, a) <==> MayServe(r, t, a) { OpenIffMayServe(r, t, a); }
    forall a | MayServe(r, t, a) ensures r.CanStart(t, a, s) <==> StartsAt(r, t, a, s) { CanStartIffStartsAt(r, t, a, s); }
    hide Request.Open, MayServe;
  }

  /** A finished build forbids a pair exactly when it may serve a task and no contact ever
      carries it there; a pair that may serve and is carried has the least and greatest
      of its starts as its window. */
  lemma PairsMean(r: Request, out: WindowResult, t: string, a: string)
    requires r.Ok() && Gates(r, out, r.pairs.Keys)
    ensures (t, a) in out.forbidden <==> MayServe(r, t, a) && forall s: real :: !StartsAt(r, t, a, s)
    ensures (t, a) in out.pairWindows <==> MayServe(r, t, a) && exists s: real :: StartsAt(r, t, a, s)
    ensures (t, a) in out.pairWindows ==>
      var w := out.pairWindows[(t, a)];
      && StartsAt(r, t, a, w.0) && StartsAt(r, t, a, w.1)
      && forall s: real :: StartsAt(r, t, a, s) ==> w.0 <= s <= w.1
  {
    OpenIffMayServe(r, t, a);
    hide Request.CanStart, StartsAt, Request.Open, MayServe, IsConstraint;
    if MayServe(r, t, a) {
      forall s: real ensures r.CanStart(t, a, s) <==> StartsAt(r, t, a, s) { CanStartIffStartsAt(r, t, a, s); }
    }
  }

  /** The emitted constraints are exactly these: for every task with a start, the least of
      its starts as a lower bound and the greatest as an upper one, under their ids. */
  lemma ConstraintsMean(r: Request, out: WindowResult, c: Constraint)
    requires r.Ok() && Gates(r, out, r.pairs.Keys)
    ensures c in out.constraints <==>
      && c.task in r.pairs && IsStart(r, c.task, c.rhs)
      && c.id == (match c.sense case GE => "comms_lo::" + c.task case LE => "comms_hi::" + c.task)
      && forall s: real :: IsStart(r, c.task, s) ==> match c.sense case GE => c.rhs <= s case LE => s <= c.rhs
  {
    forall s: real ensures r.TaskStart(c.task, s) <==> IsStart(r, c.task, s) { TaskStartIff(r, c.task, s); }
    hide Request.TaskStart, IsStart, PairsSplit;
  }

  ghost predicate IsFailure(r: Request, f: Finding)
    requires r.Ok() && f.task in r.pairs
  {
    match f
    case NoContactData(t, a) => r.contacts.None? && MayServe(r, t, a)
    case NoWindow(t, a) => r.contacts.Some? && MayServe(r, t, a) && NeverStarts(r, t, a)
    case TaskInfeasible(t) =>
      && r.contacts.Some? && r.policy.Some?
      && (t in r.policy.value.relayTasks || r.tasks[t].kind in r.policy.value.relayKinds)
      && forall s: real :: !IsStart(r, t, s)
  }

  ghost predicate NeverStarts(r: Request, t: string, a: string)
    requires r.Ok()
  {
    forall s: real :: !StartsAt(r, t, a, s)
  }

  lemma FailureIff(r: Request, f: Finding)
    requires r.Ok() && f.task in r.pairs
    ensures IsFinding(r, f) <==> IsFailure(r, f)
  {
    hide Request.CanStart, StartsAt, Request.TaskStart, IsStart;
    forall s: real ensures r.TaskStart(f.task, s) <==> IsStart(r, f.task, s) { TaskStartIff(r, f.task, s); }
    if !f.TaskInfeasible? {
      OpenIffMayServe(r, f.task, f.asset);
      if MayServe(r, f.task, f.asset) {
        forall s: real ensures r.CanStart(f.task, f.asset, s) <==> StartsAt(r, f.task, f.asset, s) {
          CanStartIffStartsAt(r, f.task, f.asset, s);
        }
      }
    }
  }

  /** The findings, in whatever order the tasks are taken, are exactly these: a pair that
      may serve without any contact data, one that no contact carries, and a task that
      needs a relay and has no start. */
  lemma FindingsMean(r: Request, order: seq<string>, f: Finding)
    requires r.Ok() && forall t :: t in order ==> t in r.pairs
    ensures f in FindingsOf(r, order) <==> f.task in order && IsFailure(r, f)
  {
    FindingsAreFailures(r, order, f);
    if f.task in order {
      FailureIff(r, f);
    }
    hide FindingsOf, IsFailure, IsFinding;
  }

  // ---- How often and in what order -----------------------------------------------------------------

  /** Somewhere in xs, x stands before y. */
  ghost predicate Precedes<T(!new)>(xs: seq<T>, x: T, y: T) {
    exists i, j :: 0 <= i < j < |xs| && xs[i] == x && xs[j] == y
  }

  /** What preceded still does in a longer list, and everything precedes a new last element. */
  lemma PrecedesLater<T(!new)>(xs: seq<T>, last: T)
    ensures forall x, y :: Precedes(xs, x, y) ==> Precedes(xs + [last], x, y)
    ensures forall x :: x in xs ==> Precedes(xs + [last], x, last)
  {
    var ys := xs + [last];
    forall x, y | Precedes(xs, x, y) ensures Precedes(ys, x, y) {
      var i, j :| 0 <= i < j < |xs| && xs[i] == x && xs[j] == y;
      assert ys[i] == x && ys[j] == y;
    }
    forall x | x in xs ensures Precedes(ys, x, last) {
      var i :| 0 <= i < |xs| && xs[i] == x;
      assert ys[i] == x && ys[|xs|] == last;
    }
  }

  ghost predicate HasStart(r: Request, t: string)
    requires r.Ok()
  {
    exists s: real :: IsStart(r, t, s)
  }

  /** The tasks with a start, each as often as it is taken and in the order they are taken. */
  ghost predicate AreTheStartable(r: Request, order: seq<string>, ts: seq<string>)
    requires r.Ok()
  {
    && (forall t :: multiset(ts)[t] == if HasStart(r, t) then multiset(order)[t] else 0)
    && forall i, j :: 0 <= i < j < |ts| ==> Precedes(order, ts[i], ts[j])
  }

  /** Those are the tasks that get constraints. */
  lemma {:induction false} StartableIs(r: Request, order: seq<string>)
    requires r.Ok()
    ensures AreTheStartable(r, order, Startable(r, order))
  {
    if order != [] {
      var init, last := order[..|order| - 1], order[|order| - 1];
      assert order == init + [last];
      StartableIs(r, init);
      FeasibleIff(r, last);
      var before := Startable(r, init);
      assert Startable(r, order) == if HasStart(r, last) then before + [last] else before;
      OneMoreTask(r, init, last, before);
      hide Startable, Request.Feasible, HasStart, Precedes, AreTheStartable;
    }
  }

  lemma OneMoreTask(r: Request, init: seq<string>, last: string, before: seq<string>)
    requires r.Ok() && AreTheStartable(r, init, before)
    ensures AreTheStartable(r, init + [last], if HasStart(r, last) then before + [last] else before)
  {
    PrecedesLater(init, last);
    forall t | t in before ensures t in init { assert multiset(before)[t] > 0; }
    hide HasStart, Precedes;
  }

  lemma FeasibleIff(r: Request, t: string)
    requires r.Ok()
    ensures r.Feasible(t) <==> HasStart(r, t)
  {
    forall s: real ensures r.TaskStart(t, s) <==> IsStart(r, t, s) { TaskStartIff(r, t, s); }
    hide Request.TaskStart, IsStart;
  }

  /** The constraints come two by two, a lower bound and then an upper one, for each task
      with a start in turn. */
  lemma ConstraintsInTurn(r: Request, out: WindowResult, order: seq<string>, i: nat)
    requires r.Ok() && InPairs(out.constraints, Startable(r, order)) && i < |Startable(r, order)|
    ensures
      var t := Startable(r, order)[i];
      && |out.constraints| == 2 * |Startable(r, order)|
      && out.constraints[2 * i].task == t && out.constraints[2 * i].sense == GE
      && out.constraints[2 * i + 1].task == t && out.constraints[2 * i + 1].sense == LE
  {}

  /** How often a finding is due among these assets of its task. */
  ghost function Due(r: Request, t: string, assets: seq<string>, f: Finding): nat
    requires r.Ok()
  {
    if f.TaskInfeasible? || f.task != t || !IsFinding(r, f) then 0 else multiset(assets)[f.asset]
  }

  /** Exactly the findings due among these assets, as often as due and in their order. */
  ghost predicate AreTheDue(r: Request, t: string, assets: seq<string>, fs: seq<Finding>)
    requires r.Ok()
  {
    && (forall f :: multiset(fs)[f] == Due(r, t, assets, f))
    && (forall f :: f in fs ==> !f.TaskInfeasible? && f.task == t && f.asset in assets)
    && forall i, j :: 0 <= i < j < |fs| ==>
        !fs[i].TaskInfeasible? && !fs[j].TaskInfeasible? && Precedes(assets, fs[i].asset, fs[j].asset)
  }

  lemma {:induction false} PairFindingsDue(r: Request, t: string, assets: seq<string>)
    requires r.Ok()
    ensures AreTheDue(r, t, assets, PairFindings(r, t, assets))
  {
    if assets != [] {
      var init, last := assets[..|assets| - 1], assets[|assets| - 1];
      assert assets == init + [last];
      PairFindingsDue(r, t, init);
      var x := LastFinding(r, t, last);
      OneMoreFinding(r, t, init, last, PairFindings(r, t, init), x);
      assert PairFindings(r, t, assets) == PairFindings(r, t, init) + x;
      hide Request.Open, Request.CanRelay, AreTheDue, PairFindings;
    }
  }

  lemma LastFinding(r: Request, t: string, a: string) returns (x: seq<Finding>)
    requires r.Ok()
    ensures x == if !r.Open(t, a) || r.CanRelay(t, a) then []
      else [if r.contacts.None? then NoContactData(t, a) else NoWindow(t, a)]
    ensures |x| <= 1 && forall f :: f in x <==> !f.TaskInfeasible? && f.task == t && f.asset == a && IsFinding(r, f)
  {
    NoDataNoRelay(r, t, a);
    x := if !r.Open(t, a) || r.CanRelay(t, a) then []
      else [if r.contacts.None? then NoContactData(t, a) else NoWindow(t, a)];
    hide Request.Open, Request.CanRelay, Request.Feasible;
  }

  lemma OneMoreFinding(
    r: Request, t: string, init: seq<string>, last: string, fs: seq<Finding>, x: seq<Finding>)
    requires r.Ok() && AreTheDue(r, t, init, fs)
    requires |x| <= 1 && forall f :: f in x <==> !f.TaskInfeasible? && f.task == t && f.asset == last && IsFinding(r, f)
    ensures AreTheDue(r, t, init + [last], fs + x)
  {
    PrecedesLater(init, last);
    hide IsFinding, Precedes;
    assert forall f :: multiset(x)[f] == if f in x then 1 else 0;
  }

  /** f is reported before g: its task is taken first, or it is about an earlier pair of
      the same task, the task itself coming last. */
  ghost predicate IsEarlier(r: Request, order: seq<string>, f: Finding, g: Finding) {
    || Precedes(order, f.task, g.task)
    || (f.task == g.task && f.task in r.pairs && !f.TaskInfeasible?
        && (g.TaskInfeasible? || Precedes(r.pairs[f.task], f.asset, g.asset)))
  }

  /** How often a finding is due: once for a task, as often as the asset is listed for a pair. */
  function Times(r: Request, f: Finding): nat
    requires f.task in r.pairs
  {
    if f.TaskInfeasible? then 1 else multiset(r.pairs[f.task])[f.asset]
  }

  /** Exactly the findings due for these tasks, as often as due and in order. */
  ghost predicate AreReported(r: Request, order: seq<string>, fs: seq<Finding>)
    requires r.Ok() && forall t :: t in order ==> t in r.pairs
  {
    && (forall f :: multiset(fs)[f] == if f.task in order && IsFinding(r, f) then Times(r, f) else 0)
    && (forall f :: f in fs ==> f.task in order)
    && forall i, j :: 0 <= i < j < |fs| ==> IsEarlier(r, order, fs[i], fs[j])
  }

  lemma TaskIsReported(r: Request, t: string)
    requires r.Ok() && t in r.pairs
    ensures AreReported(r, [t], TaskFindings(r, t))
  {
    var pairs, f := PairFindings(r, t, r.pairs[t]), TaskInfeasible(t);
    PairFindingsDue(r, t, r.pairs[t]);
    assert TaskFindings(r, t) == if IsFinding(r, f) then pairs + [f] else pairs;
    TaskComesLast(r, t, pairs);
    hide TaskFindings, PairFindings, IsFinding, AreReported, AreTheDue;
  }

  /** The task's own finding, if due, comes after those of its pairs. */
  lemma TaskComesLast(r: Request, t: string, pairs: seq<Finding>)
    requires r.Ok() && t in r.pairs && AreTheDue(r, t, r.pairs[t], pairs)
    ensures AreReported(r, [t], if IsFinding(r, TaskInfeasible(t)) then pairs + [TaskInfeasible(t)] else pairs)
  {
    hide IsFinding, Precedes;
    var fs := if IsFinding(r, TaskInfeasible(t)) then pairs + [TaskInfeasible(t)] else pairs;
    forall f: Finding ensures multiset(fs)[f] == if f.task in [t] && IsFinding(r, f) then Times(r, f) else 0 {
      assert f.TaskInfeasible? ==> f !in pairs;
    }
    forall i, j | 0 <= i < j < |fs| ensures IsEarlier(r, [t], fs[i], fs[j]) {
      assert fs[i] in pairs;
      assert j == |pairs| || fs[j] in pairs;
    }
  }

  lemma OneMoreReport(r: Request, init: seq<string>, last: string, before: seq<Finding>, fs: seq<Finding>)
    requires r.Ok() && last !in init && forall t :: t in init + [last] ==> t in r.pairs
    requires AreReported(r, init, before) && AreReported(r, [last], fs)
    ensures AreReported(r, init + [last], before + fs)
  {
    PrecedesLater(init, last);
    assert forall x, y :: !Precedes([last], x, y);
    hide IsFinding, Precedes, Times;
  }

  lemma {:induction false} AllAreReported(r: Request, order: seq<string>)
    requires r.Ok() && (forall t :: t in order ==> t in r.pairs)
    requires forall i, j :: 0 <= i < j < |order| ==> order[i] != order[j]
    ensures AreReported(r, order, FindingsOf(r, order))
  {
    if order != [] {
      var init, last := order[..|order| - 1], order[|order| - 1];
      assert order == init + [last];
      AllAreReported(r, init);
      TaskIsReported(r, last);
      OneMoreReport(r, init, last, FindingsOf(r, init), TaskFindings(r, last));
      hide AreReported, TaskFindings;
    }
  }

  /** When every task is taken once, each failure is reported once, or for a pair as often
      as its asset is listed; in the order of the tasks, and for one task in the order of
      its pairs, the task itself last. */
  lemma FindingsInTurn(r: Request, order: seq<string>)
    requires r.Ok() && (forall t :: t in order ==> t in r.pairs)
    requires forall i, j :: 0 <= i < j < |order| ==> order[i] != order[j]
    ensures
      var fs := FindingsOf(r, order);
      && (forall f :: multiset(fs)[f] == if f.task in order && IsFailure(r, f) then Times(r, f) else 0)
      && forall i, j :: 0 <= i < j < |fs| ==> IsEarlier(r, order, fs[i], fs[j])
  {
    AllAreReported(r, order);
    forall f: Finding | f.task in order ensures IsFinding(r, f) <==> IsFailure(r, f) { FailureIff(r, f); }
    hide FindingsOf, IsFailure, IsFinding, IsEarlier;
  }
}
