/** Contact-window gating: which starts of a relay-dependent task a contact plan
    can carry, and what the builder forbids and bounds because of it. */
module CommsWindows {
  import opened Wrappers
  import opened Numbers

  datatype TimeWindow = TimeWindow(start: real, end: real)

  datatype ContactInterval = ContactInterval(nodeA: string, nodeB: string, start: real, end: real)

  datatype ContactNode = ContactNode(id: string, ground: bool, kind: Option<string>)

  datatype ContactPlan = ContactPlan(nodes: seq<ContactNode>, intervals: seq<ContactInterval>)

  /** `envelope` is the bounding window used when the task declares none. */
  datatype Task = Task(id: string, kind: string, timeWindows: seq<TimeWindow>, envelope: TimeWindow)

  datatype CommsPolicy = CommsPolicy(
    relayTasks: set<string>, relayKinds: set<string>, epoch0: real, nodeIds: map<string, string>)
  {
    predicate IsRelayGated(t: string, kind: string) { t in relayTasks || kind in relayKinds }

    function NodeId(asset: string): string { if asset in nodeIds then nodeIds[asset] else asset }
  }

  // ---- Relay targets and intervals --------------------------------------------------

  function LowerChar(c: char): char {
    if 'A' <= c <= 'Z' then c - 'A' + 'a' else c
  }

  predicate MatchesAt(s: string, lower: string, i: nat)
    requires i + |lower| <= |s|
  {
    forall j :: 0 <= j < |lower| ==> LowerChar(s[i..][j]) == lower[j]
  }

  predicate ContainsIgnoringCase(s: string, lower: string) {
    exists i :: 0 <= i <= |s| - |lower| && MatchesAt(s, lower, i)
  }

  predicate IsRelayTarget(node: ContactNode) {
    node.ground || (node.kind.Some? && ContainsIgnoringCase(node.kind.value, "relay"))
  }

  function RelayTargets(plan: ContactPlan): set<string> {
    var targets := set i | 0 <= i < |plan.nodes| && IsRelayTarget(plan.nodes[i]) :: plan.nodes[i].id;
    if targets != {} then targets else set i | 0 <= i < |plan.nodes| :: plan.nodes[i].id
  }

  predicate Connects(iv: ContactInterval, node: string, targets: set<string>) {
    (iv.nodeA == node && iv.nodeB in targets) || (iv.nodeB == node && iv.nodeA in targets)
  }

  /** Strings in dictionary order of their characters. */
  predicate StringLe(a: string, b: string) {
    a == "" || (b != "" && (a[0] < b[0] || (a[0] == b[0] && StringLe(a[1..], b[1..]))))
  }

  /** By start, then end, then the two nodes. */
  predicate IntervalLe(x: ContactInterval, y: ContactInterval) {
    || x.start < y.start
    || (x.start == y.start && (x.end < y.end || (x.end == y.end && NodesLe(x, y))))
  }

  predicate NodesLe(x: ContactInterval, y: ContactInterval) {
    if x.nodeA == y.nodeA then StringLe(x.nodeB, y.nodeB) else StringLe(x.nodeA, y.nodeA)
  }

  lemma {:induction false} StringLeIsTotal(a: string, b: string)
    ensures StringLe(a, b) || StringLe(b, a)
  {
    if a != "" && b != "" && a[0] == b[0] {
      StringLeIsTotal(a[1..], b[1..]);
    }
  }

  lemma IntervalLeIsTotal(x: ContactInterval, y: ContactInterval)
    ensures IntervalLe(x, y) || IntervalLe(y, x)
  {
    StringLeIsTotal(x.nodeA, y.nodeA);
    StringLeIsTotal(x.nodeB, y.nodeB);
  }

  predicate InOrder(ivs: seq<ContactInterval>) {
    forall i :: 0 < i < |ivs| ==> IntervalLe(ivs[i - 1], ivs[i])
  }

  function Insert(x: ContactInterval, ivs: seq<ContactInterval>): (out: seq<ContactInterval>)
    ensures multiset(out) == multiset(ivs) + multiset{x}
    ensures InOrder(ivs) ==> InOrder(out)
    ensures out != [] && (out[0] == x || (ivs != [] && out[0] == ivs[0]))
  {
    if ivs == [] || IntervalLe(x, ivs[0]) then [x] + ivs
    else
      assert ivs == [ivs[0]] + ivs[1..];
      IntervalLeIsTotal(x, ivs[0]);
      [ivs[0]] + Insert(x, ivs[1..])
  }

  /** The intervals between a node and a relay target, each as often as the plan
      lists it, in order. */
  function IntervalsFor(intervals: seq<ContactInterval>, node: string, targets: set<string>): (out: seq<ContactInterval>)
    ensures forall iv ::
      multiset(out)[iv] == if Connects(iv, node, targets) then multiset(intervals)[iv] else 0
    ensures InOrder(out)
  {
    if intervals == [] then []
    else
      assert intervals == [intervals[0]] + intervals[1..];
      var rest := IntervalsFor(intervals[1..], node, targets);
      if Connects(intervals[0], node, targets) then Insert(intervals[0], rest) else rest
  }

  // ---- Feasible starts -----------------------------------------------------------------

  /** Started at episode time s, the task runs inside both windows. */
  predicate Fits(tw: TimeWindow, iv: ContactInterval, duration: real, epoch0: real, s: real) {
    && tw.start <= s && s + duration <= tw.end
    && iv.start <= s + epoch0 && s + epoch0 + duration <= iv.end
  }

  ghost predicate FeasibleStart(
    tws: seq<TimeWindow>, ivs: seq<ContactInterval>, duration: real, epoch0: real, s: real)
  {
    exists tw, iv :: tw in tws && iv in ivs && Fits(tw, iv, duration, epoch0, s)
  }

  /** The least and the greatest feasible start, both feasible; none if there is none. */
  ghost predicate IsEnvelope(
    w: Option<(real, real)>, tws: seq<TimeWindow>, ivs: seq<ContactInterval>, duration: real, epoch0: real)
  {
    match w
    case None => forall s: real :: !FeasibleStart(tws, ivs, duration, epoch0, s)
    case Some((lo, hi)) =>
      && FeasibleStart(tws, ivs, duration, epoch0, lo) && FeasibleStart(tws, ivs, duration, epoch0, hi)
      && forall s: real :: FeasibleStart(tws, ivs, duration, epoch0, s) ==> lo <= s <= hi
  }

  function WindowsOf(task: Task): seq<TimeWindow> {
    if task.timeWindows == [] then [task.envelope] else task.timeWindows
  }

  /** Starts that some already visited (window, interval) pair carries. */
  ghost predicate Visited(tws: seq<TimeWindow>, ivs: seq<ContactInterval>, m: nat, n: nat,
                          duration: real, epoch0: real, s: real)
    requires m <= |tws| && n <= |ivs|
  {
    exists i, j :: 0 <= i < |tws| && 0 <= j < |ivs| && (i < m || (i == m && j < n))
      && Fits(tws[i], ivs[j], duration, epoch0, s)
  }

  /** lo and hi are the extremes of the starts visited so far. */
  ghost predicate Extremes(lo: Option<real>, hi: Option<real>, tws: seq<TimeWindow>, ivs: seq<ContactInterval>,
                           m: nat, n: nat, duration: real, epoch0: real)
    requires m <= |tws| && n <= |ivs|
  {
    && (lo.Some? <==> hi.Some?)
    && (lo.None? ==> forall s: real :: !Visited(tws, ivs, m, n, duration, epoch0, s))
    && (lo.Some? ==>
        && Visited(tws, ivs, m, n, duration, epoch0, lo.value)
        && Visited(tws, ivs, m, n, duration, epoch0, hi.value)
        && forall s: real :: Visited(tws, ivs, m, n, duration, epoch0, s) ==> lo.value <= s <= hi.value)
  }

  method FeasibleWindow(task: Task, intervals: seq<ContactInterval>, duration: real, epoch0: real)
    returns (w: Option<(real, real)>)
    ensures IsEnvelope(w, WindowsOf(task), intervals, duration, epoch0)
  {
    var tws := WindowsOf(task);
    var lo: Option<real> := None;
    var hi: Option<real> := None;
    for m := 0 to |tws|
      invariant Extremes(lo, hi, tws, intervals, m, 0, duration, epoch0)
    {
      var twLo := tws[m].start + epoch0;
      var twHi := tws[m].end + epoch0;
      for n := 0 to |intervals|
        invariant Extremes(lo, hi, tws, intervals, m, n, duration, epoch0)
      {
        var iv := intervals[n];
        var startLo := RMax(twLo, iv.start);
        var startHi := RMin(twHi, iv.end) - duration;
        NextPair(lo, hi, tws, intervals, m, n, duration, epoch0);
        if startHi >= startLo {
          lo := Some(if lo.None? then startLo - epoch0 else RMin(lo.value, startLo - epoch0));
          hi := Some(if hi.None? then startHi - epoch0 else RMax(hi.value, startHi - epoch0));
        }
      }
      RowDone(lo, hi, tws, intervals, m, duration, epoch0);
    }
    AllVisited(tws, intervals, duration, epoch0);
    w := if lo.None? || hi.None? then None else Some((lo.value, hi.value));
  }

  lemma VisitedNext(tws: seq<TimeWindow>, ivs: seq<ContactInterval>, m: nat, n: nat, duration: real, epoch0: real, s: real)
    requires m < |tws| && n < |ivs|
    ensures Visited(tws, ivs, m, n + 1, duration, epoch0, s)
      <==> Visited(tws, ivs, m, n, duration, epoch0, s) || Fits(tws[m], ivs[n], duration, epoch0, s)
  {}

  /** Taking one more pair into account extends the extremes as the loop does. */
  lemma NextPair(lo: Option<real>, hi: Option<real>, tws: seq<TimeWindow>, ivs: seq<ContactInterval>,
                 m: nat, n: nat, duration: real, epoch0: real)
    requires m < |tws| && n < |ivs| && Extremes(lo, hi, tws, ivs, m, n, duration, epoch0)
    ensures
      var a := RMax(tws[m].start + epoch0, ivs[n].start) - epoch0;
      var b := RMin(tws[m].end + epoch0, ivs[n].end) - duration - epoch0;
      if b < a then Extremes(lo, hi, tws, ivs, m, n + 1, duration, epoch0)
      else Extremes(Some(if lo.None? then a else RMin(lo.value, a)), Some(if hi.None? then b else RMax(hi.value, b)),
             tws, ivs, m, n + 1, duration, epoch0)
  {
    var n1: nat := n + 1;
    forall s: real
      ensures Visited(tws, ivs, m, n1, duration, epoch0, s)
        <==> Visited(tws, ivs, m, n, duration, epoch0, s) || Fits(tws[m], ivs[n], duration, epoch0, s)
    {
      VisitedNext(tws, ivs, m, n, duration, epoch0, s);
    }
  }

  lemma RowDone(lo: Option<real>, hi: Option<real>, tws: seq<TimeWindow>, ivs: seq<ContactInterval>,
                m: nat, duration: real, epoch0: real)
    requires m < |tws| && Extremes(lo, hi, tws, ivs, m, |ivs|, duration, epoch0)
    ensures Extremes(lo, hi, tws, ivs, m + 1, 0, duration, epoch0)
  {
    var m1: nat, end: nat := m + 1, |ivs|;
    forall s: real
      ensures Visited(tws, ivs, m1, 0, duration, epoch0, s) <==> Visited(tws, ivs, m, end, duration, epoch0, s)
    {}
  }

  lemma AllVisited(tws: seq<TimeWindow>, ivs: seq<ContactInterval>, duration: real, epoch0: real)
    ensures forall s: real ::
      Visited(tws, ivs, |tws|, 0, duration, epoch0, s) <==> FeasibleStart(tws, ivs, duration, epoch0, s)
  {
    forall s: real | FeasibleStart(tws, ivs, duration, epoch0, s)
      ensures Visited(tws, ivs, |tws|, 0, duration, epoch0, s)
    {
      var tw, iv :| tw in tws && iv in ivs && Fits(tw, iv, duration, epoch0, s);
      var i :| 0 <= i < |tws| && tws[i] == tw;
      var j :| 0 <= j < |ivs| && ivs[j] == iv;
    }
  }

  /** The window depends on which windows and intervals there are, not on their
      order or repetition: so the builder's sort cannot change it. */
  lemma EnvelopeIgnoresOrder(
    w: Option<(real, real)>, w': Option<(real, real)>, tws: seq<TimeWindow>, tws': seq<TimeWindow>,
    ivs: seq<ContactInterval>, ivs': seq<ContactInterval>, duration: real, epoch0: real)
    requires IsEnvelope(w, tws, ivs, duration, epoch0) && IsEnvelope(w', tws', ivs', duration, epoch0)
    requires (forall x :: x in tws <==> x in tws') && (forall x :: x in ivs <==> x in ivs')
    ensures w == w'
  {
    SameStarts(tws, tws', ivs, ivs', duration, epoch0);
    SameStarts(tws', tws, ivs', ivs, duration, epoch0);
  }

  lemma SameStarts(tws: seq<TimeWindow>, tws': seq<TimeWindow>, ivs: seq<ContactInterval>, ivs': seq<ContactInterval>,
                   duration: real, epoch0: real)
    requires (forall x :: x in tws ==> x in tws') && (forall x :: x in ivs ==> x in ivs')
    ensures forall s: real ::
      FeasibleStart(tws, ivs, duration, epoch0, s) ==> FeasibleStart(tws', ivs', duration, epoch0, s)
  {
    forall s: real | FeasibleStart(tws, ivs, duration, epoch0, s) ensures FeasibleStart(tws', ivs', duration, epoch0, s) {
      var tw, iv :| tw in tws && iv in ivs && Fits(tw, iv, duration, epoch0, s);
    }
  }

  // ---- The builder -----------------------------------------------------------------------

  /** What the builder reads: `pairs` maps a task to its eligible assets. */
  datatype Request = Request(
    policy: Option<CommsPolicy>, tasks: map<string, Task>, pairs: map<string, seq<string>>,
    contacts: Option<ContactPlan>, durations: map<(string, string), real>, forbidden: set<(string, string)>)
  {
    /** Every task with pairs is declared. */
    predicate Ok() { forall t :: t in pairs ==> t in tasks }

    predicate Gated(t: string)
      requires Ok()
    {
      policy.Some? && t in pairs && policy.value.IsRelayGated(t, tasks[t].kind)
    }

    /** An eligible pair of a gated task that nothing upstream has forbidden. */
    predicate Open(t: string, a: string)
      requires Ok()
    {
      Gated(t) && a in pairs[t] && (t, a) !in forbidden
    }

    function Duration(t: string, a: string): real {
      if (t, a) in durations then durations[(t, a)] else 0.0
    }

    function Intervals(a: string): seq<ContactInterval>
      requires policy.Some? && contacts.Some?
    {
      IntervalsFor(contacts.value.intervals, policy.value.NodeId(a), RelayTargets(contacts.value))
    }

    /** The contact plan carries task t on asset a from episode time s. */
    ghost predicate CanStart(t: string, a: string, s: real)
      requires Ok()
    {
      && Gated(t) && contacts.Some?
      && FeasibleStart(WindowsOf(tasks[t]), Intervals(a), Duration(t, a), policy.value.epoch0, s)
    }

    ghost predicate CanRelay(t: string, a: string)
      requires Ok()
    {
      exists s: real :: CanStart(t, a, s)
    }

    /** Exactly the extremes of the starts of this pair. */
    ghost predicate IsPairWindow(t: string, a: string, w: (real, real))
      requires Ok()
    {
      CanStart(t, a, w.0) && CanStart(t, a, w.1) && forall s: real :: CanStart(t, a, s) ==> w.0 <= s <= w.1
    }

    /** The starts of task t over all its open pairs. */
    ghost predicate TaskStart(t: string, s: real)
      requires Ok()
    {
      exists a :: Open(t, a) && CanStart(t, a, s)
    }

    ghost predicate Feasible(t: string)
      requires Ok()
    {
      exists s: real :: TaskStart(t, s)
    }
  }

  datatype Sense = GE | LE

  /** A bound on the start variable of a task. */
  datatype Constraint = Constraint(id: string, task: string, sense: Sense, rhs: real)

  function IdOf(t: string, sense: Sense): string {
    if sense.GE? then "comms_lo::" + t else "comms_hi::" + t
  }

  function BoundOf(t: string, sense: Sense, rhs: real): Constraint { Constraint(IdOf(t, sense), t, sense, rhs) }

  datatype Finding =
    | NoContactData(task: string, asset: string)
    | NoWindow(task: string, asset: string)
    | TaskInfeasible(task: string)

  datatype WindowResult = WindowResult(
    constraints: seq<Constraint>, forbidden: set<(string, string)>, findings: seq<Finding>,
    degraded: bool, pairWindows: map<(string, string), (real, real)>)

  /** x is itself a start of the task over its open pairs, and the least, or for an
      upper bound the greatest, of them: the bound excludes none. */
  ghost predicate IsExtremeStart(r: Request, t: string, sense: Sense, x: real)
    requires r.Ok()
  {
    r.TaskStart(t, x) && forall s: real :: r.TaskStart(t, s) ==> if sense.GE? then x <= s else s <= x
  }

  /** What a finished build says about the tasks gated so far: the open pairs are
      split into forbidden and windowed ones, and the constraints are exactly the
      extreme starts of the tasks, two for each task that has a start. */
  ghost predicate Gates(r: Request, out: WindowResult, done: set<string>)
    requires r.Ok()
  {
    && PairsSplit(r, out, done)
    && (forall c :: c in out.constraints <==> IsConstraint(r, c, done))
    && (forall t, sense :: t in done && r.Feasible(t) ==> HasBound(out, t, sense))
    && (out.degraded <==> r.contacts.None? && exists t :: t in done && r.Gated(t))
  }

  ghost predicate HasBound(out: WindowResult, t: string, sense: Sense) {
    exists x: real :: BoundOf(t, sense, x) in out.constraints
  }

  ghost predicate IsConstraint(r: Request, c: Constraint, done: set<string>)
    requires r.Ok()
  {
    c.task in done && c == BoundOf(c.task, c.sense, c.rhs) && IsExtremeStart(r, c.task, c.sense, c.rhs)
  }

  ghost predicate PairsSplit(r: Request, out: WindowResult, done: set<string>)
    requires r.Ok()
  {
    && (forall t, a :: (t, a) in out.forbidden <==> t in done && r.Open(t, a) && !r.CanRelay(t, a))
    && (forall t, a :: (t, a) in out.pairWindows <==> t in done && r.Open(t, a) && r.CanRelay(t, a))
    && (forall t, a :: (t, a) in out.pairWindows ==> r.IsPairWindow(t, a, out.pairWindows[(t, a)]))
  }

  /** The tasks of the order that have a start, in that order. */
  ghost function Startable(r: Request, order: seq<string>): seq<string>
    requires r.Ok()
  {
    if order == [] then []
    else
      Startable(r, order[..|order| - 1])
      + if r.Feasible(order[|order| - 1]) then [order[|order| - 1]] else []
  }

  /** Two constraints for each of the tasks in turn, the lower bound first. */
  ghost predicate InPairs(constraints: seq<Constraint>, tasks: seq<string>) {
    && |constraints| == 2 * |tasks|
    && forall i :: 0 <= i < |constraints| ==>
        constraints[i].task == tasks[i / 2] && (constraints[i].sense.GE? <==> i % 2 == 0)
  }

  // ---- Findings, in order ----------------------------------------------------------------

  /** The findings of the open pairs among `assets` that cannot relay, in order. */
  ghost function PairFindings(r: Request, t: string, assets: seq<string>): seq<Finding>
    requires r.Ok()
  {
    if assets == [] then []
    else
      var a := assets[|assets| - 1];
      PairFindings(r, t, assets[..|assets| - 1])
      + if !r.Open(t, a) || r.CanRelay(t, a) then []
        else [if r.contacts.None? then NoContactData(t, a) else NoWindow(t, a)]
  }

  ghost function TaskFindings(r: Request, t: string): seq<Finding>
    requires r.Ok() && t in r.pairs
  {
    PairFindings(r, t, r.pairs[t])
    + if r.contacts.Some? && r.Gated(t) && !r.Feasible(t) then [TaskInfeasible(t)] else []
  }

  ghost function FindingsOf(r: Request, order: seq<string>): seq<Finding>
    requires r.Ok() && forall t :: t in order ==> t in r.pairs
  {
    if order == [] then []
    else FindingsOf(r, order[..|order| - 1]) + TaskFindings(r, order[|order| - 1])
  }

  ghost predicate IsFinding(r: Request, f: Finding)
    requires r.Ok()
  {
    match f
    case NoContactData(t, a) => r.contacts.None? && r.Open(t, a)
    case NoWindow(t, a) => r.contacts.Some? && r.Open(t, a) && !r.CanRelay(t, a)
    case TaskInfeasible(t) => r.contacts.Some? && r.Gated(t) && !r.Feasible(t)
  }

  lemma {:induction false} PairFindingsAreFailures(r: Request, t: string, assets: seq<string>, f: Finding)
    requires r.Ok()
    ensures f in PairFindings(r, t, assets) <==>
      !f.TaskInfeasible? && f.task == t && f.asset in assets && IsFinding(r, f)
  {
    hide Request.CanStart, Request.Open;
    if assets != [] {
      PairFindingsAreFailures(r, t, assets[..|assets| - 1], f);
      NoDataNoRelay(r, t, assets[|assets| - 1]);
    }
  }

  lemma NoDataNoRelay(r: Request, t: string, a: string)
    requires r.Ok()
    ensures r.contacts.None? ==> !r.CanRelay(t, a)
  {}

  /** The builder reports exactly the failures there are: open pairs without contact
      data or without a window, and gated tasks without any start. */
  lemma {:induction false} FindingsAreFailures(r: Request, order: seq<string>, f: Finding)
    requires r.Ok() && forall t :: t in order ==> t in r.pairs
    ensures f in FindingsOf(r, order) <==> f.task in order && IsFinding(r, f)
  {
    hide Request.CanStart, Request.CanRelay, Request.Feasible, Request.TaskStart;
    if order != [] {
      var t := order[|order| - 1];
      FindingsAreFailures(r, order[..|order| - 1], f);
      PairFindingsAreFailures(r, t, r.pairs[t], f);
    }
  }

  // ---- Gating one task ---------------------------------------------------------------------

  /** What gating one task over some of its assets has found. */
  datatype TaskGate = TaskGate(blocked: set<string>, windows: map<string, (real, real)>, lo: Option<real>, hi: Option<real>)

  /** The gate g answers for the assets in `seen`. */
  ghost predicate GateSoFar(r: Request, t: string, g: TaskGate, seen: set<string>)
    requires r.Ok()
  {
    && (forall a :: a in g.blocked <==> a in seen && r.Open(t, a) && !r.CanRelay(t, a))
    && (forall a :: a in g.windows <==> a in seen && r.Open(t, a) && r.CanRelay(t, a))
    && (forall a :: a in g.windows ==> r.IsPairWindow(t, a, g.windows[a]))
    && Spans(g.windows, g.lo, g.hi)
  }

  /** lo and hi are the extremes of the windows, and both are attained. */
  ghost predicate Spans(windows: map<string, (real, real)>, lo: Option<real>, hi: Option<real>) {
    && (lo.Some? <==> hi.Some?) && (lo.Some? <==> windows != map[])
    && (lo.Some? ==>
        && (exists a :: a in windows && windows[a].0 == lo.value)
        && (exists a :: a in windows && windows[a].1 == hi.value)
        && forall a :: a in windows ==> lo.value <= windows[a].0 && windows[a].1 <= hi.value)
  }

  /** The gate with one more asset's answer recorded. */
  function Record(g: TaskGate, a: string, fit: Option<(real, real)>): TaskGate {
    match fit
    case None => g.(blocked := g.blocked + {a})
    case Some((first, last)) =>
      TaskGate(g.blocked, g.windows[a := (first, last)],
        Some(if g.lo.None? then first else RMin(g.lo.value, first)),
        Some(if g.hi.None? then last else RMax(g.hi.value, last)))
  }

  method BuildCommsConstraints(r: Request, order: seq<string>) returns (out: WindowResult)
    requires r.Ok() && forall t :: t in order <==> t in r.pairs
    ensures Gates(r, out, r.pairs.Keys)
    ensures InPairs(out.constraints, Startable(r, order))
    ensures out.findings == FindingsOf(r, order)
  {
    hide Gates, GateSoFar, Merge, TaskFindings, Startable, InPairs, Request.Feasible;
    out := WindowResult([], {}, [], false, map[]);
    NothingDone(r);
    NonePaired(r);
    ghost var done: set<string> := {};
    if r.policy.None? {
      NothingIsGated(r, r.pairs.Keys);
      NothingIsFound(r, order);
      NoneStarts(r, order);
      return;
    }
    for i := 0 to |order|
      invariant forall t :: t in done <==> t in order[..i]
      invariant Gates(r, out, done) && out.findings == FindingsOf(r, order[..i])
      invariant InPairs(out.constraints, Startable(r, order[..i]))
    {
      var t := order[i];
      assert order[..i + 1][..i] == order[..i];
      StartableGrows(r, order, i);
      if r.policy.value.IsRelayGated(t, r.tasks[t].kind) {
        if r.contacts.None? {
          out := ForbidAll(r, t, out, done);
          NoDataNoStart(r, t);
        } else {
          var g, found := GateTask(r, t);
          MergeKeeps(r, t, g, out, found, done);
          MergeFinds(t, g, out, found);
          GateIsExact(r, t, g);
          MergePairs(r, t, g, out, found, Startable(r, order[..i]));
          out := Merge(t, g, out, found);
        }
      } else {
        UngatedKeeps(r, t, out, done);
        UngatedHasNothing(r, t);
      }
      done := done + {t};
    }
    assert order[..|order|] == order && done == r.pairs.Keys;
  }

  lemma NonePaired(r: Request)
    requires r.Ok()
    ensures InPairs([], Startable(r, []))
  {}

  lemma StartableGrows(r: Request, order: seq<string>, i: nat)
    requires r.Ok() && i < |order|
    ensures
      var before := Startable(r, order[..i]);
      Startable(r, order[..i + 1]) == if r.Feasible(order[i]) then before + [order[i]] else before
  {
    assert order[..i + 1][..i] == order[..i];
  }

  lemma {:induction false} NoneStarts(r: Request, order: seq<string>)
    requires r.Ok() && r.policy.None?
    ensures InPairs([], Startable(r, order))
  {
    if order != [] {
      NoneStarts(r, order[..|order| - 1]);
      UngatedHasNothing(r, order[|order| - 1]);
    }
  }

  lemma NoDataNoStart(r: Request, t: string)
    requires r.Ok() && r.contacts.None?
    ensures !r.Feasible(t)
  {}

  lemma MergePairs(r: Request, t: string, g: TaskGate, out: WindowResult, found: seq<Finding>, ts: seq<string>)
    requires r.Ok() && InPairs(out.constraints, ts)
    requires (g.lo.Some? <==> r.Feasible(t)) && (g.lo.Some? ==> g.hi.Some?)
    ensures InPairs(Merge(t, g, out, found).constraints, if r.Feasible(t) then ts + [t] else ts)
  {
    hide Request.Feasible;
  }

  lemma {:induction false} NothingIsFound(r: Request, order: seq<string>)
    requires r.Ok() && r.policy.None? && forall t :: t in order ==> t in r.pairs
    ensures FindingsOf(r, order) == []
  {
    if order != [] {
      NothingIsFound(r, order[..|order| - 1]);
      UngatedFinds(r, order[|order| - 1]);
    }
  }

  lemma UngatedFinds(r: Request, t: string)
    requires r.Ok() && t in r.pairs && !r.Gated(t)
    ensures TaskFindings(r, t) == []
  {
    NoneOpen(r, t, r.pairs[t]);
  }

  lemma {:induction false} NoneOpen(r: Request, t: string, assets: seq<string>)
    requires r.Ok() && !r.Gated(t)
    ensures PairFindings(r, t, assets) == []
  {
    if assets != [] {
      NoneOpen(r, t, assets[..|assets| - 1]);
    }
  }

  /** Gate one task over its eligible assets, given contact data. */
  method GateTask(r: Request, t: string) returns (g: TaskGate, findings: seq<Finding>)
    requires r.Ok() && r.Gated(t) && r.contacts.Some?
    ensures GateSoFar(r, t, g, set a | a in r.pairs[t])
    ensures findings == TaskFindings(r, t)
  {
    hide Request.Open, Request.CanRelay, Request.IsPairWindow, Request.Feasible, GateSoFar, IsEnvelope, TaskFindings,
      Record, IsExtremeStart, WindowsOf, IntervalsFor;
    var assets := r.pairs[t];
    g := TaskGate({}, map[], None, None);
    findings := [];
    ghost var seen: set<string> := {};
    NothingSeen(r, t);
    for k := 0 to |assets|
      invariant forall a :: a in seen <==> a in assets[..k]
      invariant GateSoFar(r, t, g, seen)
      invariant findings == PairFindings(r, t, assets[..k])
    {
      var a := assets[k];
      assert assets[..k + 1][..k] == assets[..k];
      if (t, a) in r.forbidden {
        SkipForbidden(r, t, g, seen, a);
        ForbiddenIsClosed(r, t, a);
      } else {
        var fit := FeasibleWindow(r.tasks[t], r.Intervals(a), r.Duration(t, a), r.policy.value.epoch0);
        PairOutcome(r, t, a, fit);
        RecordKeeps(r, t, g, seen, a, fit);
        AllowedIsOpen(r, t, a);
        if fit.None? {
          findings := findings + [NoWindow(t, a)];
        }
        g := Record(g, a, fit);
      }
      seen := seen + {a};
    }
    assert assets[..|assets|] == assets;
    assert seen == set a | a in r.pairs[t];
    GateIsExact(r, t, g);
    TaskFindingsAre(r, t);
    if g.lo.None? {
      findings := findings + [TaskInfeasible(t)];
    }
  }

  lemma TaskFindingsAre(r: Request, t: string)
    requires r.Ok() && r.Gated(t) && r.contacts.Some?
    ensures TaskFindings(r, t)
      == PairFindings(r, t, r.pairs[t]) + if r.Feasible(t) then [] else [TaskInfeasible(t)]
  {}

  lemma ForbiddenIsClosed(r: Request, t: string, a: string)
    requires r.Ok() && (t, a) in r.forbidden
    ensures !r.Open(t, a)
  {}

  lemma AllowedIsOpen(r: Request, t: string, a: string)
    requires r.Ok() && r.Gated(t) && a in r.pairs[t] && (t, a) !in r.forbidden
    ensures r.Open(t, a)
  {}

  lemma NothingSeen(r: Request, t: string)
    requires r.Ok()
    ensures GateSoFar(r, t, TaskGate({}, map[], None, None), {})
  {}

  lemma SkipForbidden(r: Request, t: string, g: TaskGate, seen: set<string>, a: string)
    requires r.Ok() && GateSoFar(r, t, g, seen) && (t, a) in r.forbidden
    ensures GateSoFar(r, t, g, seen + {a})
  {
    hide Request.CanRelay, Request.IsPairWindow, Spans;
  }

  lemma PairOutcome(r: Request, t: string, a: string, fit: Option<(real, real)>)
    requires r.Ok() && r.Gated(t) && r.contacts.Some?
    requires IsEnvelope(fit, WindowsOf(r.tasks[t]), r.Intervals(a), r.Duration(t, a), r.policy.value.epoch0)
    ensures fit.None? <==> !r.CanRelay(t, a)
    ensures fit.Some? ==> r.IsPairWindow(t, a, fit.value)
  {
    if fit.Some? {
      assert r.CanStart(t, a, fit.value.0);
    }
  }

  lemma RecordKeeps(r: Request, t: string, g: TaskGate, seen: set<string>, a: string, fit: Option<(real, real)>)
    requires r.Ok() && GateSoFar(r, t, g, seen) && r.Gated(t) && a in r.pairs[t] && (t, a) !in r.forbidden
    requires (fit.None? <==> !r.CanRelay(t, a)) && (fit.Some? ==> r.IsPairWindow(t, a, fit.value))
    ensures GateSoFar(r, t, Record(g, a, fit), seen + {a})
  {
    hide Spans, Request.CanRelay, Request.IsPairWindow;
    assert r.Open(t, a);
    hide Request.Open;
    if fit.Some? {
      SameWindow(r, t, a, g, seen, fit.value);
      LeastOf(g, a, fit.value);
    }
  }

  /** An asset listed twice gets the same window again. */
  lemma SameWindow(r: Request, t: string, a: string, g: TaskGate, seen: set<string>, w: (real, real))
    requires r.Ok() && GateSoFar(r, t, g, seen) && r.IsPairWindow(t, a, w)
    ensures a in g.windows ==> g.windows[a] == w
  {
    hide Request.Open, Request.CanStart, Spans;
  }

  lemma LeastOf(g: TaskGate, a: string, w: (real, real))
    requires Spans(g.windows, g.lo, g.hi) && (a in g.windows ==> g.windows[a] == w)
    ensures
      var g' := Record(g, a, Some(w));
      Spans(g'.windows, g'.lo, g'.hi)
  {
    var g' := Record(g, a, Some(w));
    assert a in g'.windows;
    if g.lo.Some? {
      var b :| b in g.windows && g.windows[b].0 == g.lo.value;
      var c :| c in g.windows && g.windows[c].1 == g.hi.value;
      assert g'.windows[b] == g.windows[b] && g'.windows[c] == g.windows[c];
    }
  }

  /** A finished gate's extremes are those of the task's starts. */
  lemma GateIsExact(r: Request, t: string, g: TaskGate)
    requires r.Ok() && r.Gated(t) && GateSoFar(r, t, g, set a | a in r.pairs[t])
    ensures g.lo.None? <==> !r.Feasible(t)
    ensures g.lo.Some? ==>
      g.hi.Some? && IsExtremeStart(r, t, GE, g.lo.value) && IsExtremeStart(r, t, LE, g.hi.value)
  {
    hide Request.CanStart;
    forall s: real | r.TaskStart(t, s)
      ensures g.lo.Some? && g.lo.value <= s <= g.hi.value
    {
      var a :| r.Open(t, a) && r.CanStart(t, a, s);
      assert a in g.windows;
    }
    if g.lo.Some? {
      var b :| b in g.windows && g.windows[b].0 == g.lo.value;
      var c :| c in g.windows && g.windows[c].1 == g.hi.value;
      assert r.Open(t, b) && r.CanStart(t, b, g.lo.value);
      assert r.Open(t, c) && r.CanStart(t, c, g.hi.value);
      assert r.TaskStart(t, g.lo.value) && r.TaskStart(t, g.hi.value);
    }
  }

  /** One task's gate added to the result. */
  function Merge(t: string, g: TaskGate, out: WindowResult, found: seq<Finding>): WindowResult {
    WindowResult(
      if g.lo.Some? && g.hi.Some? then out.constraints + [BoundOf(t, GE, g.lo.value), BoundOf(t, LE, g.hi.value)]
      else out.constraints,
      out.forbidden + (set a | a in g.blocked :: (t, a)),
      out.findings + found,
      out.degraded,
      out.pairWindows + (map a | a in g.windows :: (t, a) := g.windows[a]))
  }

  lemma MergeFinds(t: string, g: TaskGate, out: WindowResult, found: seq<Finding>)
    ensures Merge(t, g, out, found).findings == out.findings + found
  {}

  lemma MergeKeeps(r: Request, t: string, g: TaskGate, out: WindowResult, found: seq<Finding>, done: set<string>)
    requires r.Ok() && r.Gated(t) && r.contacts.Some? && Gates(r, out, done)
    requires GateSoFar(r, t, g, set a | a in r.pairs[t])
    ensures Gates(r, Merge(t, g, out, found), done + {t})
  {
    hide Request.CanRelay, Request.CanStart, Request.IsPairWindow, Request.Feasible, PairsSplit, GateSoFar, Request.Open,
      IsExtremeStart;
    var out' := Merge(t, g, out, found);
    GateIsExact(r, t, g);
    MergeSplits(r, t, g, out, found, done);
    forall c ensures c in out'.constraints <==> IsConstraint(r, c, done + {t}) {
      MergeBounds(r, t, g, c);
    }
    forall t', sense | t' in done + {t} && r.Feasible(t')
      ensures HasBound(out', t', sense)
    {
      if t' == t {
        assert BoundOf(t, sense, if sense.GE? then g.lo.value else g.hi.value) in out'.constraints;
      } else {
        assert HasBound(out, t', sense);
        var x: real :| BoundOf(t', sense, x) in out.constraints;
        assert BoundOf(t', sense, x) in out'.constraints;
      }
    }
  }

  /** The two bounds of a gate are all the extreme starts of its task. */
  lemma MergeBounds(r: Request, t: string, g: TaskGate, c: Constraint)
    requires r.Ok() && (g.lo.None? <==> !r.Feasible(t))
    requires g.lo.Some? ==>
      g.hi.Some? && IsExtremeStart(r, t, GE, g.lo.value) && IsExtremeStart(r, t, LE, g.hi.value)
    ensures IsConstraint(r, c, {t}) <==>
      g.lo.Some? && (c == BoundOf(t, GE, g.lo.value) || c == BoundOf(t, LE, g.hi.value))
  {
    hide Request.TaskStart;
  }

  lemma MergeSplits(r: Request, t: string, g: TaskGate, out: WindowResult, found: seq<Finding>, done: set<string>)
    requires r.Ok() && r.Gated(t) && PairsSplit(r, out, done) && GateSoFar(r, t, g, set a | a in r.pairs[t])
    ensures PairsSplit(r, Merge(t, g, out, found), done + {t})
  {
    hide Request.CanRelay, Request.CanStart, Request.IsPairWindow, Spans;
    var out' := Merge(t, g, out, found);
    forall t', a ensures (t', a) in out'.forbidden <==> t' in done + {t} && r.Open(t', a) && !r.CanRelay(t', a) {
      assert (t', a) in out'.forbidden <==> (t', a) in out.forbidden || (t' == t && a in g.blocked);
    }
  }

  /** Without contact data every open pair of the task is forbidden, loudly. */
  method ForbidAll(r: Request, t: string, before: WindowResult, ghost done: set<string>) returns (out: WindowResult)
    requires r.Ok() && r.Gated(t) && r.contacts.None? && Gates(r, before, done)
    ensures Gates(r, out, done + {t})
    ensures out.findings == before.findings + TaskFindings(r, t) && out.constraints == before.constraints
  {
    hide Request.Feasible, Request.Open, Request.CanRelay, Gates;
    out := before.(degraded := true);
    var assets := r.pairs[t];
    for k := 0 to |assets|
      invariant out.degraded && out.constraints == before.constraints && out.pairWindows == before.pairWindows
      invariant forall p :: p in out.forbidden <==>
        p in before.forbidden || (p.0 == t && p.1 in assets[..k] && p !in r.forbidden)
      invariant out.findings == before.findings + PairFindings(r, t, assets[..k])
    {
      var a := assets[k];
      assert assets[..k + 1][..k] == assets[..k];
      NoDataNoRelay(r, t, a);
      if (t, a) !in r.forbidden {
        AllowedIsOpen(r, t, a);
        out := out.(forbidden := out.forbidden + {(t, a)}, findings := out.findings + [NoContactData(t, a)]);
      } else {
        ForbiddenIsClosed(r, t, a);
      }
    }
    assert assets[..|assets|] == assets;
    ForbidAllKeeps(r, t, before, out, done);
  }

  lemma ForbidAllKeeps(r: Request, t: string, before: WindowResult, out: WindowResult, done: set<string>)
    requires r.Ok() && r.Gated(t) && r.contacts.None? && Gates(r, before, done)
    requires out.degraded && out.constraints == before.constraints && out.pairWindows == before.pairWindows
    requires forall p :: p in out.forbidden <==>
      p in before.forbidden || (p.0 == t && p.1 in r.pairs[t] && p !in r.forbidden)
    ensures Gates(r, out, done + {t})
  {
    hide Request.IsPairWindow;
    forall t', a ensures !r.CanRelay(t', a) {}
    forall t' ensures !r.Feasible(t') {}
    forall t', x: real ensures !r.TaskStart(t', x) {}
    hide Request.CanRelay, Request.Feasible, Request.TaskStart;
  }

  lemma UngatedKeeps(r: Request, t: string, out: WindowResult, done: set<string>)
    requires r.Ok() && t in r.pairs && !r.Gated(t) && Gates(r, out, done)
    ensures Gates(r, out, done + {t})
    ensures TaskFindings(r, t) == []
  {
    UngatedFinds(r, t);
    UngatedHasNothing(r, t);
    hide Request.Open, Request.Feasible, Request.TaskStart, Request.CanRelay, Request.IsPairWindow, HasBound, TaskFindings;
  }

  lemma UngatedHasNothing(r: Request, t: string)
    requires r.Ok() && !r.Gated(t)
    ensures !r.Feasible(t) && (forall a :: !r.Open(t, a)) && (forall x: real :: !r.TaskStart(t, x))
  {
    hide Request.CanStart;
    forall x: real ensures !r.TaskStart(t, x) {}
  }

  lemma NothingDone(r: Request)
    requires r.Ok()
    ensures Gates(r, WindowResult([], {}, [], false, map[]), {})
  {}

  lemma NothingIsGated(r: Request, done: set<string>)
    requires r.Ok() && r.policy.None?
    ensures Gates(r, WindowResult([], {}, [], false, map[]), done)
  {
    hide Request.CanRelay, Request.IsPairWindow, Request.CanStart;
  }
}
