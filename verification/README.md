# Guard safety core: a verified model

Guard is the trusted core that stands between an untrusted policy and the actuators of a
lunar vehicle. Once per tick it answers a proposed action with exactly one command: the
proposal itself, a minimally corrected one, or a recovery command. This project models that
core and proves what it does over whole runs, together with two small algorithms of the
allocation service.

| module | what it models |
|---|---|
| `Numbers`, `Wrappers`, `Vectors` | well-formed and malformed floats, extended reals, options and results, finite-dimensional vectors up to Cauchy-Schwarz |
| `TraceSemantics`, `TraceTheorems` | bounded past-time robust semantics on whole traces; margin, memory, causality, Boolean soundness |
| `ClauseLaws` | the exact value of every operator of a clause, and the laws between them |
| `SafetyModel`, `Decoder`, `DecodedMeaning`, `Refusals`, `Payloads` | the compiled safety model, its fail-closed decoder, what each field decodes to, what a refusal says, and what a payload must say for its core to be safe |
| `Monitors` | ring buffers, the post-order plan, one forward pass per tick |
| `KeepOutMeaning` | what the reduction of a keep-out to a barrier keeps, exactly |
| `Barriers`, `Projections` | keep-out geometry as barriers; convex sets, projections, Dykstra's algorithm |
| `EffortRows` | the second-order meaning of a barrier row in the Effort channel |
| `Shields`, `ShieldTheorems` | the filter over flat arrays, and what a solve guarantees |
| `SolveMeaning` | what a solve answers and certifies, in terms of the shield's configuration |
| `StopTests`, `OneAxis`, `Stalls` | when a tick that has a certifiable command is certified, and when it is not |
| `Backups`, `RecoveryTheorems`, `RetreatTheorems` | the three guarded recovery laws in three channels, how braking stops and where a pull leads |
| `RecoveryMeaning` | when each recovery law moves, with what command, and what it falls back to |
| `Arbiters`, `Runs` | the decision of one tick, the class that runs it, and every run of it |
| `Decisions` | what every run decides, in terms of its signals, vectors and proposals |
| `CommsWindows`, `CommsMeaning` | contact-window gating of relay-dependent tasks, and what the result means for the request |
| `SchemaPruning`, `SchemaMeaning` | reference-closed pruning of exported JSON Schemas, and what it means for the document |

The classes `RingBuf`, `NodeEval`, `Monitor`, `Shield`, `SafetyCore`, `VerdictBuffer`,
`Names` and `Document` change state in place, as the code they model does. Each of their methods is
proved equal to a function of its arguments and the old state: `Monitor.Step` to
`VerdictAfter` on the trace, `Shield.SolveMode` to `Solve`, `Backup.Control` to `Law`,
`SafetyCore.Decide` and `StepGuarded` to `Decision` and `Watchdog`. A run (`Runs.After`) is
the iteration of exactly those functions, so a theorem about runs is a theorem about the class.

What those functions are is stated a second time, without them: the `...Meaning` modules,
`ClauseLaws` and `Decisions` say in terms of the inputs and the configuration alone what each
operation answers, in both directions where it is a test.

## How the numbers are modelled

- A finite float is a `real`; an input may also be `NonFinite`, so the bad-input branches are
  real. Robustness values and barrier margins are extended reals.
- The square root is a parameter with the hypothesis `IsSqrt`: the non-negative root of every
  non-negative real.
- The decoder leaves the index of a monitor leaf unchecked, so `LeavesInRange` is an explicit
  hypothesis wherever a core is built from a model, and `LeavesFit` wherever it is built from a
  payload.
- Configured ceilings are assumed non-negative where a clamp or a ball needs it.
- A watchdog overrun is a flag of the event; a forced watchdog is an event of its own.

## Where the code and its comments differ

- `rust/src/arbiter.rs:17-19` says that monitors advance on every tick. Bad input and a forced
  watchdog return first; `Runs.TraceIsGoodTicks` states which ticks the monitors see.
- `rust/src/backup.rs:35-38` argues in continuous time that braking never adds speed. The
  sampled law needs `k_brake*dt <= 2`, and never reverses an axis only up to
  `k_brake*dt <= 1`: `RecoveryTheorems.BrakingNeverSpeedsUpIff` and `BrakingNeverReversesIff`
  are the exact conditions.
- `rust/src/shield.rs:609-611` says that the kinematic set is a fixed point of the cycle's first
  projection, so that only rows can be violated at a stall. The iterate at the end of a cycle
  can satisfy the rows, stand still and lie outside the kinematic set, so that a tick with a
  certifiable command is refused: `Stalls.StopTestCanRefuseASolvableTick`, in every dimension
  from two on and for every tolerance and positive budget. Two results say when that cannot
  happen. The shields that never refuse a solvable tick are exactly those of one axis with a
  positive budget (`Stalls.NeverRefusesIff`). In any dimension, a caller can check before the
  call whether the proposal, moved into the kinematic set alone, satisfies every row: then
  exactly that command is certified and it is the unique closest one
  (`StopTests.ClampedProposalIsCertified`), so a refused tick is always one where a row cuts
  the clamped proposal (`StopTests.RefusedMeansARowCuts`). Some of those are certified all the
  same (`Stalls.RowCutCanStillBeCertified`): which of them are depends on the whole iteration.
  A cycle that leaves the corrections alone has reached the projection, but the loop can also
  end there while they still change.
- `rust/src/shield.rs:122` calls a half-space normal a unit normal and its margin a distance.
  The barrier is the authored inequality exactly (`Barriers.HalfSpaceExact`), but nothing checks
  the length of the normal, and the margin is a distance if and only if the normal is no longer
  than one (`Barriers.MarginIsADistanceIff`).
- `rust/src/model.rs:35-36` says that robustness is non-negative exactly when the predicate
  holds. That fails for a strict comparison at its threshold, and only there
  (`SafetyModel.AtomRobustnessIsSound`).
- `rust/src/model.rs:556-560` checks a separate list of atom indices, not the leaves of the
  tree: `Decoder.LeafIndicesAreNotChecked`. An accepted payload has its leaves in range exactly
  when no leaf of its own trees names an atom beyond its predicate table
  (`Decoder.LeavesInRangeIff`), and with that condition on the payload its core is safe on
  every run (`Payloads.PayloadRunsSafely`).
- `rust/src/backup.rs:51-54` calls the guarded pull of the Velocity channel a pull toward the
  target. The guard checks the safe set only, so the emitted command approaches from every pose,
  among all keep-outs, if and only if `k_p*dt <= 2` (`RetreatTheorems.VelocityLawApproachesIff`).
- A root that falls from plus infinity to a real has an infinitely steep slope and counts as
  predicted, however large that real is (`Monitors.LeavingVacuityFires`); `Monitors.FiredIff`
  states the exact firing condition for every pair of roots.

## Model

| member | source | states |
|---|---|---|
| SafetyModel.AtomRobustnessIsSound | rust/src/model.rs:35-45 | the sign of an atom's robustness is sound for the atom, and is its truth exactly unless a strict comparison sits at its threshold |
| Decoder.NodeDecodesIff | rust/src/model.rs:289-353 | a wire tree decodes to a formula iff the formula mirrors it node by node and is well formed |
| Decoder.GeometryDim | rust/src/model.rs:388-425 | the dimension found is the one positive dimension the term's coefficients fit |
| Decoder.SharedDim | rust/src/model.rs:518-532 | one dimension fits all terms, or every dimension is refuted by some term |
| Decoder.FindSharedDim | rust/src/model.rs:518-532 | the decoder's loop computes that shared dimension, with the same first error |
| Decoder.MonitorDecodesIff | rust/src/model.rs:534-563 | a monitor decodes iff its tree is well formed, its window within the cap, its vocabulary known and its listed indices in range |
| Decoder.TermDecodesIff | rust/src/model.rs:497-516 | a keep-out term, its frame included, is acceptable in dimension d iff it decodes to a term whose coefficients fit d |
| Decoder.SpaceDecodesIff | rust/src/model.rs:497-588 | terms and safe pose, their frames included, decode iff some positive dimension fits all of them |
| Decoder.PoseFromWire | rust/src/model.rs:565-588 | a safe pose decodes iff its frame is well formed and its position finite and long enough, to exactly its coordinates |
| Decoder.LimitFromWire | rust/src/model.rs:654-663 | a limit decodes iff absent or finite and positive, to exactly itself |
| Decoder.DecodesIff | rust/src/model.rs:437-651 | a whole payload decodes iff it meets the declared demands: fail-closed and no stricter |
| Decoder.DecodedModelIsOk | rust/src/model.rs:437-651 | every accepted payload yields in-range indices, one shared positive dimension, a long enough pose, positive limits and well-formed bounded trees |
| Decoder.DecodedMonitors | rust/src/model.rs:534-563 | decoded monitors mirror the wire trees and respect the history cap |
| Decoder.LeafIndicesAreNotChecked | rust/src/model.rs:556-560 | a payload with an out-of-range leaf is accepted |
| Decoder.LeavesInRangeIff | rust/src/model.rs:534-563 | a decoded model has its leaves in range iff no leaf of the payload's trees names an atom beyond its table |
| DecodedMeaning.WordsDecode | rust/src/model.rs:24-113 | every vocabulary word decodes to the value it names |
| DecodedMeaning.AtomDecodes | rust/src/model.rs:453-472 | a decoded atom compares the wire's own signal and threshold and holds of a value exactly when the wire comparison does |
| DecodedMeaning.TreeDecodesIff | rust/src/model.rs:289-353 | a tree decodes iff its operators are known and every node has its arity, atom and ordered interval, no number negative |
| DecodedMeaning.FrameOkIff | rust/src/units.rs:89-114 | a frame is accepted iff its name and centre are words without white space and its class is one of three |
| DecodedMeaning.DecodedModelSays | rust/src/model.rs:437-651 | every field of an accepted payload means in the model what it says on the wire |
| Refusals.TooLongIff | rust/src/model.rs:534-563 | a payload is refused for its resources iff all before its monitors is acceptable and the first monitor that is not has a sound tree and a window above the cap; that monitor is named |
| Refusals.WordsAreRefusedIff | rust/src/model.rs:24-113 | a word is refused under its field's name iff the field may not hold it |
| Refusals.ForeignWordRefuses | rust/src/model.rs:453-563 | exactly when a foreign word is what an atom, a bound, a keep-out or a monitor is refused for |
| Refusals.ForeignWordIsNamed | rust/src/model.rs:24-113 | a vocabulary refusal names the field and a word the payload writes there and the field may not hold |
| Payloads.PayloadBuildsACore | rust/src/arbiter.rs:305-308 | an acceptable payload whose leaves fit decodes to a model whose core is well formed |
| Payloads.CoreFromWire | rust/src/arbiter.rs:305-308 | building from a payload succeeds iff it is acceptable, to a fresh valid core in its initial state, and otherwise reports the decode error |
| Payloads.PayloadRunsSafely | rust/src/arbiter.rs:305-373 | a condition on the payload alone makes every kinematic run of its core safe |
| Payloads.PayloadBoundsDecide | rust/src/arbiter.rs:478-512 | on every run of a payload's core a call is answered for a scalar bound iff its signals break a bound as the payload writes it |
| TraceTheorems.WindowMinIsLeast | rust/src/monitors.rs:218-241 | the bounded `always` value is the greatest lower bound of the window and attained, plus infinity on the empty one |
| TraceTheorems.WindowMaxIsGreatest | rust/src/monitors.rs:218-241 | the bounded `eventually` value is the least upper bound of the window and attained, minus infinity on the empty one |
| TraceTheorems.WitnessIsLeast | rust/src/monitors.rs:243-262 | a witness is the least of psi at t-k and phi at the k most recent ticks |
| TraceTheorems.UntilMaxIsGreatest | rust/src/monitors.rs:243-262 | `until` is the greatest witness over the window |
| TraceTheorems.RobustnessIsAMargin | rust/src/monitors.rs:179-262 | atoms within delta on the ticks the clause can see leave the root the same infinity or within delta |
| TraceTheorems.FiniteMemory | rust/src/monitors.rs:106-126 | traces longer than the clause's memory D that agree on their last D+1 ticks give the same root |
| TraceTheorems.HistoryIsCausal | rust/src/monitors.rs:143-153 | a further tick never changes the robustness of the past |
| TraceTheorems.RobustnessSignIsSound | rust/src/monitors.rs:179-262 | a positive (negative) robustness at any tick means the Boolean past-time formula holds (fails) there, for all seven operators |
| TraceTheorems.MarginProtects | rust/src/monitors.rs:179-262 | a clause whose margin exceeds delta keeps its truth value on every trace within delta |
| ClauseLaws.LeafValue | rust/src/monitors.rs:182 | a leaf is worth its own atom |
| ClauseLaws.NotIsNegation | rust/src/monitors.rs:183 | a negated clause is worth the exact arithmetic negation, the infinities exchanged |
| ClauseLaws.DoubleNegation | rust/src/monitors.rs:183 | negating twice gives the history back |
| ClauseLaws.AndIsLeast | rust/src/monitors.rs:184 | a conjunction is worth the attained least of its arguments |
| ClauseLaws.OrIsGreatest | rust/src/monitors.rs:185 | a disjunction is worth the attained greatest of its arguments |
| ClauseLaws.AlwaysIsLeast | rust/src/monitors.rs:186-190 | `always` is worth the attained least over the ticks between lo and hi ago, plus infinity if there are none |
| ClauseLaws.EventuallyIsGreatest | rust/src/monitors.rs:191-195 | `eventually` is worth the attained greatest over those ticks, minus infinity if there are none |
| ClauseLaws.UntilIsGreatestWitness | rust/src/monitors.rs:243-262 | `until` is worth the greatest, over those ticks s, of the least of psi at s and phi ever since |
| ClauseLaws.DeMorgan | rust/src/monitors.rs:183-185 | the negation of a conjunction has the value of the disjunction of the negations, and dually |
| ClauseLaws.AlwaysIsDualToEventually | rust/src/monitors.rs:218-241 | `not always` has the value of `eventually not` over the same window, and dually |
| Monitors.RingBuf.constructor | rust/src/monitors.rs:31-39 | a new buffer holds nothing and has capacity max(1, cap) |
| Monitors.RingBuf.Push | rust/src/monitors.rs:42-48 | pushing appends to the pushed sequence and keeps the buffer holding its last cap entries |
| Monitors.RingBuf.At | rust/src/monitors.rs:51-58 | reading k ago gives the k-th last push iff it is among the last cap, nothing otherwise |
| Monitors.Flatten | rust/src/monitors.rs:106-126 | the plan is in post-order, children below parents, node by node the formula's tree, with no shared storage and the root last |
| Monitors.Monitor.constructor | rust/src/monitors.rs:129-139 | a new monitor is in step with the empty trace |
| Monitors.Monitor.Step | rust/src/monitors.rs:143-177 | after any sequence of ticks every node carries the robustness of its subtree on the whole trace, and the verdict is the one the whole trace deserves |
| Monitors.Monitor.EvalAll | rust/src/monitors.rs:148-151 | one forward pass brings every node's buffers and value in step with the longer trace |
| Monitors.Monitor.EvalNode | rust/src/monitors.rs:179-205 | a node pushes exactly its operands and its value is that of its operator on children and buffered histories |
| Monitors.Monitor.ReduceChildren | rust/src/monitors.rs:211-217 | the children's least or greatest value |
| Monitors.Monitor.WindowReduce | rust/src/monitors.rs:220-241 | the ring-buffer loop equals the window extremum of the whole pushed history |
| Monitors.Monitor.UntilReduce | rust/src/monitors.rs:245-262 | the one-pass loop with a running minimum equals the bounded `until` of the whole histories |
| Monitors.NodeValueIsRobustness | rust/src/monitors.rs:179-205 | the value of a node on its operands' histories is the clause's robustness at the last tick |
| Monitors.FiredIff | rust/src/monitors.rs:153-177 | for every previous and current root, the first tick and the infinities included, a monitor fires iff violated, lost within the horizon along a straight line, or fallen from plus infinity to a real |
| Monitors.VerdictReports | rust/src/monitors.rs:153-177 | a verdict reports the root, whether it is negative, the ticks a straight line leaves it, and whether those are within the horizon |
| Monitors.LeavingVacuityFires | rust/src/monitors.rs:159-168 | a root that falls from plus infinity to any satisfied real fires as predicted |
| Barriers.RowImpliesSafety | rust/src/shield.rs:31-37 | a row satisfied within s puts the realised next pose at a barrier value of at least -dt*s (Velocity) or -s (Position), in n dimensions, for both barrier kinds |
| Barriers.RowIsSupportingHalfSpace | rust/src/shield.rs:331-337 | a kinematic row within s holds iff the barrier value plus the move along the outward normal stays above -dt*s or -s; for a half-space that is its exact value at the next pose |
| EffortRows.EffortRowIsSecondOrder | rust/src/shield.rs:312-330 | an Effort row holds by exactly c2 + k1*c1 + k0*h, where h, c1, c2 are value, slope and curvature of the barrier along the constant-acceleration motion |
| Barriers.HalfSpaceExact | rust/src/shield.rs:139-145 | a half-space barrier is non-negative iff normal.x + offset >= margin |
| Barriers.HalfSpaceWithin | rust/src/shield.rs:139-145 | within slack the margin inequality holds up to slack times the normal's length |
| Barriers.RoundRegionClearance | rust/src/shield.rs:129-163 | a point safe for a box or sphere is at least margin minus slack from every point of the box or sphere |
| Barriers.HalfSpaceClearance | rust/src/shield.rs:139-145 | for a half-space the distance kept times the normal's length is at least the margin |
| Barriers.MarginIsADistanceIff | rust/src/shield.rs:118-147 | the margin is a distance for boxes and spheres, and for a half-space iff its normal is no longer than one |
| KeepOutMeaning.SphereIsExact | rust/src/shield.rs:131-134 | a sphere's barrier is the distance to its centre less radius and margin |
| KeepOutMeaning.BoxIsItsSphere | rust/src/shield.rs:135-138 | a box's barrier is that of the sphere through its corners, margin included |
| KeepOutMeaning.BoxSphereIsSmallest | rust/src/shield.rs:39-42 | that sphere holds the box, and none around any centre that does is smaller |
| KeepOutMeaning.HalfSpaceIsNormalised | rust/src/shield.rs:139-145 | a half-space's normal is divided to unit length and its offset alike, or by the least positive float if it is shorter |
| Projections.AnyDividerStaysInBall | rust/src/shield.rs:234-268 | whatever the divider answers, the validated factor is in [0,1] and stays in the ball within the validation slack |
| Projections.BallScaleIsExact | rust/src/shield.rs:234-247 | with an exact divider the factor lands on the sphere from outside and is 1 inside |
| Projections.ProjectionIsNormal | rust/src/shield.rs:564-586 | each of the three projections lands in its set with an outward-normal residual: it is the metric projection |
| Projections.ProjectionFixesMembers | rust/src/shield.rs:623-648 | a point of a set is not moved by the projection onto it |
| Projections.StageConserves | rust/src/shield.rs:551-586 | iterate plus all corrections equals the proposal after every stage of every cycle |
| Projections.CorrectionsAreNormals | rust/src/shield.rs:554-586 | each correction lies in the normal cone of its set at that stage's point |
| Projections.CycleEndIsNearOptimal | rust/src/shield.rs:542-607 | for every feasible z, <x0-x, z-x> is at most the drift sum of <c_j, x_j-x> at each cycle end, so no feasible command is closer by more than twice it |
| Projections.StillCycleIsTheProjection | rust/src/shield.rs:542-607 | when no stage of a cycle moves the point it is the unique closest feasible command |
| Projections.FeasibleIsFixed | rust/src/shield.rs:542-586 | a feasible proposal and its zero corrections survive every stage unchanged |
| Shields.Shield.constructor | rust/src/shield.rs:348-378 | the workspace has the right sizes and is shared with nothing |
| Shields.Shield.StageKinematic | rust/src/shield.rs:554-562 | stage 0 over the flat arrays is one projection step onto the kinematic set |
| Shields.Shield.StageRow | rust/src/shield.rs:564-586 | stage j+1 over the flat arrays is one projection step onto row j and touches only its correction row |
| Shields.Shield.ProjectKinematic | rust/src/shield.rs:623-648 | clamp, speed ball and step ball are the projections of the three channels |
| Shields.Shield.OneCycle | rust/src/shield.rs:551-606 | a cycle over the flat arrays is the declarative cycle, and it stops iff it moved less than tol and satisfies the rows |
| Shields.Shield.Dykstra | rust/src/shield.rs:542-607 | the loop's result is the budgeted iteration from the proposal |
| Shields.Shield.RowsHold | rust/src/shield.rs:612-618 | the row test is exactly a.x >= b - tol for every row |
| Shields.Shield.Certify | rust/src/shield.rs:481-536 | a command is certified iff rows, kinematic set and (kinematic channels) the realised next pose are all within tol |
| Shields.Shield.BuildRow | rust/src/shield.rs:275-339 | writing one barrier into the flat matrix changes that row only, to the barrier's constraint |
| Shields.Shield.SolveMode | rust/src/shield.rs:417-476 | the whole solve, whatever is left in the workspace, is a function of its arguments |
| Shields.RowsAfterWrite | rust/src/shield.rs:569-585 | overwriting one row of a flat row-major buffer changes that row alone |
| SolveMeaning.EffortRowsAreSecondOrder | rust/src/shield.rs:445-465 | every Effort row of a shield holds by the second-order expression with the configured k0 and k1 |
| SolveMeaning.CertifiedEffortIsSecondOrderSafe | rust/src/shield.rs:481-490 | every certified Effort command keeps c2 + k1*c1 + k0*h >= -tol for every barrier along the motion it causes, with the configured gains |
| SolveMeaning.CertifiedIff | rust/src/shield.rs:470-536 | a usable tick is certified iff the loop's answer holds every row, is within its ceiling and lands safely, all within tol |
| SolveMeaning.LoopEndsAtFirstStop | rust/src/shield.rs:551-607 | the loop runs cycle after cycle to the first that moved less than tol to where the rows hold, or to the budget |
| SolveMeaning.UnusableIsRefused | rust/src/shield.rs:430-468 | malformed vectors and poses within 1e-9 of a centre are refused, the proposal cut to length |
| SolveMeaning.MarginIsLeastReported | rust/src/shield.rs:445-475 | the margin is the least static value of the barriers, minus the radius at a centre, plus infinity without barriers |
| SolveMeaning.ParamsAreAsConfigured | rust/src/shield.rs:348-378 | a shield is built with the configuration, the model's period, the lower of each pair of ceilings and one barrier per term |
| ShieldTheorems.BudgetEndsACycle | rust/src/shield.rs:542-607 | whatever positive budget is left, the result is a cycle end of a conserved iterate |
| ShieldTheorems.SolveIsNearOptimal | rust/src/shield.rs:542-607 | the solve's answer is within twice its drift of the closest feasible command, and is the unique closest one if its last cycle changed nothing |
| ShieldTheorems.FixedPointIffStill | rust/src/shield.rs:551-586 | a cycle changes nothing, corrections included, iff no stage moved the point; it is then the projection |
| ShieldTheorems.SatisfiedRowsAreSafe | rust/src/shield.rs:31-37 | rows satisfied within s make the next pose safe against every keep-out at once |
| ShieldTheorems.NoChangeIsMade | rust/src/shield.rs:417-476 | a proposal that meets rows and kinematic set at a non-degenerate pose is certified unchanged, in all three channels |
| ShieldTheorems.ReportedMarginIsLeast | rust/src/shield.rs:445-468 | the reported margin is never above any barrier's static value at the pose, and at a non-degenerate pose is the least of them |
| StopTests.UncutSettles | rust/src/shield.rs:542-607 | if no other set cuts the proposal moved into the first, every positive budget answers that point |
| StopTests.AnswersTheFirstSetIff | rust/src/shield.rs:542-607 | on a solvable problem every positive budget answers the proposal moved into the first set iff no other set cuts that point |
| StopTests.ClampedProposalIsCertified | rust/src/shield.rs:417-476 | if the proposal moved into the kinematic set satisfies every row, it is certified in all three channels and strictly closest |
| StopTests.RefusedMeansARowCuts | rust/src/shield.rs:417-476 | a well-formed non-degenerate tick is refused only if some row cuts the clamped proposal |
| OneAxis.OneAxisIsExact | rust/src/shield.rs:542-607 | on one axis every positive budget answers a feasible command between the proposal and every feasible one |
| Stalls.OneAxisIsNeverRefused | rust/src/shield.rs:417-476 | on one axis every solvable tick is certified, with the closest command there is |
| Stalls.StopTestCanRefuseASolvableTick | rust/src/shield.rs:599-618 | with two axes or more, for every tolerance and positive budget, a solvable tick is refused |
| Stalls.RowCutCanStillBeCertified | rust/src/shield.rs:599-618 | a tick whose clamped proposal a row cuts is certified with the closest command while the corrections still change |
| Stalls.NeverRefusesIff | rust/src/shield.rs:542-618 | the shields of a dimension, tolerance and budget refuse no solvable tick iff the dimension is one and the budget positive |
| RecoveryTheorems.LawIsInEnvelope | rust/src/backup.rs:171-174 | every recovery command is exactly within the box, speed ball or step ball of its channel |
| RecoveryTheorems.LawKeepsSafe | rust/src/backup.rs:51-56 | in a kinematic channel a recovery law reaches a pose within SET_TOL of safe, or does not move |
| RecoveryTheorems.PullTickIsTheLaw | rust/src/backup.rs:289-346 | an admitted pull is what the guarded law emits |
| RecoveryTheorems.StreakEnergy | rust/src/backup.rs:61-66 | along n admitted pulls V_n + 1 <= (1+DIST_TOL)^n (V_0 + 1) and every reached position is safe |
| RecoveryTheorems.BrakingNeverSpeedsUpIff | rust/src/backup.rs:132-134 | sampled braking never increases an axis speed iff k_brake*dt <= 2 |
| RecoveryTheorems.BrakingNeverReversesIff | rust/src/backup.rs:132-134 | sampled braking never reverses an axis iff k_brake*dt <= 1 |
| RecoveryTheorems.SaturatedPhaseEnds | rust/src/backup.rs:132-134 | each saturated tick takes exactly u_max*dt off the speed, so n saturated ticks need n*u_max*dt <= abs(v0) |
| RecoveryTheorems.UnsaturatedContraction | rust/src/backup.rs:132-134 | once unsaturated, n ticks multiply the velocity by exactly (1 - k_brake*dt)^n |
| RecoveryTheorems.BrakingSettles | rust/src/backup.rs:34-38 | from any speed some m <= abs(v0)/(u_max*dt) ends the saturated phase, and every later velocity is the geometric one |
| RecoveryTheorems.BrakingComesToRest | rust/src/backup.rs:34-38 | n ticks after that phase the speed is at most the first one over 1 + n*k_brake*dt |
| RecoveryTheorems.BrakeLawSlowsThePlant | rust/src/backup.rs:202-207 | with k_brake*dt <= 2 the brake law does not increase the speed of the whole plant |
| RetreatTheorems.PositionPullApproaches | rust/src/backup.rs:268-275 | a position pull ends exactly one full step closer to the target, or on it |
| RetreatTheorems.StepIsTheLaw | rust/src/backup.rs:258-283 | an admitted position pull is what the guarded law emits |
| RetreatTheorems.PositionRetreatArrives | rust/src/backup.rs:258-283 | after n admitted position pulls the distance is max(0, d0 - n*step_max): a retreat or hold arrives and then stays |
| RetreatTheorems.VelocityPullScales | rust/src/backup.rs:238-250 | a velocity pull multiplies the offset from the target by one minus the capped gain times dt |
| RetreatTheorems.VelocityPullApproachesIff | rust/src/backup.rs:238-246 | a velocity pull never moves away from its target, from any pose, iff k_p*dt <= 2 |
| RetreatTheorems.VelocityLawApproachesIff | rust/src/backup.rs:228-254 | the emitted command, pull or stop, never moves away from its target, among any keep-outs and from any pose, iff k_p*dt <= 2 |
| RetreatTheorems.LawOvershoots | rust/src/backup.rs:247-253 | a keep-out, goal and pose where the guard admits a pull that moves away |
| RetreatTheorems.VelocityRetreatIsBraking | rust/src/backup.rs:228-254 | after n admitted velocity pulls the distance is what n ticks of braking leave of a speed of that size |
| RetreatTheorems.VelocityRetreatArrives | rust/src/backup.rs:228-254 | after some m <= d0/(v_max*dt) admitted pulls the distance is at most d0 over 1 + n*k_p*dt n pulls later |
| RetreatTheorems.PullDissipates | rust/src/backup.rs:39-41 | where no axis saturates the pull takes energy out at exactly the rate k_d times the squared speed |
| Backups.Backup.Control | rust/src/backup.rs:175-197 | the command for a kind in a channel is the law with that kind's target |
| Backups.Backup.RunBrake | rust/src/backup.rs:202-207 | braking opposes the velocity per axis within the box, malformed components read as zero |
| Backups.Backup.HoldPosition | rust/src/backup.rs:218-223 | the position floor is the current pose, malformed components read as zero |
| Backups.Backup.GuardedVelocity | rust/src/backup.rs:228-254 | the speed-capped pull iff the next pose is safe, else the stop |
| Backups.Backup.GuardedPosition | rust/src/backup.rs:258-283 | the step-capped target iff it is safe, else the current pose |
| Backups.Backup.GuardedMove | rust/src/backup.rs:289-346 | the saturated pull iff energy and predicted position are admitted, else the brake |
| Backups.Backup.EnergyOk | rust/src/backup.rs:315-328 | the running sums decide exactly whether the predicted energy grows beyond the slack |
| Backups.Backup.InSet | rust/src/backup.rs:330-339 | the loop decides exactly whether the predicted position is safe |
| RecoveryMeaning.EffortLawAnswers | rust/src/backup.rs:289-346 | in Effort the pull is emitted iff goal and state are well formed and its exact step lands outside every keep-out without raising the energy; in every other case each axis brakes |
| RecoveryMeaning.VelocityLawAnswers | rust/src/backup.rs:228-254 | in Velocity the capped pull is emitted iff well formed and landing outside every keep-out, else the stop |
| RecoveryMeaning.PositionLawAnswers | rust/src/backup.rs:258-283 | in Position the step-capped target is emitted iff well formed and outside every keep-out, else the pose |
| RecoveryMeaning.LawAnswers | rust/src/backup.rs:175-197 | a brake has no target, a hold the anchor it is given, a retreat the safe pose, in each channel |
| RecoveryMeaning.BackupIsAsConfigured | rust/src/backup.rs:137-169 | the backup of a core has the configured brake gain, a critically damped pull, the model's period, keep-outs and safe pose, and the lower of each pair of ceilings |
| RecoveryMeaning.EveryFallbackAnswers | rust/src/arbiter.rs:596-658 | on every run each fallback is what the law of its channel answers for nothing, the first position of the Hold streak, or the safe pose |
| Arbiters.Narrow | rust/src/shield.rs:680-690 | the effective allowlist is exactly configured and authored, empty when nothing is authored |
| Arbiters.FirstMonitor | rust/src/arbiter.rs:486-492 | the monitor reported is the first one that fires |
| Arbiters.FirstBound | rust/src/arbiter.rs:494-502 | the bound reported is the first one violated |
| Arbiters.NewCoreIsOk | rust/src/arbiter.rs:317-373 | a decoded model with leaves in range yields a well-formed core whose shield and backup share geometry, period and ceilings |
| Arbiters.SafetyCore.constructor | rust/src/arbiter.rs:317-373 | the constructed object satisfies its invariant, starts in the initial state and shares no storage |
| Arbiters.SafetyCore.Decide | rust/src/arbiter.rs:450-594 | one tick maps old state and input to new state and full verdict as the precedence says, and keeps every index in range |
| Arbiters.SafetyCore.StepGuarded | rust/src/arbiter.rs:424-432 | an overrun discards the verdict for the watchdog's but keeps the advanced monitors |
| Arbiters.SafetyCore.EvalAtoms | rust/src/arbiter.rs:478-483 | the scratch array holds the robustness of every atom |
| Arbiters.SafetyCore.StepMonitors | rust/src/arbiter.rs:484-492 | every monitor advances whatever fires, and the first firing one is reported |
| Arbiters.SafetyCore.ScanBounds | rust/src/arbiter.rs:494-502 | the scan reports the first violated bound |
| Arbiters.SafetyCore.EmitBackup | rust/src/arbiter.rs:596-637 | the fallback verdict and the anchor: latched at the first Hold, kept along it, released by anything else |
| Arbiters.SafetyCore.EmitWatchdog | rust/src/arbiter.rs:639-658 | the watchdog brakes, clears what fired, reports minus infinity and releases the anchor |
| Arbiters.SafetyCore.GateAndShield | rust/src/arbiter.rs:521-555 | granted directives pass untouched, others fall back, and without a shield the proposal is accepted |
| Arbiters.SafetyCore.RunShield | rust/src/arbiter.rs:557-594 | uncertified solves fall back, and a command counts as modified iff some coordinate moved more than the tolerance |
| Arbiters.SafetyCore.Differs | rust/src/arbiter.rs:571-576 | the comparison loop decides exactly that |
| Arbiters.SafetyCore.FiredName | rust/src/arbiter.rs:375-378 | a fired index resolves to the bound's or, past the bounds, the monitor's constraint id |
| Runs.TraceIsGoodTicks | rust/src/arbiter.rs:454-492 | on every run the monitors have seen exactly the well-formed, non-forced ticks, overrun ones included |
| Runs.MonitorsSeeEveryTickIff | rust/src/arbiter.rs:17-19 | the monitors have seen every tick of a run iff every call of it was well formed and none forced |
| Runs.ForcedAndMalformedCallsLeaveAGap | rust/src/arbiter.rs:454-476 | a forced and a malformed call leave the monitors as they were built |
| Runs.AdmitsExactlyGranted | rust/src/arbiter.rs:167-186 | the core's gate admits an action iff it is a directive named by both configuration and model |
| Decisions.BadInputIff | rust/src/arbiter.rs:460-476 | on every run a call is bad input iff on time and some signal, needed state component or command component is missing or not finite |
| Decisions.TraceMeasuresTheSignals | rust/src/arbiter.rs:478-492 | every tick the monitors see measures, atom by atom, the distance of the atom's own signal from its threshold, negative iff it is on the wrong side |
| Decisions.ScalarViolatedIff | rust/src/arbiter.rs:494-512 | on every run a call is answered for a bound iff the signal of some bound's atom is strictly on the wrong side; the first is named and its authored recovery run |
| Decisions.MonitorSignIsTruth | rust/src/arbiter.rs:478-492 | on every run the sign of a monitor's root is the truth of its clause over the authored comparisons on the signals themselves |
| Decisions.MonitorFiredIff | rust/src/arbiter.rs:484-519 | on every run a call that breaks no bound is answered for a monitor iff some root asks over the configured horizon; the first is named and its authored recovery run |
| Decisions.EveryVerdictIsProper | rust/src/arbiter.rs:450-658 | every fallback is in the commanded channel with the kind and margin of its cause, every acceptance is the directive, the command itself or the shield's answer, and is a correction iff some coordinate moved beyond the tolerance |
| Decisions.CoreIsAsConfigured | rust/src/arbiter.rs:317-373 | a core keeps model, horizon, tolerance and fallback channel, grants what both sides grant, and starts with no tick and no anchor |
| Runs.VerdictPrecedence | rust/src/arbiter.rs:450-594 | on every run a verdict is not a fallback iff the call was on time, well formed, quiet and certifiable; each fallback reason is tied to its layer |
| Runs.VerdictIsHonest | rust/src/arbiter.rs:571-593 | layer, intervention, reason and recovery kind agree in every verdict, and a command is reported as corrected iff some coordinate moved by more than the tolerance |
| Runs.FiredNamesTheFirst | rust/src/arbiter.rs:494-519 | on every run a detect fallback names the first violated bound, else the first firing monitor, with that constraint's recovery kind |
| Runs.LatchFollowsVerdict | rust/src/arbiter.rs:596-658 | after one call the latch is set iff the verdict was a Hold, and the command steers to the anchor |
| Runs.HoldLatch | rust/src/arbiter.rs:596-658 | in every reachable state the latch is set iff the last outcome was a Hold, and the anchor is the position at the first call of the unbroken streak |
| Runs.EveryCommandIsFinite | rust/src/backup.rs:199-223 | no malformed input component reaches an emitted command |
| Runs.EveryCommandIsInEnvelope | rust/src/arbiter.rs:335-348 | on a keep-out model every numeric command is within min(configured, authored), exactly from the backup and within tol from the shield |
| Runs.MinimalIntervention | rust/src/arbiter.rs:542-593 | on any run, a proposal that needs no change is re-emitted unchanged as Primary and Certified |
| Runs.TickKeepsSafe | rust/src/arbiter.rs:450-658 | one call, whichever layer answers, keeps every barrier at or above -max(tol, SET_TOL) |
| Runs.ClosedLoopIsSafe | rust/src/arbiter.rs:450-658 | a kinematic plant that starts outside every keep-out within the slack stays outside on every run of any length |
| Runs.ClosedLoopKeepsItsDistance | rust/src/shield.rs:126-147 | on every run the plant stays at least margin minus slack away from every box and sphere |
| Runs.ClosedLoopKeepsItsSide | rust/src/shield.rs:139-145 | on every run the plant keeps the margin of every half-space up to the slack times the normal's length |
| CommsWindows.IntervalsFor | src/astro_mine/allocate/constraints/comms.py:59-68 | exactly the intervals between the node and a relay target, as often as listed, sorted by start, end and nodes |
| CommsWindows.FeasibleWindow | src/astro_mine/allocate/constraints/comms.py:71-105 | none iff no start fits any pair of task window and interval, else the least and greatest feasible start, both attained |
| CommsWindows.EnvelopeIgnoresOrder | src/astro_mine/allocate/constraints/comms.py:67-105 | the window depends on the sets of windows and intervals only, so sorting cannot change it |
| CommsWindows.GateTask | src/astro_mine/allocate/constraints/comms.py:152-190 | a task's gate blocks exactly its open pairs without a fit, records the exact window of the others and reports the failures in order |
| CommsWindows.GateIsExact | src/astro_mine/allocate/constraints/comms.py:184-206 | the gate's extremes are the least and greatest start over all open pairs, and absent iff there is none |
| CommsWindows.ForbidAll | src/astro_mine/allocate/constraints/comms.py:133-149 | without contact data every open pair is forbidden, reported in order, and the result marked degraded |
| CommsWindows.BuildCommsConstraints | src/astro_mine/allocate/constraints/comms.py:108-213 | the builder forbids exactly the not-yet-forbidden pairs without a fit, and emits exactly the least and greatest start of each task that has one, as two constraints, task by task in order |
| CommsWindows.FindingsAreFailures | src/astro_mine/allocate/constraints/comms.py:136-190 | the ordered findings are exactly the failures there are: pairs without contact data or window, tasks without a start |
| CommsMeaning.TargetIffRelay | src/astro_mine/allocate/constraints/comms.py:41-56 | a node is a relay target iff ground or named a relay in any case, and every node is if none is |
| CommsMeaning.OrderIs | src/astro_mine/allocate/constraints/comms.py:67-68 | intervals come by start, then end, then first and second node in dictionary order |
| CommsMeaning.RunsInsideThroughout | src/astro_mine/allocate/constraints/comms.py:71-105 | a feasible start is one from which the task is inside its window and the contact at every instant of its duration |
| CommsMeaning.PairsMean | src/astro_mine/allocate/constraints/comms.py:108-213 | a pair is forbidden iff it may serve and no contact carries it, and else has the least and greatest of its starts as window |
| CommsMeaning.ConstraintsMean | src/astro_mine/allocate/constraints/comms.py:192-206 | the constraints are exactly the least start as lower and the greatest as upper bound of each task that has one, under their ids |
| CommsMeaning.FindingsMean | src/astro_mine/allocate/constraints/comms.py:133-190 | the findings are exactly the pairs without contact data or contact and the tasks without a start |
| CommsMeaning.StartableIs | src/astro_mine/allocate/constraints/comms.py:184-206 | the tasks that get constraints are those with a start, as often as taken and in the order taken |
| CommsMeaning.ConstraintsInTurn | src/astro_mine/allocate/constraints/comms.py:192-206 | the constraints come two by two, the lower bound first, for each of those tasks in turn |
| CommsMeaning.FindingsInTurn | src/astro_mine/allocate/constraints/comms.py:130-190 | each failure is reported once, or for a pair as often as its asset is listed, in the order of tasks and pairs, the task itself last |
| SchemaPruning.Names.LocalRefNames | src/astro_mine/allocate/_schema.py:66-76 | the accumulator gains exactly the local references inside the node |
| SchemaPruning.ReachableIsLeastClosed | src/astro_mine/allocate/_schema.py:89-102 | the names with a reference chain from the root are the least closed set |
| SchemaPruning.Document.PruneUnusedDefs | src/astro_mine/allocate/_schema.py:79-104 | the worklist terminates and keeps exactly the definitions with a chain from the root, everything else untouched |
| SchemaPruning.PruningKeepsReachability | src/astro_mine/allocate/_schema.py:79-104 | pruning breaks no reference chain and makes none |
| SchemaPruning.PruningTwiceIsPruningOnce | src/astro_mine/allocate/_schema.py:79-104 | pruning is idempotent |
| SchemaPruning.PrunedResolvesIff | src/astro_mine/allocate/_schema.py:79-104 | a pruned document resolves iff everything reachable was defined |
| SchemaPruning.RewriteDropsCoreTypes | src/astro_mine/allocate/_schema.py:115-125 | a rewritten node refers to nothing new and to no core type |
| SchemaPruning.RewriteFixesIff | src/astro_mine/allocate/_schema.py:115-125 | rewriting leaves a node alone iff nothing in it refers to a core type |
| SchemaPruning.ExternalizeCoreTypes | src/astro_mine/allocate/_schema.py:107-133 | the step rewrites, drops the core types and prunes, into a document of its own |
| SchemaPruning.NoCoreTypeIsLeft | src/astro_mine/allocate/_schema.py:107-133 | no local reference to a core type and no definition of one is left |
| SchemaPruning.ExternalizingKeepsResolution | src/astro_mine/allocate/_schema.py:107-133 | if every local reference resolved before, every one resolves after |
| SchemaMeaning.RefersIff | src/astro_mine/allocate/_schema.py:66-71 | a node refers to N iff its "$ref" is the string "#/$defs/N" |
| SchemaMeaning.RefNamesIff | src/astro_mine/allocate/_schema.py:66-76 | a name is gathered iff something standing in the node at any depth refers to it |
| SchemaMeaning.ChainsAreOfReferences | src/astro_mine/allocate/_schema.py:86-102 | chains start at references outside "$defs" and go on at references in a definition |
| SchemaMeaning.PruningKeeps | src/astro_mine/allocate/_schema.py:79-104 | pruning keeps everything outside "$defs" and exactly the definitions at the end of a chain, as they were |
| SchemaMeaning.RewriteIs | src/astro_mine/allocate/_schema.py:115-125 | a reference to a core type becomes the reference its name is mapped to; any other node keeps its shape |
| SchemaMeaning.ExternalizedIs | src/astro_mine/allocate/_schema.py:107-133 | the step leaves every part rewritten and exactly the definitions that are no core type and still end a chain |

## Left out

- IEEE-754 rounding, overflow and NaN arithmetic: finite floats are reals. `ball_scale` is the one place where the divider may answer anything.
- Non-finite keep-out coefficients and configuration values, which the code does not reject: they have no real counterpart.
- `MIN_POSITIVE` is the decimal 2.2250738585072014e-308, not the exact power of two; only its positivity matters.
- Allocation: buffer sizes that overflow memory, and the `history_window_len` cap, which does not bound the buffers.
- The protobuf bytes and the version, identity and hash fields of the payload, which nothing reads. Decode errors carry their kind and field, not the message text.
- Wall-clock time: an overrun is an event, not a measurement.
- Position safety in the Effort channel: the code certifies the barrier row only and promises no discrete-time position. Closed-loop theorems assume nothing is commanded in Effort.
- Convergence of Dykstra's algorithm in the limit: the code has a fixed budget, and the per-cycle facts are proved instead.
- Runs.EveryCommandIsFinite: real arithmetic cannot overflow, so the guards against a non-finite candidate command have nothing to catch.
- Stalls.RowCutCanStillBeCertified: no closed condition is given for the ticks whose clamped proposal a row cuts, with two axes or more; their outcome is that of the iteration.
- Envelope claims for a core without keep-out terms, which passes proposals unprojected.
- Monitors.Monitor.Step: the trace is a ghost field; what a run stores are the buffers.
- CommsWindows.BuildCommsConstraints: the text of a finding is not modelled; its code, task, asset and place are. Lower-casing of a node's kind is ASCII only.
- CommsWindows.GateTask: one task's answers are gathered first and merged into the result after, rather than added to it pair by pair.
- Functions outside the modelled files (`window_envelope`, `assignment_pairs`) are inputs.
- SchemaPruning: dictionary order, `_with_meta` and the export of the three documents. NoCoreTypeIsLeft and ExternalizingKeepsResolution assume that definitions are schemas rather than bare strings and that the replacement references are external, as the one configured reference is.
- The Python binding, the build script, the Kani harnesses, signing and attestation, the validators, and the rest of the allocation service: wrappers or easy members.
