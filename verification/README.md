# Gravity simulation: physics and gesture model

A Dafny model of the core of a small pygame N-body simulation (`main.py`).
Bodies attract each other by Newtonian gravity, merge perfectly inelastically
when their discs overlap, and leave a bounded trail of past positions. The user
creates bodies with the mouse. A press anchors a pending body. Holding the left
button charges its mass with elapsed time. Releasing launches it with the drag
vector reversed. A right click also moves the heaviest body to the pointer and
stops it.

The model works over exact reals. Positions and velocities are a `Vec2`
datatype. A body is an immutable `Body` value. The body list is a
`seq<Body>`. The pending-body state is `Idle | Charging(anchor, since, buffer)`.

Modules, following the structure of `main.py`:

- `Vectors` (`vectors.dfy`): 2D vector arithmetic, and the sign facts about squares.
- `Outcomes` (`outcomes.dfy`): the exceptions that stop the program, as `Fail(fault)` values.
- `Bodies` (`bodies.dfy`): the `Body` class: construction, `update_pos`, `update_radius`, and the trace buffer.
- `Interaction` (`interaction.dfy`): `Body.gravitation`, with the gravity branch and the merge branch, and the properties of a pair rule that the pass relies on.
- `Simulation` (`simulation.dfy`): the pair pass over `combinations(bodies, 2)`, removal of bodies with mass 0, integration, and the recenter-heaviest action.
- `Gesture` (`gesture.dfy`): mouse events, the charge formula, the frame loop, and the invariant every reachable world keeps.

Numerics that are irrational are left uninterpreted. They live in a
`Numerics` record of two functions, `unit` (pygame's `normalize`) and
`cubeRoot` (`** (1/3)`). Every theorem holds for every choice of them. The
distance test `distance > r1 + r2` is decided exactly without a square root
(`Interaction.Separated`). `Interaction.SeparatedIsDistanceTest` proves that
this agrees with the comparison on the true distance. The force
`G*m1*m2/distance**2` is computed exactly from the squared distance.

The pair pass is written once for any pair rule: a partial function from two
bodies of positive mass to an outcome. `Interaction.RuleOk` names what the pass
needs from its rule. The rule fails exactly on coinciding positions. It
conserves the pair's totals. It keeps or merges masses as `gravitation` does,
and keeps consistent bodies consistent. `Interaction.GravityRule` is
`gravitation` as such a rule, `Interaction.GravityRuleOk` proves it has
these properties, and `Simulation.Pass` is the pass with that rule. The
proofs about the pass use only these properties, never the force formula.

The crashes of the program are modelled as results, not as preconditions:

- `normalize` of the zero vector (two bodies at the same point) gives `ZeroLengthNormalize`.
- A left-button release or a held left button with no pending body gives `NoPendingBody`.
- A right click on an empty body list gives `MaxOfEmpty`.

### Behaviour as written

These points follow the code where one might expect otherwise:

- The recenter action takes `max` over `(mass, index)` tuples, so among equally heavy bodies it picks the **last** one, not the first.
- Any button press, including the right button and the wheel, resets the anchor, the press time and the pending body. Line 64 runs before the button test.
- A left release with nothing pending is not ignored; the program fails.
- Bodies of mass 0 are removed (line 86) *before* integration (lines 90-91). The surviving bodies end up the same as they would if integration came first.
- The direction is normalised (line 26) before the overlap test. So two bodies at exactly the same point fail instead of merging.
- The charge uses `timedelta.seconds`, which drops whole days. `Gesture.ChargeResetsAfterADay` shows that a press held for exactly one day charges like a click.

## Model

| member | source | states |
|---|---|---|
| Bodies.NewBody | main.py:7-13 | A new body's trace holds only its start position, and its radius matches its mass |
| Bodies.UpdatePos | main.py:16-19 | The body moves by `veloc / FPS`. The new position is the last trace entry. Earlier entries keep their order, and only the oldest is dropped, only on overflow. A trace within `trace_len` stays within it. Mass, velocity and radius are unchanged |
| Bodies.IntegratedPosition | main.py:17 | After n steps a body has moved n times `veloc / FPS` in a straight line, with velocity and mass unchanged |
| Bodies.TraceIsRecentWindow | main.py:12-19 | After any number of steps, the trace is exactly the last `min(len, trace_len)` positions of the body's history, oldest first |
| Bodies.UpdateRadius | main.py:21-22 | Only the radius changes, and it then matches the mass. A body with a non-empty trace within capacity becomes consistent |
| Interaction.Separated | main.py:27 | The square-free overlap test. With radii of non-negative sum, separated bodies are at distinct points, so the force is defined. Its meaning is stated by `SeparatedIsDistanceTest` |
| Interaction.SeparatedSymmetric | main.py:27 | The overlap test gives the same answer for either order of the pair |
| Interaction.SeparatedIsDistanceTest | main.py:25-27 | The square-free overlap test agrees with `distance > self.rad + other.rad` for the true distance |
| Interaction.Force | main.py:28 | The force times the squared distance is `G*m1*m2`, the inverse-square law, and it is positive for positive masses |
| Interaction.Attract | main.py:28-30 | For any direction d and magnitude F, only the velocities change. The first body gains momentum F*d/FPS and the second loses the same, so m1*dv1 + m2*dv2 = 0 |
| Interaction.Merge | main.py:31-36 | The survivor gets mass m1+m2, momentum m1*v1+m2*v2 and mass moment m1*p1+m2*p2 (the centroid), and a radius recomputed from its mass. The absorbed body changes only to mass 0 |
| Interaction.Gravitation | main.py:24-36 | Fails exactly when the two positions coincide. When separated, only the velocities change: the first body gains the momentum F*unit(d)/FPS, with F = G*m1*m2/distance², and the second loses it. Otherwise the first body absorbs the second: it takes the summed mass, momentum and mass moment, keeps its trace and gets the radius of its new mass, and the second changes only to mass 0. Either way the pair's mass, momentum and mass moment are conserved |
| Interaction.GravityRuleOk | main.py:24-36 | `gravitation`, seen as a pair rule, is defined for any two positive masses and fails exactly on coinciding positions. It conserves the pair's mass, momentum and mass moment, and keeps the first mass or raises it while the second is kept or absorbed. It keeps consistent bodies consistent unless absorbed |
| Simulation.Interact | main.py:84 | One pair (i<j) is updated in place with the rule's result, and fails exactly when the rule does. No other body changes. The lower index keeps or gains mass, and the higher index is either unchanged in mass or absorbed into i |
| Simulation.Pass | main.py:82-84 | The pass of one frame with `gravitation`: it changes the list only as `PassAccretes` allows, and keeps unabsorbed bodies consistent |
| Simulation.PassFrom | main.py:82-84 | Pairs are visited in `combinations` order, and a pair is skipped if either mass is 0 when reached. The rule is applied only to two positive masses. The length is kept and no mass goes negative |
| Simulation.InteractKeepsTotals | main.py:84 | One interaction leaves the list's total mass, momentum and mass moment unchanged |
| Simulation.PassKeepsTotals | main.py:82-84 | The pass, from any pair on, leaves the total mass, momentum and mass moment unchanged |
| Simulation.PassMassFate | main.py:82-84 | Across the pass, a body of mass 0 stays at 0, and any other body keeps or gains mass or ends absorbed |
| Simulation.PassKeepsConsistent | main.py:82-84 | Across the pass, a body that is not absorbed keeps its radius matching its mass and its trace within capacity |
| Simulation.InteractKeepsFirstLive | main.py:84 | While every body before index f has mass 0, an interaction keeps them at 0 and does not lower the mass at f |
| Simulation.PassKeepsFirstLive | main.py:82-84 | The first body of positive mass ends the pass with at least its starting mass, so it is never absorbed |
| Simulation.PassAccretes | main.py:82-84 | For any rule with the properties of `gravitation`, the pass conserves total mass, momentum and mass moment. A mass-0 body stays at 0. Every body keeps or gains mass or is absorbed, and the first live body is never absorbed. Unabsorbed bodies keep radius and trace invariants |
| Simulation.AbsorbedOnlyAfterLive | main.py:82-84 | Under those changes, a body is absorbed only if some earlier body had positive mass |
| Simulation.FirstLiveSurvives | main.py:82-84 | The first body of positive mass is never absorbed and never loses mass |
| Simulation.PairPass | main.py:82-84 | The nested loop over pairs, with `gravitation`, computes exactly the pass |
| Simulation.PairLoop | main.py:82-84 | For any pair rule, the nested loop with its early exit on failure computes exactly the recursive pass |
| Simulation.LiveIndices | main.py:86 | Lists, in increasing order, exactly the indices of bodies with positive mass |
| Simulation.Filter | main.py:86 | The filtered list is exactly the bodies at the live indices, in their original relative order |
| Simulation.FilterKeepsTotals | main.py:86 | Removing mass-0 bodies changes neither total mass, nor momentum, nor mass moment |
| Simulation.IntegrateAll | main.py:90-91 | Every body, in list order, takes one `update_pos` step, and the length is kept |
| Simulation.IntegrateKeepsMassAndMomentum | main.py:90-91 | Integration leaves total mass and momentum unchanged |
| Simulation.Step | main.py:82-91 | A frame of physics on bodies of non-negative mass: the result is no longer than the input, every remaining body has positive mass, and total mass and momentum are unchanged |
| Simulation.StepPreserves | main.py:82-91 | A frame of physics on a non-empty list of live bodies yields a non-empty list of live bodies that is no longer than before, with the same total mass and momentum |
| Simulation.Heaviest | main.py:67 | The chosen index is the maximum of `(mass, index)` under Python's tuple order |
| Simulation.HeaviestIsLastMaximum | main.py:67 | No body is heavier than the chosen one, and no later body is as heavy |
| Simulation.Recenter | main.py:66-69 | Only the heaviest body changes. Its position becomes the pointer and its velocity zero, with mass, radius and trace kept |
| Gesture.InitialWorld | main.py:53-54 | The start state is one live body of mass 200000, at rest at the screen centre, whose trace holds only that point. Nothing is pending |
| Gesture.TimedeltaSeconds | main.py:74 | The counted seconds are below one day, and within one day they are the whole seconds elapsed |
| Gesture.ChargedMass | main.py:76 | The charged mass is `standard_mass*(1 + seconds*charging_factor)`, which is at least `standard_mass` |
| Gesture.ChargedMassMonotone | main.py:76 | The charged mass does not decrease as the counted seconds grow |
| Gesture.ChargeGrowsWithinADay | main.py:102-104 | Within a day of the press, a later moment never shows a smaller charge |
| Gesture.ChargeResetsAfterADay | main.py:74-76 | A press held exactly one day charges only `standard_mass` |
| Gesture.Charge | main.py:102-105 | The pending body gets the charged mass and a radius recomputed from it. Nothing else changes |
| Gesture.Press | main.py:61-69 | Any press anchors a fresh standard-mass body at the pointer, at rest. Only a right press changes the bodies, by recentering, and it fails exactly on an empty list |
| Gesture.Release | main.py:71-80 | Fails exactly when nothing is pending. Otherwise the list grows by exactly one body, earlier bodies unchanged. That body has the charged mass, at least `standard_mass`, velocity `pos1 - pos2`, the pending body's position and trace, and a matching radius. Nothing is left pending |
| Gesture.HandleEvent | main.py:58-80 | Fails exactly on a right press with no bodies (`MaxOfEmpty`) or a left release with nothing pending (`NoPendingBody`). Any event other than a press or a left release leaves the world unchanged. No event removes a body, and at most one is added |
| Gesture.HandleEvents | main.py:58-80 | The events of a frame in queue order, stopping at the first failure, which is one of those two faults. The body count never falls, and grows by at most the number of events |
| Gesture.HandleEventsKeepWorldOk | main.py:58-80 | Handling any events keeps the world invariant |
| Gesture.Frame | main.py:56-105 | Every completed frame keeps the invariant: at least one body, every body and the pending body live, with positive mass, radius matching mass and trace within capacity. A frame adds at most one body per event. While the left button is held, the pending body carries the charge reached at the frame's clock |
| Gesture.Run | main.py:56-107 | Any number of completed frames keep the invariant |
| Gesture.LaunchExample | main.py:61-80 | A press and release at (100, 100) two seconds apart launches a body of mass 7000 at rest there |
| Gesture.RecenterExample | main.py:61-69 | A right click with masses 500, 200000, 300 moves and stops only the 200000 body |

## Left out

- Window, drawing and display: `pg.init`, `set_mode`, `screen.fill`, circle and line drawing, `display.flip` (lines 40-42, 88-97, 101, 107). These are rendering only.
- `clock.tick(FPS)` frame pacing and event polling (lines 57-58). Each frame's events are an input list instead.
- The `QUIT` event (line 59). It ends the process, so it has no state to model.
- The `color` and `initialized` attributes (lines 13-14). They are display data and an unused flag.
- `datetime.now()`. Timestamps are real-valued inputs carried by events and frames.
- Floating point. The model uses exact reals. `normalize` and the cube root are uninterpreted functions, and `distance**2` is the exact squared distance.
- Object aliasing. The source assigns the anchor vector `pos1` itself as the recentered body's position (line 68). That body then updates it in place, so the anchor follows it. `Body.__init__` also stores its argument itself as the first trace entry (line 12), while the position is a copy (line 8). So the pending body created at line 64 has `pos1` as its first trace entry, and that entry moves with the recentered body too. After a right click, then, the source's pending body no longer sits at the anchor, and its first trace entry drifts. The model uses values: the anchor and the trace entry stay where the click was, and `WorldOk` states that the pending body sits at the anchor.
- Sub-microsecond timing. `timedelta` counts microseconds, and the model takes the floor of a real difference.
- Gesture.Frame: it requires the world invariant `WorldOk`, which holds from `InitialWorld` onwards (`Gesture.Run`). Worlds the program cannot reach, such as ones with negative masses, are not modelled.
- Interaction.Gravitation: it requires both masses positive. The pass (line 83) calls it only when neither mass is 0, and no reachable body has a negative mass, so this covers every call the program makes.
