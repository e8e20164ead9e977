/** The pointer gestures and the frame loop: a button press anchors a
    preview body, holding the left button charges it, and releasing the
    left button launches it into the simulation; a right click also
    recenters the heaviest body. */
module Gesture {
  import opened Vectors
  import opened Bodies
  import opened Outcomes
  import opened Simulation

  const StandardMass: real := 1000.0
  const ChargingFactor: real := 3.0
  const SecondsPerDay: int := 86400
  const LeftButton: int := 1
  const RightButton: int := 3
  /** Centre of the 1920 x 1080 screen, where the first body starts. */
  const Center: Vec2 := Vec2(960.0, 540.0)
  const SeedMass: real := 200000.0

  /** `Charging` holds what the source keeps in `pos1`, `time1` and
      `buffer`; `Idle` is `buffer = None`. */
  datatype GestureState = Idle | Charging(anchor: Vec2, since: real, buffer: Body)

  datatype World = World(bodies: seq<Body>, gesture: GestureState)

  /** Mouse events with the pointer position and wall-clock time (in
      seconds) read while the event is handled. */
  datatype Event =
    | MouseDown(button: int, pointer: Vec2, at: real)
    | MouseUp(button: int, pointer: Vec2, at: real)
    | OtherEvent

  /** What one frame sees: the queued events, whether the left button is
      held afterwards, and the clock at the charging update. */
  datatype FrameInput = FrameInput(events: seq<Event>, leftHeld: bool, now: real)

  /** The reachable-state invariant: at least one body, every body live,
      and a pending body that is live and sits at the anchor. */
  predicate WorldOk(num: Numerics, w: World) {
    && |w.bodies| > 0
    && AllLive(num, w.bodies)
    && (w.gesture.Charging? ==> Live(num, w.gesture.buffer) && w.gesture.buffer.pos == w.gesture.anchor)
  }

  /** One seed body of mass 200000 at rest in the centre; nothing pending. */
  function InitialWorld(num: Numerics): (w: World)
    ensures WorldOk(num, w)
    ensures |w.bodies| == 1 && w.bodies[0].mass == SeedMass && w.bodies[0].pos == Center
    ensures w.bodies[0].vel == Zero && w.bodies[0].trace == [Center]
    ensures w.gesture == Idle
  {
    World([NewBody(num, Center, Zero, SeedMass)], Idle)
  }

  /** `timedelta.seconds` of `now - since`: the whole seconds of the
      difference, without its days. */
  function TimedeltaSeconds(since: real, now: real): (s: nat)
    ensures s < SecondsPerDay
    ensures 0.0 <= now - since < SecondsPerDay as real ==> s == (now - since).Floor
  {
    (now - since).Floor % SecondsPerDay
  }

  /** `standard_mass + standard_mass * seconds * charging_factor` */
  function ChargedMass(seconds: nat): (m: real)
    ensures m == StandardMass * (1.0 + seconds as real * ChargingFactor)
    ensures m >= StandardMass
  {
    StandardMass + StandardMass * seconds as real * ChargingFactor
  }

  /** The charge never shrinks as the counted seconds grow. */
  lemma ChargedMassMonotone(s1: nat, s2: nat)
    requires s1 <= s2
    ensures ChargedMass(s1) <= ChargedMass(s2)
  {
  }

  /** Within one day of the press, a later release charges at least as much. */
  lemma ChargeGrowsWithinADay(since: real, t1: real, t2: real)
    requires since <= t1 <= t2 < since + SecondsPerDay as real
    ensures ChargedMass(TimedeltaSeconds(since, t1)) <= ChargedMass(TimedeltaSeconds(since, t2))
  {
    assert (t1 - since).Floor <= (t2 - since).Floor;
    ChargedMassMonotone(TimedeltaSeconds(since, t1), TimedeltaSeconds(since, t2));
  }

  /** Because the days are dropped, a press held for exactly one day
      charges no more than a click. */
  lemma ChargeResetsAfterADay(since: real)
    ensures ChargedMass(TimedeltaSeconds(since, since + SecondsPerDay as real)) == StandardMass
  {
  }

  /** The pending body with the charge reached at `now` and its radius
      recomputed. */
  function Charge(num: Numerics, since: real, buffer: Body, now: real): (r: Body)
    ensures r.mass == ChargedMass(TimedeltaSeconds(since, now)) && r.rad == Radius(num, r.mass)
    ensures r == buffer.(mass := r.mass, rad := r.rad)
  {
    UpdateRadius(num, buffer.(mass := ChargedMass(TimedeltaSeconds(since, now))))
  }

  /** `MOUSEBUTTONDOWN`, whatever the button: anchor a fresh pending body of
      standard mass at the pointer; for the right button, also recenter the
      heaviest body there, which fails on an empty list. */
  function Press(num: Numerics, w: World, button: int, p: Vec2, t: real): (r: Outcome<World>)
    ensures r.Fail? <==> button == RightButton && |w.bodies| == 0
    ensures r.Ok? ==> r.value.gesture == Charging(p, t, NewBody(num, p, Zero, StandardMass))
    ensures r.Ok? && button != RightButton ==> r.value.bodies == w.bodies
    ensures r.Ok? && button == RightButton ==> r.value.bodies == Recenter(w.bodies, p)
  {
    var pending := Charging(p, t, NewBody(num, p, Zero, StandardMass));
    if button == RightButton then
      if |w.bodies| == 0 then Fail(MaxOfEmpty) else Ok(World(Recenter(w.bodies, p), pending))
    else
      Ok(World(w.bodies, pending))
  }

  /** `MOUSEBUTTONUP` of the left button: charge the pending body for the
      time since the press, launch it with the drag vector reversed and
      append it to the bodies. Without a pending body the source fails. */
  function Release(num: Numerics, w: World, p: Vec2, t: real): (r: Outcome<World>)
    ensures r.Fail? <==> w.gesture.Idle?
    ensures r.Ok? ==>
              && r.value.gesture == Idle
              && |r.value.bodies| == |w.bodies| + 1
              && r.value.bodies[..|w.bodies|] == w.bodies
    ensures r.Ok? ==>
              var g := w.gesture;
              var launched := r.value.bodies[|w.bodies|];
              && launched.mass == StandardMass * (1.0 + TimedeltaSeconds(g.since, t) as real * ChargingFactor)
              && launched.mass >= StandardMass
              && launched.vel == Sub(g.anchor, p)
              && launched.pos == g.buffer.pos
              && launched.rad == Radius(num, launched.mass)
              && launched.trace == g.buffer.trace
  {
    match w.gesture
    case Idle => Fail(NoPendingBody)
    case Charging(anchor, since, buffer) =>
      var launched := Charge(num, since, buffer.(vel := Sub(anchor, p)), t);
      assert (w.bodies + [launched])[..|w.bodies|] == w.bodies;
      Ok(World(w.bodies + [launched], Idle))
  }

  /** One queued event. Only a press and a left release do anything;
      every other event, the release of another button included, leaves
      the world as it is. No event removes a body, and at most one is
      added. */
  function HandleEvent(num: Numerics, w: World, e: Event): (r: Outcome<World>)
    ensures r.Fail? <==> || (e.MouseDown? && e.button == RightButton && |w.bodies| == 0)
                         || (e.MouseUp? && e.button == LeftButton && w.gesture.Idle?)
    ensures r.Fail? ==> r.fault == (if e.MouseDown? then MaxOfEmpty else NoPendingBody)
    ensures r.Ok? && !e.MouseDown? && !(e.MouseUp? && e.button == LeftButton) ==> r.value == w
    ensures r.Ok? ==> |w.bodies| <= |r.value.bodies| <= |w.bodies| + 1
  {
    match e
    case MouseDown(button, p, t) => Press(num, w, button, p, t)
    case MouseUp(button, p, t) => if button == LeftButton then Release(num, w, p, t) else Ok(w)
    case OtherEvent => Ok(w)
  }

  /** The events of one frame, in queue order, stopping at the first failure. */
  function HandleEvents(num: Numerics, w: World, es: seq<Event>): (r: Outcome<World>)
    ensures r.Fail? ==> r.fault == MaxOfEmpty || r.fault == NoPendingBody
    ensures r.Ok? ==> |w.bodies| <= |r.value.bodies| <= |w.bodies| + |es|
    decreases |es|
  {
    if |es| == 0 then Ok(w)
    else
      match HandleEvent(num, w, es[0])
      case Fail(f) => Fail(f)
      case Ok(w') => HandleEvents(num, w', es[1..])
  }

  /** One pass of the main loop: events, the physics step, then, while the
      left button is held, the charging update of the pending body. Every
      frame that completes leaves a world satisfying the invariant: the
      body list never empties, every body stays live (positive mass, radius
      in step with mass, trace within capacity), and so does the pending
      body. A frame adds at most one body per event, and while the left
      button is held the pending body carries the charge reached at the
      frame's clock. */
  function Frame(num: Numerics, w: World, input: FrameInput): (r: Outcome<World>)
    requires WorldOk(num, w)
    ensures r.Ok? ==> WorldOk(num, r.value)
    ensures r.Ok? ==> |r.value.bodies| <= |w.bodies| + |input.events|
    ensures r.Ok? && input.leftHeld ==>
              && r.value.gesture.Charging?
              && r.value.gesture.buffer.mass == ChargedMass(TimedeltaSeconds(r.value.gesture.since, input.now))
  {
    HandleEventsKeepWorldOk(num, w, input.events);
    match HandleEvents(num, w, input.events)
    case Fail(f) => Fail(f)
    case Ok(w1) =>
      StepPreserves(num, w1.bodies);
      match Step(num, w1.bodies)
      case Fail(f) => Fail(f)
      case Ok(bs) =>
        if !input.leftHeld then Ok(World(bs, w1.gesture))
        else
          match w1.gesture
          case Idle => Fail(NoPendingBody)
          case Charging(anchor, since, buffer) =>
            Ok(World(bs, Charging(anchor, since, Charge(num, since, buffer, input.now))))
  }

  lemma RecenterKeepsLive(num: Numerics, bs: seq<Body>, p: Vec2)
    requires |bs| > 0 && AllLive(num, bs)
    ensures AllLive(num, Recenter(bs, p))
  {
  }

  lemma HandleEventKeepsWorldOk(num: Numerics, w: World, e: Event)
    requires WorldOk(num, w)
    ensures HandleEvent(num, w, e).Ok? ==> WorldOk(num, HandleEvent(num, w, e).value)
  {
  }

  lemma {:induction false} HandleEventsKeepWorldOk(num: Numerics, w: World, es: seq<Event>)
    requires WorldOk(num, w)
    ensures HandleEvents(num, w, es).Ok? ==> WorldOk(num, HandleEvents(num, w, es).value)
    decreases |es|
  {
    if |es| > 0 {
      HandleEventKeepsWorldOk(num, w, es[0]);
      var first := HandleEvent(num, w, es[0]);
      if first.Ok? {
        HandleEventsKeepWorldOk(num, first.value, es[1..]);
      }
    }
  }

  /** Successive frames; the invariant carries from each frame to the next. */
  function Run(num: Numerics, w: World, inputs: seq<FrameInput>): (r: Outcome<World>)
    requires WorldOk(num, w)
    ensures r.Ok? ==> WorldOk(num, r.value)
    decreases |inputs|
  {
    if |inputs| == 0 then Ok(w)
    else
      match Frame(num, w, inputs[0])
      case Fail(f) => Fail(f)
      case Ok(w') => Run(num, w', inputs[1..])
  }

  /** Press at (100, 100) at time 0 and release there two seconds later:
      the launched body has mass 1000 + 1000 * 2 * 3 and no velocity. */
  lemma LaunchExample(num: Numerics)
    ensures var p := Vec2(100.0, 100.0);
            var r := HandleEvents(num, InitialWorld(num),
                                  [MouseDown(LeftButton, p, 0.0), MouseUp(LeftButton, p, 2.0)]);
            && r.Ok? && r.value.gesture == Idle && |r.value.bodies| == 2
            && r.value.bodies[1].mass == 7000.0
            && r.value.bodies[1].vel == Zero
            && r.value.bodies[1].pos == p
  {
    var p := Vec2(100.0, 100.0);
    var w0 := InitialWorld(num);
    var down, up := MouseDown(LeftButton, p, 0.0), MouseUp(LeftButton, p, 2.0);
    var w1 := Press(num, w0, LeftButton, p, 0.0).value;
    assert [down, up][1..] == [up];
    assert HandleEvents(num, w0, [down, up]) == HandleEvents(num, w1, [up]);
    assert TimedeltaSeconds(0.0, 2.0) == 2;
    var w2 := Release(num, w1, p, 2.0);
    assert w2.Ok?;
    assert [up][1..] == [];
    assert HandleEvents(num, w1, [up]) == HandleEvents(num, w2.value, []);
  }

  /** A right click with bodies of masses 500, 200000 and 300 moves the
      second one to the pointer and stops it, leaving the others alone. */
  lemma RecenterExample(num: Numerics)
    ensures var bs := [NewBody(num, Vec2(10.0, 10.0), Vec2(1.0, 0.0), 500.0),
                       NewBody(num, Center, Vec2(0.0, 2.0), SeedMass),
                       NewBody(num, Vec2(30.0, 40.0), Vec2(-1.0, 1.0), 300.0)];
            var p := Vec2(50.0, 50.0);
            var r := Press(num, World(bs, Idle), RightButton, p, 0.0);
            && r.Ok?
            && r.value.bodies == [bs[0], bs[1].(pos := p, vel := Zero), bs[2]]
  {
  }
}
