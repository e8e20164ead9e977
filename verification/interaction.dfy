/** `Body.gravitation`: the interaction of one ordered pair of bodies, either
    a gravitational impulse or, when the discs overlap, a perfectly
    inelastic merge into the first body. */
module Interaction {
  import opened Vectors
  import opened Bodies
  import opened Outcomes

  /** The gravitational constant of the simulation. */
  const G: real := 200.0

  /** `distance > self.rad + other.rad`, decided without the square root:
      a distance is never negative, so it exceeds a negative sum outright and
      a non-negative sum exactly when its square exceeds the sum's square. */
  predicate Separated(a: Body, b: Body)
    ensures Separated(a, b) && a.rad + b.rad >= 0.0 ==> a.pos != b.pos
  {
    var s := a.rad + b.rad;
    SquareSign(s);
    s < 0.0 || SqNorm(Sub(b.pos, a.pos)) > Mul(s, s)
  }

  /** The overlap test does not depend on the order of the pair. */
  lemma SeparatedSymmetric(a: Body, b: Body)
    ensures Separated(a, b) <==> Separated(b, a)
  {
  }

  /** The two bodies' masses, momenta and mass moments add up to the same
      totals before and after. */
  predicate PairConserves(a: Body, b: Body, a': Body, b': Body) {
    && a'.mass + b'.mass == a.mass + b.mass
    && Add(Momentum(a'), Momentum(b')) == Add(Momentum(a), Momentum(b))
    && Add(MassMoment(a'), MassMoment(b')) == Add(MassMoment(a), MassMoment(b))
  }

  /** `Separated` is the source's distance comparison for the true
      Euclidean distance `d` between the two centres. */
  lemma SeparatedIsDistanceTest(a: Body, b: Body, d: real)
    requires d >= 0.0 && Mul(d, d) == SqNorm(Sub(b.pos, a.pos))
    ensures Separated(a, b) <==> d > a.rad + b.rad
  {
    var s := a.rad + b.rad;
    if s >= 0.0 {
      if d > s {
        MulStrictlyMonotone(s, d, s, d);
      } else if d < s {
        MulStrictlyMonotone(d, s, d, s);
      }
    }
  }

  lemma ImpulseMomentum(m: real, f: real, c: real)
    requires m != 0.0
    ensures m * (f * c / m / Fps) == f * c / Fps
  {
  }

  /** `F = G * m1 * m2 / distance**2`, exact over the reals. */
  function Force(a: Body, b: Body): (f: real)
    requires a.pos != b.pos
    ensures Mul(f, SqNorm(Sub(b.pos, a.pos))) == G * (a.mass * b.mass)
    ensures a.mass > 0.0 && b.mass > 0.0 ==> f > 0.0
  {
    SqNormPositive(Sub(b.pos, a.pos));
    G * (a.mass * b.mass) / SqNorm(Sub(b.pos, a.pos))
  }

  /** The gravity branch for an arbitrary direction `d` and force magnitude
      `f`: each body's velocity receives the impulse `f * d / mass / FPS`,
      in opposite directions. */
  function Attract(a: Body, b: Body, d: Vec2, f: real): (r: (Body, Body))
    requires a.mass != 0.0 && b.mass != 0.0
    ensures r.0 == a.(vel := r.0.vel) && r.1 == b.(vel := r.1.vel)
    ensures Sub(Momentum(r.0), Momentum(a)) == Div(Scale(f, d), Fps)
    ensures Sub(Momentum(r.1), Momentum(b)) == Neg(Div(Scale(f, d), Fps))
    ensures PairConserves(a, b, r.0, r.1)
  {
    ImpulseMomentum(a.mass, f, d.x);
    ImpulseMomentum(a.mass, f, d.y);
    ImpulseMomentum(b.mass, f, -d.x);
    ImpulseMomentum(b.mass, f, -d.y);
    (a.(vel := Add(a.vel, Div(Div(Scale(f, d), a.mass), Fps))),
     b.(vel := Add(b.vel, Div(Div(Scale(f, Neg(d)), b.mass), Fps))))
  }

  /** The collision branch: the first body takes the summed mass, the
      mass-weighted mean velocity and position, and a radius recomputed from
      its new mass; the second is left with mass 0. */
  function Merge(num: Numerics, a: Body, b: Body): (r: (Body, Body))
    requires a.mass + b.mass != 0.0
    ensures r.0.mass == a.mass + b.mass && r.1.mass == 0.0
    ensures Momentum(r.0) == Add(Momentum(a), Momentum(b))
    ensures MassMoment(r.0) == Add(MassMoment(a), MassMoment(b))
    ensures r.0.rad == Radius(num, r.0.mass) && r.0.trace == a.trace
    ensures r.1 == b.(mass := 0.0)
    ensures PairConserves(a, b, r.0, r.1)
  {
    var total := a.mass + b.mass;
    var vel := Div(Add(Momentum(a), Momentum(b)), total);
    var pos := Div(Add(MassMoment(a), MassMoment(b)), total);
    (UpdateRadius(num, a.(vel := vel, pos := pos, mass := total)), b.(mass := 0.0))
  }

  /** `self.gravitation(other)` for two bodies of positive mass. The
      direction is normalised before the overlap test, so two bodies at the
      same point fail even though they overlap. */
  function Gravitation(num: Numerics, a: Body, b: Body): (r: Outcome<(Body, Body)>)
    requires a.mass > 0.0 && b.mass > 0.0
    ensures r.Fail? <==> a.pos == b.pos
    ensures r.Fail? ==> r.fault == ZeroLengthNormalize
    ensures r.Ok? && Separated(a, b) ==>
              && r.value.0 == a.(vel := r.value.0.vel) && r.value.1 == b.(vel := r.value.1.vel)
              && Sub(Momentum(r.value.0), Momentum(a))
                 == Div(Scale(Force(a, b), num.unit(Sub(b.pos, a.pos))), Fps)
              && Sub(Momentum(r.value.1), Momentum(b))
                 == Neg(Div(Scale(Force(a, b), num.unit(Sub(b.pos, a.pos))), Fps))
    ensures r.Ok? && !Separated(a, b) ==>
              && r.value.0.mass == a.mass + b.mass && r.value.1 == b.(mass := 0.0)
              && Momentum(r.value.0) == Add(Momentum(a), Momentum(b))
              && MassMoment(r.value.0) == Add(MassMoment(a), MassMoment(b))
              && r.value.0.rad == Radius(num, r.value.0.mass) && r.value.0.trace == a.trace
    ensures r.Ok? ==> PairConserves(a, b, r.value.0, r.value.1)
    ensures r.Ok? && Consistent(num, a) ==> Consistent(num, r.value.0)
    ensures r.Ok? && Consistent(num, b) && r.value.1.mass != 0.0 ==> Consistent(num, r.value.1)
  {
    var delta := Sub(b.pos, a.pos);
    if delta == Zero then
      Fail(ZeroLengthNormalize)
    else
      var dir := num.unit(delta);
      if Separated(a, b) then
        Ok(Attract(a, b, dir, Force(a, b)))
      else
        Ok(Merge(num, a, b))
  }

  // ---------------------------------------------------------------------
  // The pair rule seen from the pass

  /** A rule applied to a pair of bodies, defined at least for two bodies
      of positive mass, as `Body.gravitation` is. */
  type PairRule = (Body, Body) --> Outcome<(Body, Body)>

  /** The rule is defined for every pair of bodies of positive mass. */
  ghost predicate RuleDefined(rule: PairRule) {
    forall a: Body, b: Body {:trigger rule.requires(a, b)} :: a.mass > 0.0 && b.mass > 0.0 ==> rule.requires(a, b)
  }

  /** The first body of a pair keeps or gains mass, and the second either
      keeps its mass or is absorbed into the first. */
  predicate MassOutcome(a: Body, b: Body, p: (Body, Body)) {
    && p.0.mass >= a.mass
    && (p.1.mass == b.mass || (p.1.mass == 0.0 && p.0.mass == a.mass + b.mass))
  }

  /** Masses move as `MassOutcome` says. */
  ghost predicate RuleMoves(rule: PairRule)
    requires RuleDefined(rule)
  {
    forall a: Body, b: Body {:trigger rule(a, b)} :: a.mass > 0.0 && b.mass > 0.0 && rule(a, b).Ok? ==>
      MassOutcome(a, b, rule(a, b).value)
  }

  /** Mass, momentum and mass moment of the pair are conserved. */
  ghost predicate RuleConserves(rule: PairRule)
    requires RuleDefined(rule)
  {
    forall a: Body, b: Body {:trigger rule(a, b)} :: a.mass > 0.0 && b.mass > 0.0 && rule(a, b).Ok? ==>
      PairConserves(a, b, rule(a, b).value.0, rule(a, b).value.1)
  }

  /** Consistent bodies stay consistent unless absorbed. */
  ghost predicate RuleKeepsConsistent(num: Numerics, rule: PairRule)
    requires RuleDefined(rule)
  {
    forall a: Body, b: Body {:trigger rule(a, b)} :: a.mass > 0.0 && b.mass > 0.0 && rule(a, b).Ok? ==>
      && (Consistent(num, a) ==> Consistent(num, rule(a, b).value.0))
      && (Consistent(num, b) && rule(a, b).value.1.mass != 0.0 ==> Consistent(num, rule(a, b).value.1))
  }

  /** The rule fails exactly when the two positions coincide. */
  ghost predicate RuleFailsOnCoincidence(rule: PairRule)
    requires RuleDefined(rule)
  {
    forall a: Body, b: Body {:trigger rule(a, b)} :: a.mass > 0.0 && b.mass > 0.0 ==>
      (rule(a, b).Fail? <==> a.pos == b.pos)
  }

  /** Everything the pass relies on about its pair rule. */
  ghost predicate RuleOk(num: Numerics, rule: PairRule) {
    && RuleDefined(rule)
    && RuleMoves(rule)
    && RuleConserves(rule)
    && RuleKeepsConsistent(num, rule)
    && RuleFailsOnCoincidence(rule)
  }

  /** `gravitation` as a pair rule. */
  function GravityRule(num: Numerics): PairRule {
    (a: Body, b: Body) requires a.mass > 0.0 && b.mass > 0.0 => Gravitation(num, a, b)
  }

  /** `gravitation` fails exactly on coinciding positions, conserves the
      pair's totals, and either leaves both masses or merges the second
      body into the first. */
  lemma GravityRuleOk(num: Numerics)
    ensures RuleOk(num, GravityRule(num))
  {
  }
}
