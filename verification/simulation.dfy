/** The body list and one frame of physics: the pairwise pass in
    `itertools.combinations` order, removal of absorbed bodies and
    integration; and the "recenter the heaviest body" action. */
module Simulation {
  import opened Vectors
  import opened Bodies
  import opened Outcomes
  import opened Interaction

  // ---------------------------------------------------------------------
  // Totals over a list of bodies

  function TotalMass(bs: seq<Body>): real
    decreases |bs|
  {
    if |bs| == 0 then 0.0 else TotalMass(bs[..|bs| - 1]) + bs[|bs| - 1].mass
  }

  function VecSum(bs: seq<Body>, f: Body -> Vec2): Vec2
    decreases |bs|
  {
    if |bs| == 0 then Zero else Add(VecSum(bs[..|bs| - 1], f), f(bs[|bs| - 1]))
  }

  function TotalMomentum(bs: seq<Body>): Vec2 {
    VecSum(bs, Momentum)
  }

  /** Total mass times the centre of mass. */
  function TotalMassMoment(bs: seq<Body>): Vec2 {
    VecSum(bs, MassMoment)
  }

  /** The three conserved totals of a list. */
  function Totals(bs: seq<Body>): (real, Vec2, Vec2) {
    (TotalMass(bs), TotalMomentum(bs), TotalMassMoment(bs))
  }

  predicate Nonneg(bs: seq<Body>) {
    forall k :: 0 <= k < |bs| ==> bs[k].mass >= 0.0
  }

  predicate AllLive(num: Numerics, bs: seq<Body>) {
    forall k :: 0 <= k < |bs| ==> Live(num, bs[k])
  }

  /** Every body not yet absorbed is consistent. */
  predicate LiveConsistent(num: Numerics, bs: seq<Body>) {
    forall k :: 0 <= k < |bs| && bs[k].mass > 0.0 ==> Consistent(num, bs[k])
  }

  lemma {:induction false} TotalMassUpdate(bs: seq<Body>, k: nat, b: Body)
    requires k < |bs|
    ensures TotalMass(bs[k := b]) == TotalMass(bs) - bs[k].mass + b.mass
    decreases |bs|
  {
    var n := |bs| - 1;
    if k < n {
      assert bs[k := b][..n] == bs[..n][k := b];
      TotalMassUpdate(bs[..n], k, b);
    } else {
      assert bs[k := b][..n] == bs[..n];
    }
  }

  lemma {:induction false} VecSumUpdate(bs: seq<Body>, k: nat, b: Body, f: Body -> Vec2)
    requires k < |bs|
    ensures VecSum(bs[k := b], f) == Add(Sub(VecSum(bs, f), f(bs[k])), f(b))
    decreases |bs|
  {
    var n := |bs| - 1;
    if k < n {
      assert bs[k := b][..n] == bs[..n][k := b];
      VecSumUpdate(bs[..n], k, b, f);
    } else {
      assert bs[k := b][..n] == bs[..n];
    }
  }

  lemma TotalMassAppend(bs: seq<Body>, b: Body)
    ensures TotalMass(bs + [b]) == TotalMass(bs) + b.mass
  {
  }

  lemma VecSumAppend(bs: seq<Body>, b: Body, f: Body -> Vec2)
    ensures VecSum(bs + [b], f) == Add(VecSum(bs, f), f(b))
  {
  }

  // ---------------------------------------------------------------------
  // The pairwise pass

  /** `b1.gravitation(b2)` for the pair at indices `i < j`, both of
      positive mass, written back into the list. */
  function Interact(num: Numerics, rule: PairRule, bs: seq<Body>, i: nat, j: nat): (r: Outcome<seq<Body>>)
    requires RuleDefined(rule) && RuleMoves(rule) && i < j < |bs| && Nonneg(bs)
    requires bs[i].mass > 0.0 && bs[j].mass > 0.0
    ensures r.Fail? <==> rule(bs[i], bs[j]).Fail?
    ensures r.Ok? ==> |r.value| == |bs| && Nonneg(r.value)
    ensures r.Ok? ==> forall k :: 0 <= k < |bs| && k != i && k != j ==> r.value[k] == bs[k]
    ensures r.Ok? ==> (r.value[i], r.value[j]) == rule(bs[i], bs[j]).value
    ensures r.Ok? ==> MassOutcome(bs[i], bs[j], (r.value[i], r.value[j]))
  {
    match rule(bs[i], bs[j])
    case Fail(f) => Fail(f)
    case Ok(p) => Ok(bs[i := p.0][j := p.1])
  }

  /** The pass over `combinations(bodies, 2)` from pair `(i, j)` on: pairs
      `i < j` in lexicographic order, each skipped when either body has
      mass 0 at the moment it is reached, so that a body absorbed earlier in
      the pass takes no further part. */
  function PassFrom(num: Numerics, rule: PairRule, bs: seq<Body>, i: nat, j: nat): (r: Outcome<seq<Body>>)
    requires RuleDefined(rule) && RuleMoves(rule) && Nonneg(bs) && i < j
    ensures r.Ok? ==> |r.value| == |bs| && Nonneg(r.value)
    decreases |bs| - i, |bs| - j
  {
    if i >= |bs| then Ok(bs)
    else if j >= |bs| then PassFrom(num, rule, bs, i + 1, i + 2)
    else if bs[i].mass == 0.0 || bs[j].mass == 0.0 then PassFrom(num, rule, bs, i, j + 1)
    else
      match Interact(num, rule, bs, i, j)
      case Fail(f) => Fail(f)
      case Ok(bs') => PassFrom(num, rule, bs', i, j + 1)
  }

  /** One row of pairs done: the pass moves on to the next first index. */
  lemma PassFromNextRow(num: Numerics, rule: PairRule, bs: seq<Body>, i: nat, j: nat)
    requires RuleDefined(rule) && RuleMoves(rule) && Nonneg(bs) && i < j && i < |bs| <= j
    ensures PassFrom(num, rule, bs, i, j) == PassFrom(num, rule, bs, i + 1, i + 2)
  {
  }

  /** A pair with an absorbed body is skipped. */
  lemma PassFromSkip(num: Numerics, rule: PairRule, bs: seq<Body>, i: nat, j: nat)
    requires RuleDefined(rule) && RuleMoves(rule) && Nonneg(bs) && i < j < |bs| && (bs[i].mass == 0.0 || bs[j].mass == 0.0)
    ensures PassFrom(num, rule, bs, i, j) == PassFrom(num, rule, bs, i, j + 1)
  {
  }

  /** A pair of live bodies interacts, and the pass continues on the result. */
  lemma PassFromStep(num: Numerics, rule: PairRule, bs: seq<Body>, i: nat, j: nat)
    requires RuleDefined(rule) && RuleMoves(rule) && Nonneg(bs) && i < j < |bs| && bs[i].mass > 0.0 && bs[j].mass > 0.0
    ensures var step := Interact(num, rule, bs, i, j);
            step.Ok? ==> PassFrom(num, rule, bs, i, j) == PassFrom(num, rule, step.value, i, j + 1)
  {
  }

  /** The pass of one frame, with `gravitation` as the pair rule: it
      changes the list only as `Accretes` allows and keeps every body that
      is not absorbed consistent. */
  function Pass(num: Numerics, bs: seq<Body>): (r: Outcome<seq<Body>>)
    requires Nonneg(bs)
    ensures r.Ok? ==> Accretes(bs, r.value) && Nonneg(r.value)
    ensures r.Ok? && LiveConsistent(num, bs) ==> LiveConsistent(num, r.value)
  {
    GravityRuleOk(num);
    PassAccretes(num, GravityRule(num), bs, 0, 1);
    PassFrom(num, GravityRule(num), bs, 0, 1)
  }

  /** How the pass may change a list: same length, same total mass,
      momentum and mass moment; every body's mass changes as `MassFate`
      allows; and the first body of positive mass is never absorbed. */
  predicate Accretes(before: seq<Body>, after: seq<Body>) {
    && |after| == |before|
    && TotalMass(after) == TotalMass(before)
    && TotalMomentum(after) == TotalMomentum(before)
    && TotalMassMoment(after) == TotalMassMoment(before)
    && (forall k :: 0 <= k < |before| ==> MassFate(before[k].mass, after[k].mass))
    && (FirstLive(before) < |before| ==>
          after[FirstLive(before)].mass >= before[FirstLive(before)].mass)
  }

  /** A body goes from mass `m0` to mass `m1`: a body of mass 0 stays at
      0, and any other keeps or gains mass or is absorbed. */
  predicate MassFate(m0: real, m1: real) {
    && (m0 == 0.0 ==> m1 == 0.0)
    && (m1 == 0.0 || m1 >= m0)
  }

  /** The index of the first body of positive mass, or the length of the
      list when there is none. */
  function FirstLive(bs: seq<Body>): (r: nat)
    ensures r <= |bs|
    ensures forall m :: 0 <= m < r ==> bs[m].mass <= 0.0
    ensures r < |bs| ==> bs[r].mass > 0.0
    decreases |bs|
  {
    if |bs| == 0 then 0
    else if bs[0].mass > 0.0 then 0
    else 1 + FirstLive(bs[1..])
  }

  /** Under `Accretes`, a body is only ever absorbed when some body before
      it had positive mass. */
  lemma AbsorbedOnlyAfterLive(before: seq<Body>, after: seq<Body>, k: nat)
    requires Nonneg(before) && Accretes(before, after) && k < |before|
    requires before[k].mass > 0.0 && after[k].mass == 0.0
    ensures exists m :: 0 <= m < k && before[m].mass > 0.0
  {
  }

  /** Replacing two bodies by a pair with the same mass, momentum and mass
      moment leaves the list totals unchanged. */
  lemma PairUpdateKeepsTotals(bs: seq<Body>, i: nat, j: nat, a: Body, b: Body)
    requires i < j < |bs| && PairConserves(bs[i], bs[j], a, b)
    ensures TotalMass(bs[i := a][j := b]) == TotalMass(bs)
    ensures TotalMomentum(bs[i := a][j := b]) == TotalMomentum(bs)
    ensures TotalMassMoment(bs[i := a][j := b]) == TotalMassMoment(bs)
  {
    TotalMassUpdate(bs, i, a);
    TotalMassUpdate(bs[i := a], j, b);
    VecSumUpdate(bs, i, a, Momentum);
    VecSumUpdate(bs[i := a], j, b, Momentum);
    VecSumUpdate(bs, i, a, MassMoment);
    VecSumUpdate(bs[i := a], j, b, MassMoment);
  }

  /** One interaction keeps the list's total mass, momentum and mass
      moment. */
  lemma InteractKeepsTotals(num: Numerics, rule: PairRule, bs: seq<Body>, i: nat, j: nat)
    requires RuleDefined(rule) && RuleMoves(rule) && RuleConserves(rule)
    requires i < j < |bs| && Nonneg(bs) && bs[i].mass > 0.0 && bs[j].mass > 0.0
    ensures var r := Interact(num, rule, bs, i, j);
            r.Ok? ==> Totals(r.value) == Totals(bs)
  {
    var r := Interact(num, rule, bs, i, j);
    if r.Ok? {
      var p := rule(bs[i], bs[j]).value;
      assert r.value == bs[i := p.0][j := p.1];
      PairUpdateKeepsTotals(bs, i, j, p.0, p.1);
    }
  }

  /** The whole pass, from any pair on, keeps the total mass, momentum
      and mass moment. */
  lemma {:induction false} PassKeepsTotals(num: Numerics, rule: PairRule, bs: seq<Body>, i: nat, j: nat, r: seq<Body>)
    requires RuleDefined(rule) && RuleMoves(rule) && RuleConserves(rule) && Nonneg(bs) && i < j && PassFrom(num, rule, bs, i, j) == Ok(r)
    ensures Totals(r) == Totals(bs)
    decreases |bs| - i, |bs| - j
  {
    if i >= |bs| {
    } else if j >= |bs| {
      PassFromNextRow(num, rule, bs, i, j);
      PassKeepsTotals(num, rule, bs, i + 1, i + 2, r);
    } else if bs[i].mass == 0.0 || bs[j].mass == 0.0 {
      PassFromSkip(num, rule, bs, i, j);
      PassKeepsTotals(num, rule, bs, i, j + 1, r);
    } else {
      PassFromStep(num, rule, bs, i, j);
      var next := Interact(num, rule, bs, i, j).value;
      InteractKeepsTotals(num, rule, bs, i, j);
      PassKeepsTotals(num, rule, next, i, j + 1, r);
    }
  }

  /** What one interaction does to the mass of the body at index `k`:
      it changes as `MassFate` allows. */
  lemma InteractMassFate(num: Numerics, rule: PairRule, bs: seq<Body>, i: nat, j: nat, k: nat)
    requires RuleDefined(rule) && RuleMoves(rule) && i < j < |bs| && Nonneg(bs) && k < |bs|
    requires bs[i].mass > 0.0 && bs[j].mass > 0.0
    ensures var r := Interact(num, rule, bs, i, j);
            r.Ok? ==> MassFate(bs[k].mass, r.value[k].mass)
  {
  }

  /** One interaction keeps a consistent body at index `k` consistent
      unless it is absorbed. */
  lemma InteractKeepsConsistent(num: Numerics, rule: PairRule, bs: seq<Body>, i: nat, j: nat, k: nat)
    requires RuleDefined(rule) && RuleMoves(rule) && RuleKeepsConsistent(num, rule)
    requires i < j < |bs| && Nonneg(bs) && k < |bs|
    requires bs[i].mass > 0.0 && bs[j].mass > 0.0
    ensures var r := Interact(num, rule, bs, i, j);
            r.Ok? ==> (r.value[k].mass > 0.0 && Consistent(num, bs[k]) ==> Consistent(num, r.value[k]))
  {
  }

  /** The whole pass, from any pair on, seen at one index `k`: the body's
      mass changes as `MassFate` allows. */
  lemma {:induction false} PassMassFate(num: Numerics, rule: PairRule, bs: seq<Body>, i: nat, j: nat, k: nat, r: seq<Body>)
    requires RuleDefined(rule) && RuleMoves(rule) && Nonneg(bs) && i < j && k < |bs| && PassFrom(num, rule, bs, i, j) == Ok(r)
    ensures MassFate(bs[k].mass, r[k].mass)
    decreases |bs| - i, |bs| - j
  {
    if i >= |bs| {
    } else if j >= |bs| {
      PassFromNextRow(num, rule, bs, i, j);
      PassMassFate(num, rule, bs, i + 1, i + 2, k, r);
    } else if bs[i].mass == 0.0 || bs[j].mass == 0.0 {
      PassFromSkip(num, rule, bs, i, j);
      PassMassFate(num, rule, bs, i, j + 1, k, r);
    } else {
      PassFromStep(num, rule, bs, i, j);
      var next := Interact(num, rule, bs, i, j).value;
      InteractMassFate(num, rule, bs, i, j, k);
      PassMassFate(num, rule, next, i, j + 1, k, r);
    }
  }

  /** The whole pass, from any pair on, keeps a consistent body consistent
      unless it is absorbed. */
  lemma {:induction false} PassKeepsConsistent(num: Numerics, rule: PairRule, bs: seq<Body>, i: nat, j: nat, k: nat, r: seq<Body>)
    requires RuleDefined(rule) && RuleMoves(rule) && RuleKeepsConsistent(num, rule) && Nonneg(bs) && i < j && k < |bs| && PassFrom(num, rule, bs, i, j) == Ok(r)
    ensures r[k].mass > 0.0 && Consistent(num, bs[k]) ==> Consistent(num, r[k])
    decreases |bs| - i, |bs| - j
  {
    if i >= |bs| {
    } else if j >= |bs| {
      PassFromNextRow(num, rule, bs, i, j);
      PassKeepsConsistent(num, rule, bs, i + 1, i + 2, k, r);
    } else if bs[i].mass == 0.0 || bs[j].mass == 0.0 {
      PassFromSkip(num, rule, bs, i, j);
      PassKeepsConsistent(num, rule, bs, i, j + 1, k, r);
    } else {
      PassFromStep(num, rule, bs, i, j);
      var next := Interact(num, rule, bs, i, j).value;
      InteractMassFate(num, rule, bs, i, j, k);
      InteractKeepsConsistent(num, rule, bs, i, j, k);
      PassMassFate(num, rule, next, i, j + 1, k, r);
      PassKeepsConsistent(num, rule, next, i, j + 1, k, r);
    }
  }

  /** Every body before index `f` has mass 0. */
  predicate DeadBefore(bs: seq<Body>, f: nat)
    requires f <= |bs|
  {
    forall m :: 0 <= m < f ==> bs[m].mass == 0.0
  }

  /** An interaction only touches bodies of positive mass, so a prefix of
      absorbed bodies stays absorbed and the live body after it keeps or
      gains mass. */
  lemma InteractKeepsFirstLive(num: Numerics, rule: PairRule, bs: seq<Body>, i: nat, j: nat, f: nat)
    requires RuleDefined(rule) && RuleMoves(rule) && i < j < |bs| && Nonneg(bs)
    requires bs[i].mass > 0.0 && bs[j].mass > 0.0
    requires f < |bs| && bs[f].mass > 0.0 && DeadBefore(bs, f)
    ensures var r := Interact(num, rule, bs, i, j);
            r.Ok? ==> r.value[f].mass >= bs[f].mass && DeadBefore(r.value, f)
  {
  }

  /** The whole pass, from any pair on, never absorbs the first body of
      positive mass: only a body with a live body before it can be the
      second of an interacting pair. */
  lemma {:induction false} PassKeepsFirstLive(num: Numerics, rule: PairRule, bs: seq<Body>, i: nat, j: nat, f: nat, r: seq<Body>)
    requires RuleDefined(rule) && RuleMoves(rule) && Nonneg(bs) && i < j && PassFrom(num, rule, bs, i, j) == Ok(r)
    requires f < |bs| && bs[f].mass > 0.0 && DeadBefore(bs, f)
    ensures r[f].mass >= bs[f].mass
    decreases |bs| - i, |bs| - j
  {
    if i >= |bs| {
    } else if j >= |bs| {
      PassFromNextRow(num, rule, bs, i, j);
      PassKeepsFirstLive(num, rule, bs, i + 1, i + 2, f, r);
    } else if bs[i].mass == 0.0 || bs[j].mass == 0.0 {
      PassFromSkip(num, rule, bs, i, j);
      PassKeepsFirstLive(num, rule, bs, i, j + 1, f, r);
    } else {
      PassFromStep(num, rule, bs, i, j);
      var next := Interact(num, rule, bs, i, j).value;
      InteractKeepsFirstLive(num, rule, bs, i, j, f);
      PassKeepsFirstLive(num, rule, next, i, j + 1, f, r);
    }
  }

  /** The whole pass, from any pair on, only changes the list as
      `Accretes` allows and keeps every unabsorbed body consistent. */
  lemma PassAccretes(num: Numerics, rule: PairRule, bs: seq<Body>, i: nat, j: nat)
    requires RuleOk(num, rule) && Nonneg(bs) && i < j
    ensures var r := PassFrom(num, rule, bs, i, j);
            r.Ok? ==> && Accretes(bs, r.value)
                      && (LiveConsistent(num, bs) ==> LiveConsistent(num, r.value))
  {
    var r := PassFrom(num, rule, bs, i, j);
    if r.Ok? {
      PassKeepsTotals(num, rule, bs, i, j, r.value);
      var f := FirstLive(bs);
      if f < |bs| {
        PassKeepsFirstLive(num, rule, bs, i, j, f, r.value);
      }
      forall k | 0 <= k < |bs|
        ensures MassFate(bs[k].mass, r.value[k].mass)
        ensures r.value[k].mass > 0.0 && Consistent(num, bs[k]) ==> Consistent(num, r.value[k])
      {
        PassMassFate(num, rule, bs, i, j, k, r.value);
        PassKeepsConsistent(num, rule, bs, i, j, k, r.value);
      }
    }
  }

  /** The first body of positive mass is never absorbed: it can only be
      the surviving, lower-indexed side of a merge. */
  lemma FirstLiveSurvives(num: Numerics, bs: seq<Body>, k: nat)
    requires Nonneg(bs) && k < |bs| && bs[k].mass > 0.0
    requires forall m :: 0 <= m < k ==> bs[m].mass == 0.0
    ensures var r := Pass(num, bs);
            r.Ok? ==> r.value[k].mass >= bs[k].mass
                      && forall m :: 0 <= m < k ==> r.value[m].mass == 0.0
  {
    GravityRuleOk(num);
    PassAccretes(num, GravityRule(num), bs, 0, 1);
  }

  /** The nested loop of the source, walking the same pairs in the same
      order over a working copy of the list. */
  method PairPass(num: Numerics, bs: seq<Body>) returns (r: Outcome<seq<Body>>)
    requires Nonneg(bs)
    ensures r == Pass(num, bs)
  {
    GravityRuleOk(num);
    r := PairLoop(num, GravityRule(num), bs);
  }

  /** The nested loop for any pair rule: it computes the pass from the
      first pair on. */
  method PairLoop(num: Numerics, rule: PairRule, bs: seq<Body>) returns (r: Outcome<seq<Body>>)
    requires RuleDefined(rule) && RuleMoves(rule) && Nonneg(bs)
    ensures r == PassFrom(num, rule, bs, 0, 1)
  {
    var cur := bs;
    var i := 0;
    while i < |cur|
      invariant |cur| == |bs| && Nonneg(cur)
      invariant PassFrom(num, rule, cur, i, i + 1) == PassFrom(num, rule, bs, 0, 1)
      decreases |cur| - i
    {
      var j := i + 1;
      while j < |cur|
        invariant |cur| == |bs| && Nonneg(cur) && i < j
        invariant PassFrom(num, rule, cur, i, j) == PassFrom(num, rule, bs, 0, 1)
        decreases |cur| - j
      {
        if cur[i].mass != 0.0 && cur[j].mass != 0.0 {
          PassFromStep(num, rule, cur, i, j);
          var step := Interact(num, rule, cur, i, j);
          if step.Fail? {
            return Fail(step.fault);
          }
          cur := step.value;
        } else {
          PassFromSkip(num, rule, cur, i, j);
        }
        j := j + 1;
      }
      PassFromNextRow(num, rule, cur, i, j);
      i := i + 1;
    }
    return Ok(cur);
  }

  // ---------------------------------------------------------------------
  // Removal of absorbed bodies and integration

  /** Indices of the bodies with positive mass, in increasing order. */
  function LiveIndices(bs: seq<Body>): (ix: seq<nat>)
    ensures forall p :: 0 <= p < |ix| ==> ix[p] < |bs| && bs[ix[p]].mass > 0.0
    ensures forall p, q :: 0 <= p < q < |ix| ==> ix[p] < ix[q]
    ensures forall k :: 0 <= k < |bs| && bs[k].mass > 0.0 ==> k in ix
    decreases |bs|
  {
    if |bs| == 0 then []
    else
      var n := |bs| - 1;
      LiveIndices(bs[..n]) + (if bs[n].mass > 0.0 then [n] else [])
  }

  /** `[b for b in bodies if b.mass > 0]`: exactly the bodies at the live
      indices, in their original order. */
  function Filter(bs: seq<Body>): (r: seq<Body>)
    ensures |r| == |LiveIndices(bs)|
    ensures forall p :: 0 <= p < |r| ==> r[p] == bs[LiveIndices(bs)[p]]
    decreases |bs|
  {
    if |bs| == 0 then []
    else
      var n := |bs| - 1;
      Filter(bs[..n]) + (if bs[n].mass > 0.0 then [bs[n]] else [])
  }

  lemma {:induction false} FilterKeepsMass(bs: seq<Body>)
    requires Nonneg(bs)
    ensures TotalMass(Filter(bs)) == TotalMass(bs)
    decreases |bs|
  {
    if |bs| > 0 {
      var n := |bs| - 1;
      assert Nonneg(bs[..n]);
      FilterKeepsMass(bs[..n]);
      if bs[n].mass > 0.0 {
        TotalMassAppend(Filter(bs[..n]), bs[n]);
      } else {
        assert Filter(bs) == Filter(bs[..n]);
      }
    }
  }

  lemma {:induction false} FilterKeepsVecSum(bs: seq<Body>, f: Body -> Vec2)
    requires Nonneg(bs)
    requires forall k :: 0 <= k < |bs| && bs[k].mass == 0.0 ==> f(bs[k]) == Zero
    ensures VecSum(Filter(bs), f) == VecSum(bs, f)
    decreases |bs|
  {
    if |bs| > 0 {
      var n := |bs| - 1;
      assert Nonneg(bs[..n]);
      FilterKeepsVecSum(bs[..n], f);
      if bs[n].mass > 0.0 {
        VecSumAppend(Filter(bs[..n]), bs[n], f);
      } else {
        assert Filter(bs) == Filter(bs[..n]);
      }
    }
  }

  /** Removing bodies of mass 0 changes none of the totals. */
  lemma FilterKeepsTotals(bs: seq<Body>)
    requires Nonneg(bs)
    ensures TotalMass(Filter(bs)) == TotalMass(bs)
    ensures TotalMomentum(Filter(bs)) == TotalMomentum(bs)
    ensures TotalMassMoment(Filter(bs)) == TotalMassMoment(bs)
  {
    FilterKeepsMass(bs);
    FilterKeepsVecSum(bs, Momentum);
    FilterKeepsVecSum(bs, MassMoment);
  }

  /** `body.update_pos()` for every body, in list order. */
  function IntegrateAll(bs: seq<Body>): (r: seq<Body>)
    ensures |r| == |bs|
    ensures forall k :: 0 <= k < |bs| ==> r[k] == UpdatePos(bs[k])
  {
    seq(|bs|, k requires 0 <= k < |bs| => UpdatePos(bs[k]))
  }

  lemma {:induction false} TotalMassPointwise(a: seq<Body>, b: seq<Body>)
    requires |a| == |b| && forall k :: 0 <= k < |a| ==> a[k].mass == b[k].mass
    ensures TotalMass(a) == TotalMass(b)
    decreases |a|
  {
    if |a| > 0 {
      TotalMassPointwise(a[..|a| - 1], b[..|b| - 1]);
    }
  }

  lemma {:induction false} VecSumPointwise(a: seq<Body>, b: seq<Body>, f: Body -> Vec2)
    requires |a| == |b| && forall k :: 0 <= k < |a| ==> f(a[k]) == f(b[k])
    ensures VecSum(a, f) == VecSum(b, f)
    decreases |a|
  {
    if |a| > 0 {
      VecSumPointwise(a[..|a| - 1], b[..|b| - 1], f);
    }
  }

  /** Integration moves bodies but changes no mass or velocity. */
  lemma IntegrateKeepsMassAndMomentum(bs: seq<Body>)
    ensures TotalMass(IntegrateAll(bs)) == TotalMass(bs)
    ensures TotalMomentum(IntegrateAll(bs)) == TotalMomentum(bs)
  {
    TotalMassPointwise(IntegrateAll(bs), bs);
    VecSumPointwise(IntegrateAll(bs), bs, Momentum);
  }

  /** One frame of physics: the pair pass, then the removal of absorbed
      bodies, then one integration step for each remaining body. */
  function Step(num: Numerics, bs: seq<Body>): (r: Outcome<seq<Body>>)
    requires Nonneg(bs)
    ensures r.Ok? ==> |r.value| <= |bs| && forall k :: 0 <= k < |r.value| ==> r.value[k].mass > 0.0
    ensures r.Ok? ==> TotalMass(r.value) == TotalMass(bs) && TotalMomentum(r.value) == TotalMomentum(bs)
  {
    match Pass(num, bs)
    case Fail(f) => Fail(f)
    case Ok(after) =>
      FilterKeepsTotals(after);
      IntegrateKeepsMassAndMomentum(Filter(after));
      LiveIndicesBound(after);
      Ok(IntegrateAll(Filter(after)))
  }

  lemma FilterKeepsLive(num: Numerics, bs: seq<Body>)
    requires LiveConsistent(num, bs)
    ensures AllLive(num, Filter(bs))
  {
  }

  lemma IntegrateKeepsLive(num: Numerics, bs: seq<Body>)
    requires AllLive(num, bs)
    ensures AllLive(num, IntegrateAll(bs))
  {
  }

  /** A non-empty list of live bodies stays non-empty and live, with the
      same total mass and momentum, and never grows. */
  lemma StepPreserves(num: Numerics, bs: seq<Body>)
    requires |bs| > 0 && AllLive(num, bs)
    ensures var r := Step(num, bs);
            r.Ok? ==> && 0 < |r.value| <= |bs|
                      && AllLive(num, r.value)
                      && TotalMass(r.value) == TotalMass(bs)
                      && TotalMomentum(r.value) == TotalMomentum(bs)
  {
    var p := Pass(num, bs);
    if p.Ok? {
      var after := p.value;
      FirstLiveSurvives(num, bs, 0);
      assert 0 in LiveIndices(after);
      FilterKeepsLive(num, after);
      IntegrateKeepsLive(num, Filter(after));
    }
  }

  lemma LiveIndicesBound(bs: seq<Body>)
    ensures |LiveIndices(bs)| <= |bs|
    decreases |bs|
  {
  }

  // ---------------------------------------------------------------------
  // Recentering the heaviest body

  /** Python's order on `(mass, index)` tuples. */
  predicate TupleLess(m1: real, i1: int, m2: real, i2: int) {
    m1 < m2 || (m1 == m2 && i1 < i2)
  }

  /** The index `max([(k.mass, i) for i, k in enumerate(bodies[..n])])`
      picks: the greatest tuple, so the heaviest body and, among equally
      heavy ones, the last. */
  function Heaviest(bs: seq<Body>, n: nat): (k: nat)
    requires 0 < n <= |bs|
    ensures k < n
    ensures forall m :: 0 <= m < n && m != k ==> TupleLess(bs[m].mass, m, bs[k].mass, k)
    decreases n
  {
    if n == 1 then 0
    else
      var k := Heaviest(bs, n - 1);
      if bs[n - 1].mass >= bs[k].mass then n - 1 else k
  }

  /** In plain words: no body is heavier, and no later body is as heavy. */
  lemma HeaviestIsLastMaximum(bs: seq<Body>)
    requires |bs| > 0
    ensures var k := Heaviest(bs, |bs|);
            && (forall m :: 0 <= m < |bs| ==> bs[m].mass <= bs[k].mass)
            && (forall m :: k < m < |bs| ==> bs[m].mass < bs[k].mass)
  {
  }

  /** Right click: the heaviest body is moved to the pointer and stopped;
      nothing else in the list changes. */
  function Recenter(bs: seq<Body>, p: Vec2): (r: seq<Body>)
    requires |bs| > 0
    ensures |r| == |bs|
    ensures var k := Heaviest(bs, |bs|);
            && r[k] == bs[k].(pos := p, vel := Zero)
            && forall m :: 0 <= m < |bs| && m != k ==> r[m] == bs[m]
  {
    var k := Heaviest(bs, |bs|);
    bs[k := bs[k].(pos := p, vel := Zero)]
  }
}
