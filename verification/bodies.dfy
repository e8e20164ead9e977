/** A simulated body: a disc with position, velocity, mass, the radius
    derived from the mass, and a bounded trail of recent positions. */
module Bodies {
  import opened Vectors

  /** Frames per second; also the number of velocity impulses per second. */
  const Fps: real := 60.0
  /** Capacity of a body's trace. */
  const TraceLen: nat := 500
  /** The program's own approximation of pi. */
  const Pi: real := 3.14159

  /** The two irrational operations the simulation relies on, left
      uninterpreted: `normalize` of a vector and the cube root in
      `(mass / pi) ** (1/3)`. */
  datatype Numerics = Numerics(unit: Vec2 -> Vec2, cubeRoot: real -> real)

  /** The radius a body of the given mass is drawn with. */
  function Radius(num: Numerics, mass: real): real {
    num.cubeRoot(mass / Pi)
  }

  /** `mass == 0` marks a body absorbed by a merge and awaiting removal. */
  datatype Body = Body(pos: Vec2, vel: Vec2, mass: real, rad: real, trace: seq<Vec2>)

  /** The radius matches the mass and the trace is non-empty and within capacity. */
  predicate Consistent(num: Numerics, b: Body) {
    b.rad == Radius(num, b.mass) && 0 < |b.trace| <= TraceLen
  }

  /** A body that takes part in the simulation. */
  predicate Live(num: Numerics, b: Body) {
    b.mass > 0.0 && Consistent(num, b)
  }

  function Momentum(b: Body): Vec2 {
    Scale(b.mass, b.vel)
  }

  /** The mass-weighted position, whose sum over all bodies locates the
      centre of mass. */
  function MassMoment(b: Body): Vec2 {
    Scale(b.mass, b.pos)
  }

  /** A freshly constructed body, its trace holding only its start position. */
  function NewBody(num: Numerics, pos: Vec2, vel: Vec2, mass: real): (r: Body)
    ensures Consistent(num, r)
    ensures r.trace == [r.pos] && r.pos == pos && r.vel == vel && r.mass == mass
  {
    Body(pos, vel, mass, Radius(num, mass), [pos])
  }

  /** `update_radius`: the radius is brought in line with the current mass
      and nothing else changes, so a body with a valid trace becomes
      consistent. */
  function UpdateRadius(num: Numerics, b: Body): (r: Body)
    ensures r == b.(rad := r.rad) && r.rad == Radius(num, r.mass)
    ensures 0 < |b.trace| <= TraceLen ==> Consistent(num, r)
  {
    b.(rad := Radius(num, b.mass))
  }

  /** One integration step: advance by one frame's worth of velocity and
      record the new position, forgetting the oldest entry on overflow. */
  function UpdatePos(b: Body): (r: Body)
    ensures r.pos == Add(b.pos, Div(b.vel, Fps))
    ensures r.vel == b.vel && r.mass == b.mass && r.rad == b.rad
    ensures |r.trace| > 0 && r.trace[|r.trace| - 1] == r.pos
    ensures |b.trace| < TraceLen ==> r.trace == b.trace + [r.pos]
    ensures |b.trace| >= TraceLen ==> r.trace == (b.trace + [r.pos])[1..]
    ensures |b.trace| <= TraceLen ==> |r.trace| <= TraceLen
  {
    var p := Add(b.pos, Div(b.vel, Fps));
    var t := b.trace + [p];
    b.(pos := p, trace := if |t| > TraceLen then t[1..] else t)
  }

  /** The body after `n` integration steps. */
  function Integrated(b: Body, n: nat): Body
    decreases n
  {
    if n == 0 then b else UpdatePos(Integrated(b, n - 1))
  }

  /** The positions visited in those `n` steps, oldest first. */
  function Path(b: Body, n: nat): seq<Vec2>
    decreases n
  {
    if n == 0 then [] else Path(b, n - 1) + [Integrated(b, n).pos]
  }

  function Min(a: int, b: int): int {
    if a < b then a else b
  }

  /** Integration moves a body in a straight line at its fixed velocity. */
  lemma {:induction false} IntegratedPosition(b: Body, n: nat)
    ensures Integrated(b, n).vel == b.vel && Integrated(b, n).mass == b.mass
    ensures Integrated(b, n).pos == Add(b.pos, Scale(n as real, Div(b.vel, Fps)))
  {
    if n > 0 {
      IntegratedPosition(b, n - 1);
      var step := Div(b.vel, Fps);
      var k := (n - 1) as real;
      assert k * step.x + step.x == (k + 1.0) * step.x;
      assert k * step.y + step.y == (k + 1.0) * step.y;
    }
  }

  /** Appending one position to a full history keeps the trace equal to
      the history's most recent window. */
  lemma WindowAppend(full: seq<Vec2>, t: seq<Vec2>, p: Vec2)
    requires t == full[|full| - Min(|full|, TraceLen)..]
    ensures var t' := t + [p];
            var full' := full + [p];
            (if |t| >= TraceLen then t'[1..] else t') == full'[|full'| - Min(|full'|, TraceLen)..]
  {
    var full' := full + [p];
    if |t| >= TraceLen {
      assert (t + [p])[1..] == full'[|full'| - TraceLen..];
    } else {
      assert t == full;
    }
  }

  /** However many steps run, the trace is exactly the most recent
      `TraceLen` positions (or all of them, while fewer) of the body's
      history, oldest first. */
  lemma {:induction false} TraceIsRecentWindow(b: Body, n: nat)
    requires |b.trace| <= TraceLen
    ensures var full := b.trace + Path(b, n);
            Integrated(b, n).trace == full[|full| - Min(|full|, TraceLen)..]
  {
    if n > 0 {
      TraceIsRecentWindow(b, n - 1);
      var prev := Integrated(b, n - 1);
      var p := Integrated(b, n).pos;
      var before := b.trace + Path(b, n - 1);
      assert b.trace + Path(b, n) == before + [p];
      WindowAppend(before, prev.trace, p);
    }
  }
}
