/**
 * A particle of a burst: a point that drifts with a damped velocity and fades
 * by one hundredth of full opacity per update. Opacity is counted in whole
 * hundredths, so a fresh particle has 100 and a faded one has 0 or less.
 */
module Particles {
  import opened Geometry

  /** One random velocity draw, `(cos(angle) * speed, sin(angle) * speed)`. */
  datatype Velocity = Velocity(x: real, y: real)

  /** A colour token such as `hsl(h, 50%, 50%)`, never inspected. */
  datatype Color = Hsl(hue: real)

  datatype ParticleState = ParticleState(x: real, y: real, vx: real, vy: real, alpha: int)

  /** The velocity damping applied on every update. */
  const Friction: real := 0.99

  /** Opacity of a fresh particle, in hundredths. */
  const FullAlpha := 100

  /** A particle created at `at` with velocity draw v. */
  function Spawn(at: Point, v: Velocity): ParticleState
  {
    ParticleState(at.x, at.y, v.x, v.y, FullAlpha)
  }

  /** One update: damp the velocity, move by it, fade by one hundredth. */
  function Decay(p: ParticleState): ParticleState
  {
    var vx := p.vx * Friction;
    var vy := p.vy * Friction;
    ParticleState(p.x + vx, p.y + vy, vx, vy, p.alpha - 1)
  }

  /** n updates in a row. */
  function DecayN(p: ParticleState, n: nat): ParticleState
    decreases n
  {
    if n == 0 then p else DecayN(Decay(p), n - 1)
  }

  function Pow(r: real, n: nat): real
  {
    if n == 0 then 1.0 else r * Pow(r, n - 1)
  }

  /** `Friction + Friction^2 + ... + Friction^n`: how far a unit velocity carries in n updates. */
  function Reach(n: nat): real
  {
    if n == 0 then 0.0 else Reach(n - 1) + Pow(Friction, n)
  }

  /**
   * After n updates the opacity is `100 - n` hundredths (`1 - 0.01 n`), the
   * velocity is the initial one damped n times, and the position has moved by
   * the initial velocity times `Reach(n)`.
   */
  lemma {:induction false} DecayNClosedForm(p: ParticleState, n: nat)
    ensures DecayN(p, n).alpha == p.alpha - n
    ensures DecayN(p, n).vx == p.vx * Pow(Friction, n)
    ensures DecayN(p, n).vy == p.vy * Pow(Friction, n)
    ensures DecayN(p, n).x == p.x + p.vx * Reach(n)
    ensures DecayN(p, n).y == p.y + p.vy * Reach(n)
    decreases n
  {
    if n > 0 {
      DecayNClosedForm(Decay(p), n - 1);
      PowShift(n - 1);
      ReachShift(n - 1);
    }
  }

  lemma {:induction false} PowShift(n: nat)
    ensures Friction * Pow(Friction, n) == Pow(Friction, n + 1)
  {
  }

  /** `Reach(n + 1) == Friction * (1 + Reach(n))`. */
  lemma {:induction false} ReachShift(n: nat)
    ensures Reach(n + 1) == Friction * (1.0 + Reach(n))
  {
    if n > 0 {
      ReachShift(n - 1);
      PowShift(n);
      calc {
        Reach(n + 1);
        Reach(n) + Pow(Friction, n + 1);
        Friction * (1.0 + Reach(n - 1)) + Friction * Pow(Friction, n);
        Friction * (1.0 + (Reach(n - 1) + Pow(Friction, n)));
        Friction * (1.0 + Reach(n));
      }
    }
  }

  /** A particle of the page: created at a detonation, updated once per frame. */
  class Particle {
    var x: real
    var y: real
    var vx: real
    var vy: real
    var alpha: int
    const color: Color

    ghost function State(): ParticleState
      reads this
    {
      ParticleState(x, y, vx, vy, alpha)
    }

    constructor (at: Point, color: Color, v: Velocity)
      ensures State() == Spawn(at, v) && this.color == color
    {
      x, y := at.x, at.y;
      vx, vy := v.x, v.y;
      alpha := FullAlpha;
      this.color := color;
    }

    method Update()
      modifies this
      ensures State() == Decay(old(State()))
    {
      vx := vx * Friction;
      vy := vy * Friction;
      x := x + vx;
      y := y + vy;
      alpha := alpha - 1;
    }
  }
}
