/** The client's explosion particles: each one starts at full life, drifts
    with a velocity damped by friction, and loses `decay` life per frame. */
module Particles {

  /** Canvas pixels per board cell (CELL_SIZE). */
  const CellSize: real := 24.8

  /** Velocity damping per frame. */
  const Friction: real := 0.92

  /** Slowest and (exclusive) fastest life loss per frame: `random * 0.03 + 0.02`. */
  const MinDecay: real := 0.02
  const MaxDecay: real := 0.05

  /** The canvas coordinate of a cell's centre along one axis: strictly
      inside the cell's span of pixels and equally far from both its edges. */
  function Centre(g: int): (p: real)
    ensures g as real * CellSize < p < (g + 1) as real * CellSize
    ensures p - g as real * CellSize == (g + 1) as real * CellSize - p
  {
    g as real * CellSize + CellSize / 2.0
  }

  /** The random draws that launch one particle: its initial velocity (from
      a random angle and a speed in [2, 6)) and its decay. */
  datatype Launch = Launch(vx: real, vy: real, decay: real)

  predicate LaunchOk(l: Launch) {
    MinDecay <= l.decay < MaxDecay &&
    4.0 <= l.vx * l.vx + l.vy * l.vy < 36.0
  }

  /** The moving part of a particle: position, velocity and life. */
  datatype Motion = Motion(x: real, y: real, vx: real, vy: real, life: real)

  /** One frame of motion: move by the velocity, damp it by `friction`, lose
      `decay` life. */
  function Advanced(m: Motion, decay: real, friction: real): (n: Motion)
    ensures n.life == m.life - decay
    ensures decay > 0.0 ==> n.life < m.life
  {
    Motion(m.x + m.vx, m.y + m.vy, m.vx * friction, m.vy * friction, m.life - decay)
  }

  class Particle {
    var x: real
    var y: real
    var vx: real
    var vy: real
    var life: real
    const decay: real
    const color: string
    const friction: real

    /** A new particle at full life at canvas point (x, y). */
    constructor (x: real, y: real, color: string, launch: Launch)
      ensures this.x == x && this.y == y && this.color == color
      ensures vx == launch.vx && vy == launch.vy && decay == launch.decay
      ensures life == 1.0 && friction == Friction
    {
      this.x := x;
      this.y := y;
      vx := launch.vx;
      vy := launch.vy;
      life := 1.0;
      decay := launch.decay;
      this.color := color;
      friction := Friction;
    }

    ghost function State(): Motion
      reads this
    {
      Motion(x, y, vx, vy, life)
    }

    /** One frame: move by the velocity, damp it, lose `decay` life. */
    method Update()
      modifies this
      ensures x == old(x) + old(vx) && y == old(y) + old(vy)
      ensures vx == old(vx) * friction && vy == old(vy) * friction
      ensures life == old(life) - decay
      ensures State() == Advanced(old(State()), decay, friction)
    {
      x := x + vx;
      y := y + vy;
      vx := vx * friction;
      vy := vy * friction;
      life := life - decay;
    }
  }

  /** Life after `n` frames, one `Update` at a time. */
  function LifeAfter(life: real, decay: real, n: nat): real {
    if n == 0 then life else LifeAfter(life, decay, n - 1) - decay
  }

  /** The motion after `n` frames, one `Advanced` step at a time. */
  function AdvancedFrames(m: Motion, decay: real, friction: real, n: nat): Motion {
    if n == 0 then m else Advanced(AdvancedFrames(m, decay, friction, n - 1), decay, friction)
  }

  /** `LifeAfter` is the life part of `n` frames of motion. */
  lemma {:induction false} AdvancedFramesLife(m: Motion, decay: real, friction: real, n: nat)
    ensures AdvancedFrames(m, decay, friction, n).life == LifeAfter(m.life, decay, n)
  {
    if n > 0 {
      AdvancedFramesLife(m, decay, friction, n - 1);
    }
  }

  /** Life falls linearly: `n` frames cost `n * decay`. */
  lemma {:induction false} LifeAfterIsLinear(life: real, decay: real, n: nat)
    ensures LifeAfter(life, decay, n) == life - n as real * decay
  {
    if n > 0 {
      LifeAfterIsLinear(life, decay, n - 1);
    }
  }

  /** With a positive decay every frame strictly lowers life. */
  lemma {:induction false} LifeFalls(life: real, decay: real, m: nat, n: nat)
    requires decay > 0.0 && m < n
    ensures LifeAfter(life, decay, n) < LifeAfter(life, decay, m)
  {
    LifeAfterIsLinear(life, decay, m);
    LifeAfterIsLinear(life, decay, n);
    assert (n - m) as real * decay > 0.0;
  }

  /** A particle with life at most 1 and a legal decay has no life left after
      50 frames, so the sweep removes it by then. */
  lemma ParticleExpires(life: real, decay: real)
    requires life <= 1.0 && MinDecay <= decay
    ensures LifeAfter(life, decay, 50) <= 0.0
  {
    LifeAfterIsLinear(life, decay, 50);
  }
}
