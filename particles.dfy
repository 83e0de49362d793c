/** The state of one particle, over exact reals in place of the source's
    32-bit floats. */
module Particles {

  datatype Vec2 = Vec2(x: real, y: real)

  /** A particle of the Verlet integrator: its current and previous centre
      (their difference is its implicit velocity) and its radius. */
  datatype Particle = Particle(pos: Vec2, prevPos: Vec2, radius: real)
}
