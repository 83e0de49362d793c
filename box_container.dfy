/** The wall constraint of PhysicSolver::constrainParticlesToBoxContainer, over
    exact reals. Each axis is handled on its own: a particle past the right
    (top) wall is mirrored back inside it, otherwise one past the left (bottom)
    wall is mirrored back inside that one; the implicit Verlet velocity
    pos - prevPos is reversed and scaled by the restitution. */
module BoxContainer {
  import opened Particles

  /** Restitution of a wall bounce. */
  const Restitution: real := 0.25

  datatype Box = Box(left: real, right: real, bottom: real, top: real)

  /** The box of the given size centred on the given point. */
  function BoxAround(size: Vec2, center: Vec2): (b: Box)
    ensures b.right - b.left == size.x && b.top - b.bottom == size.y
    ensures b.left + b.right == 2.0 * center.x && b.bottom + b.top == 2.0 * center.y
  {
    var half := Vec2(size.x / 2.0, size.y / 2.0);
    Box(center.x - half.x, center.x + half.x, center.y - half.y, center.y + half.y)
  }

  /** One axis of the constraint: the new position and previous position of a
      particle of the given radius between walls lo and hi. The high wall is
      checked first; the low wall only when the high one is not crossed. */
  function Bounce(pos: real, prev: real, radius: real, lo: real, hi: real): (r: (real, real))
    ensures pos + radius > hi ==>
      r.0 + radius == hi - (pos + radius - hi) && r.0 - r.1 == -Restitution * (pos - prev)
    ensures pos + radius <= hi && pos - radius < lo ==>
      r.0 - radius == lo + (lo - (pos - radius)) && r.0 - r.1 == -Restitution * (pos - prev)
    ensures pos + radius <= hi && lo <= pos - radius ==> r == (pos, prev)
  {
    if pos + radius > hi then
      var displacement := pos - prev;
      var pos' := pos - 2.0 * (pos + radius - hi);
      (pos', pos' + Restitution * displacement)
    else if pos - radius < lo then
      var displacement := prev - pos;
      var pos' := pos + 2.0 * (lo - (pos - radius));
      (pos', pos' - Restitution * displacement)
    else
      (pos, prev)
  }

  /** The low wall is the high wall seen in a mirror: negating positions and
      swapping the walls turns one rule into the other, except for a particle
      that crosses both walls at once, which the high wall always takes. */
  lemma BounceMirror(pos: real, prev: real, radius: real, lo: real, hi: real)
    requires !(pos + radius > hi && pos - radius < lo)
    ensures var r := Bounce(pos, prev, radius, lo, hi);
      Bounce(-pos, -prev, radius, -hi, -lo) == (-r.0, -r.1)
  {
  }

  /** A particle crossing both walls (wider than the box) is always bounced off
      the high wall. */
  lemma BouncePrecedence(pos: real, prev: real, radius: real, lo: real, hi: real)
    requires pos + radius > hi && pos - radius < lo
    ensures Bounce(pos, prev, radius, lo, hi).0 == 2.0 * hi - 2.0 * radius - pos
    ensures Bounce(-pos, -prev, radius, -hi, -lo).0 == -(2.0 * lo + 2.0 * radius - pos)
  {
  }

  /** A particle that fits between the walls and has crossed a wall by no more
      than the room it has to spare is inside the walls after the bounce, so a
      second application leaves it where it is. */
  lemma BounceContains(pos: real, prev: real, radius: real, lo: real, hi: real)
    requires 0.0 <= radius && 2.0 * radius <= hi - lo
    requires var room := hi - lo - 2.0 * radius;
      pos + radius - hi <= room && lo - (pos - radius) <= room
    ensures var r := Bounce(pos, prev, radius, lo, hi);
      lo <= r.0 - radius && r.0 + radius <= hi && Bounce(r.0, r.1, radius, lo, hi) == r
  {
  }

  /** The whole constraint on one particle: x against the left and right walls,
      then y against the bottom and top walls. */
  function ConstrainParticle(p: Particle, box: Box): Particle
  {
    var x := Bounce(p.pos.x, p.prevPos.x, p.radius, box.left, box.right);
    var y := Bounce(p.pos.y, p.prevPos.y, p.radius, box.bottom, box.top);
    Particle(Vec2(x.0, y.0), Vec2(x.1, y.1), p.radius)
  }

  /** A particle inside the box is left unchanged. */
  predicate InsideBox(p: Particle, box: Box)
  {
    box.left <= p.pos.x - p.radius && p.pos.x + p.radius <= box.right &&
    box.bottom <= p.pos.y - p.radius && p.pos.y + p.radius <= box.top
  }

  lemma InsideUnchanged(p: Particle, box: Box)
    requires InsideBox(p, box)
    ensures ConstrainParticle(p, box) == p
  {
  }

  /** The axes are independent: the x correction never looks at or changes the
      y coordinates, and the other way round. */
  lemma AxesIndependent(p: Particle, q: Particle, box: Box)
    requires p.radius == q.radius
    ensures p.pos.x == q.pos.x && p.prevPos.x == q.prevPos.x ==>
      ConstrainParticle(p, box).pos.x == ConstrainParticle(q, box).pos.x &&
      ConstrainParticle(p, box).prevPos.x == ConstrainParticle(q, box).prevPos.x
    ensures p.pos.y == q.pos.y && p.prevPos.y == q.prevPos.y ==>
      ConstrainParticle(p, box).pos.y == ConstrainParticle(q, box).pos.y &&
      ConstrainParticle(p, box).prevPos.y == ConstrainParticle(q, box).prevPos.y
  {
  }

  /** A particle that fits the box and crosses its walls by no more than the
      room it has to spare ends inside the box. */
  lemma ConstrainedInside(p: Particle, box: Box)
    requires 0.0 <= p.radius && 2.0 * p.radius <= box.right - box.left && 2.0 * p.radius <= box.top - box.bottom
    requires var roomX := box.right - box.left - 2.0 * p.radius;
      p.pos.x + p.radius - box.right <= roomX && box.left - (p.pos.x - p.radius) <= roomX
    requires var roomY := box.top - box.bottom - 2.0 * p.radius;
      p.pos.y + p.radius - box.top <= roomY && box.bottom - (p.pos.y - p.radius) <= roomY
    ensures InsideBox(ConstrainParticle(p, box), box)
  {
    BounceContains(p.pos.x, p.prevPos.x, p.radius, box.left, box.right);
    BounceContains(p.pos.y, p.prevPos.y, p.radius, box.bottom, box.top);
  }
}
