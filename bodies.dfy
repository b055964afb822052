/**
 * The `Body` class of body.h / body.cpp: a circle with mass that integrates its
 * own motion, computes its distance and gravitational pull to other bodies, and
 * the free function `getClosestBody` that picks the body under a point.
 */
module Bodies {
  import opened Vectors

  /** `G` of body.h:6, `6.674e-11 * 1e15`: a gravitational constant scaled for the screen. */
  const G: real := 66740.0

  /** `MAXFLOAT`, the largest finite `float`: the starting minimum in `getClosestBody`. */
  const MaxFloat: real := 340282346638528859811704183484516925440.0

  /**
   * The five fields of a `Body`, as a value. The quadtree stores bodies by value,
   * so what it holds are `BodyState`s; `operator==` of body.cpp:34-39 is the
   * equality of this datatype.
   */
  datatype BodyState = BodyState(radius: real, mass: real, position: Vec, velocity: Vec, acceleration: Vec)

  /**
   * The gravitational force on a body of mass `m` at `p` from a mass `M` at `q`,
   * computed as `calcForce` (body.cpp:102-113) and the loop of `update(bodies, dt)`
   * (body.cpp:82-87) compute it: `(delta * (G*M*m / |delta|^2)) / |delta|`.
   */
  function Attraction(p: Vec, m: real, q: Vec, M: real, sqrt: real -> real): Vec
    requires IsSqrt(sqrt) && p != q
  {
    var deltaPosition := Sub(q, p);
    var distanceSquared := Dot(deltaPosition, deltaPosition);
    Apart(p, q, sqrt);
    var distance := sqrt(distanceSquared);
    var force := G * M * m / distanceSquared;
    Div(Scale(deltaPosition, force), distance)
  }

  /** Distinct centres are a positive squared distance, and a positive distance, apart. */
  lemma Apart(p: Vec, q: Vec, sqrt: real -> real)
    requires IsSqrt(sqrt) && p != q
    ensures 0.0 < Dot(Sub(q, p), Sub(q, p)) && 0.0 < sqrt(Dot(Sub(q, p), Sub(q, p)))
  {
    var delta := Sub(q, p);
    assert delta != Zero;
    DotSelf(delta);
    SqrtFacts(sqrt, Dot(delta, delta));
  }

  /** Dividing a scaled vector is scaling by the quotient. */
  lemma DivScale(v: Vec, f: real, d: real)
    requires d != 0.0
    ensures Div(Scale(v, f), d) == Scale(v, f / d)
  {
    assert (v.x * f) / d == v.x * (f / d);
    assert (v.y * f) / d == v.y * (f / d);
  }

  /** The attraction is `delta` scaled by `G*M*m / (|delta|^2 * |delta|)`. */
  lemma AttractionAlongDelta(p: Vec, m: real, q: Vec, M: real, sqrt: real -> real)
    requires IsSqrt(sqrt) && p != q
    ensures 0.0 < Dot(Sub(q, p), Sub(q, p)) && 0.0 < sqrt(Dot(Sub(q, p), Sub(q, p)))
    ensures var delta := Sub(q, p);
            Attraction(p, m, q, M, sqrt) == Scale(delta, (G * M * m / Dot(delta, delta)) / sqrt(Dot(delta, delta)))
  {
    Apart(p, q, sqrt);
    var delta := Sub(q, p);
    DivScale(delta, G * M * m / Dot(delta, delta), sqrt(Dot(delta, delta)));
  }

  /**
   * The attraction is an inverse-square law along the line of centres: its
   * length is `G*M*m / r^2`, and its component towards `q` is that same value.
   */
  lemma AttractionIsInverseSquare(p: Vec, m: real, q: Vec, M: real, sqrt: real -> real)
    requires IsSqrt(sqrt) && p != q
    ensures 0.0 < Dot(Sub(q, p), Sub(q, p))
    ensures var delta := Sub(q, p);
            var f := G * M * m / Dot(delta, delta);
            var F := Attraction(p, m, q, M, sqrt);
            Dot(F, F) == f * f && Dot(F, delta) == f * Magnitude2d(delta, sqrt)
  {
    Apart(p, q, sqrt);
    var delta := Sub(q, p);
    var d2 := Dot(delta, delta);
    var d := sqrt(d2);
    assert d * d == d2;
    var f := G * M * m / d2;
    var k := f / d;
    AttractionAlongDelta(p, m, q, M, sqrt);
    var F := Attraction(p, m, q, M, sqrt);
    assert F == Scale(delta, k);
    assert k * d == f;
    assert Dot(F, F) == k * k * d2 by {
      assert Dot(F, F) == (delta.x * k) * (delta.x * k) + (delta.y * k) * (delta.y * k);
    }
    calc {
      Dot(F, F);
      k * k * d2;
      k * k * (d * d);
      (k * d) * (k * d);
      f * f;
    }
    assert Dot(F, delta) == k * d2 by {
      assert Dot(F, delta) == (delta.x * k) * delta.x + (delta.y * k) * delta.y;
    }
    calc {
      Dot(F, delta);
      k * d2;
      k * (d * d);
      (k * d) * d;
      f * d;
    }
    MagnitudeIsRootOfDot(delta, sqrt);
  }

  /** Newton's third law for the pairwise term: the two pulls of a pair cancel. */
  lemma AttractionIsAntisymmetric(p: Vec, m: real, q: Vec, M: real, sqrt: real -> real)
    requires IsSqrt(sqrt) && p != q
    ensures Add(Attraction(p, m, q, M, sqrt), Attraction(q, M, p, m, sqrt)) == Zero
  {
    var delta := Sub(q, p);
    var back := Sub(p, q);
    assert Dot(back, back) == Dot(delta, delta) by {
      assert back.x * back.x == delta.x * delta.x;
      assert back.y * back.y == delta.y * delta.y;
    }
    Apart(p, q, sqrt);
    Apart(q, p, sqrt);
    AttractionAlongDelta(p, m, q, M, sqrt);
    AttractionAlongDelta(q, M, p, m, sqrt);
    var d2 := Dot(delta, delta);
    var k := (G * M * m / d2) / sqrt(d2);
    assert G * m * M == G * M * m;
    assert Attraction(p, m, q, M, sqrt) == Scale(delta, k);
    assert Attraction(q, M, p, m, sqrt) == Scale(back, k);
    assert back.x * k == -(delta.x * k);
    assert back.y * k == -(delta.y * k);
  }

  /**
   * The state `update(force, dt)` should produce, written as the kinematic step:
   * `a = F/m`, `v' = v + a*dt`, `p' = p + v*dt + a*dt^2/2`; radius and mass kept.
   */
  function Step(s: BodyState, force: Vec, dt: real): BodyState
    requires s.mass != 0.0
  {
    var a := Div(force, s.mass);
    BodyState(s.radius, s.mass,
              Add(Add(s.position, Scale(s.velocity, dt)), Scale(a, dt * dt / 2.0)),
              Add(s.velocity, Scale(a, dt)),
              a)
  }

  /** A body, body.h:16-63. */
  class Body {
    var radius: real
    var mass: real
    var position: Vec
    var velocity: Vec
    var acceleration: Vec

    /** The fields as one value. */
    function State(): BodyState
      reads this
    {
      BodyState(radius, mass, position, velocity, acceleration)
    }

    /** body.h:30-31: every field as given; nothing checks that `r` or `m` is positive. */
    constructor (r: real, m: real, pos: Vec, vel: Vec, acc: Vec)
      ensures State() == BodyState(r, m, pos, vel, acc)
    {
      radius, mass, position, velocity, acceleration := r, m, pos, vel, acc;
    }

    /** body.h:26-27: velocity and acceleration default to the zero vector. */
    constructor AtRest(r: real, m: real, pos: Vec)
      ensures State() == BodyState(r, m, pos, Zero, Zero)
    {
      radius, mass, position, velocity, acceleration := r, m, pos, Zero, Zero;
    }

    /** body.h:28-29: acceleration defaults to the zero vector. */
    constructor Moving(r: real, m: real, pos: Vec, vel: Vec)
      ensures State() == BodyState(r, m, pos, vel, Zero)
    {
      radius, mass, position, velocity, acceleration := r, m, pos, vel, Zero;
    }

    /** body.h:39 */
    method SetMass(m: real)
      modifies this
      ensures State() == old(State()).(mass := m)
    {
      mass := m;
    }

    /** body.h:40 */
    method SetRadius(rad: real)
      modifies this
      ensures State() == old(State()).(radius := rad)
    {
      radius := rad;
    }

    /** body.h:41 */
    method SetPosition(pos: Vec)
      modifies this
      ensures State() == old(State()).(position := pos)
    {
      position := pos;
    }

    /** body.h:42 */
    method SetVelocity(vel: Vec)
      modifies this
      ensures State() == old(State()).(velocity := vel)
    {
      velocity := vel;
    }

    /** body.cpp:41-44: the acceleration is overwritten with `force / mass`, not accumulated. */
    method AddAcceleration(force: Vec)
      requires mass != 0.0
      modifies this
      ensures State() == old(State()).(acceleration := Div(force, old(mass)))
    {
      acceleration := Div(force, mass);
    }

    /** body.cpp:46-49: only the velocity moves, by `acceleration * dt`. */
    method AddVelocity(deltaT: real)
      modifies this
      ensures State() == old(State()).(velocity := Add(old(velocity), Scale(old(acceleration), deltaT)))
    {
      velocity := Add(velocity, Scale(acceleration, deltaT));
    }

    /** body.cpp:51-54: only the position moves, by `velocity*dt - acceleration*dt^2/2`. */
    method CalcPosition(deltaT: real)
      modifies this
      ensures State() == old(State()).(position :=
        Add(old(position), Sub(Scale(old(velocity), deltaT), Scale(old(acceleration), deltaT * deltaT * 0.5))))
    {
      position := Add(position, Sub(Scale(velocity, deltaT), Scale(acceleration, deltaT * deltaT * 0.5)));
    }

    /**
     * body.cpp:95-100. Accelerate, then advance the velocity, then the position:
     * because the position step subtracts half of the velocity increment the
     * three together are exactly the kinematic step.
     */
    method Update(force: Vec, deltaT: real)
      requires mass != 0.0
      modifies this
      ensures State() == Step(old(State()), force, deltaT)
    {
      AddAcceleration(force);
      AddVelocity(deltaT);
      CalcPosition(deltaT);
      StepAlgebra(old(position), old(velocity), acceleration, deltaT);
    }

    /** body.cpp:56-60: `std::hypot` of the offset between the two centres. */
    function CalcDistance(otherBody: Body, sqrt: real -> real): real
      reads this, otherBody
    {
      Hypot(otherBody.position.x - position.x, otherBody.position.y - position.y, sqrt)
    }

    /** body.cpp:62-70: the circles overlap when `distance - r_other - r_this < 0`. */
    predicate CollisionDetection(otherBody: Body, sqrt: real -> real)
      reads this, otherBody
    {
      CalcDistance(otherBody, sqrt) - otherBody.radius - radius < 0.0
    }

    /** body.cpp:102-113: the pull on this body from a mass `mass` at `position`; `deltaT` is unused there too. */
    function CalcForce(position: Vec, mass: real, deltaT: real, sqrt: real -> real): Vec
      requires IsSqrt(sqrt) && position != this.position
      reads this
    {
      Attraction(this.position, this.mass, position, mass, sqrt)
    }

    /**
     * The `totalForce` that `update(bodies, dt)` accumulates (body.cpp:76-89): the
     * pull of every element of `bodies` that is not this very object, in order.
     */
    function ForceFrom(bodies: seq<Body>, sqrt: real -> real): Vec
      requires IsSqrt(sqrt) && ApartFromOthers(bodies)
      reads this, bodies
    {
      if bodies == [] then Zero
      else
        var rest := ForceFrom(bodies[..|bodies| - 1], sqrt);
        var other := bodies[|bodies| - 1];
        if other != this then Add(rest, Attraction(position, mass, other.position, other.mass, sqrt)) else rest
    }

    /** No other element of `bodies` sits at this body's centre (the pull would divide by zero). */
    ghost predicate ApartFromOthers(bodies: seq<Body>)
      reads this, bodies
    {
      forall i :: 0 <= i < |bodies| && bodies[i] != this ==> bodies[i].position != position
    }

    /**
     * body.cpp:72-93: the brute-force update. The loop sums the pull of every
     * other element, skipping this body by identity, and the result is then
     * integrated exactly as `update(force, dt)` does.
     */
    method UpdateFromBodies(bodies: seq<Body>, deltaT: real, sqrt: real -> real)
      requires IsSqrt(sqrt) && ApartFromOthers(bodies) && mass != 0.0
      modifies this
      ensures State() == Step(old(State()), old(ForceFrom(bodies, sqrt)), deltaT)
    {
      var totalForce := Zero;
      var i := 0;
      assert ApartFromOthers(bodies[..0]);
      while i < |bodies|
        invariant 0 <= i <= |bodies|
        invariant unchanged(this)
        invariant ApartFromOthers(bodies[..i])
        invariant totalForce == ForceFrom(bodies[..i], sqrt)
      {
        var otherBody := bodies[i];
        assert bodies[..i + 1][..i] == bodies[..i];
        if otherBody != this {
          // body.cpp:82-87 spell out the formula of `calcForce` inline
          var pull := Attraction(position, mass, otherBody.position, otherBody.mass, sqrt);
          totalForce := Add(totalForce, pull);
        }
        i := i + 1;
      }
      assert bodies[..i] == bodies;
      assert totalForce == old(ForceFrom(bodies, sqrt));
      Update(totalForce, deltaT);
    }
  }

  /** The polynomial identity behind `Update`: `p + (v + a dt) dt - a dt^2/2 == p + v dt + a dt^2/2`. */
  lemma StepAlgebra(p: Vec, v: Vec, a: Vec, dt: real)
    ensures Add(p, Sub(Scale(Add(v, Scale(a, dt)), dt), Scale(a, dt * dt * 0.5)))
         == Add(Add(p, Scale(v, dt)), Scale(a, dt * dt / 2.0))
  {
    assert (v.x + a.x * dt) * dt - a.x * (dt * dt * 0.5) == v.x * dt + a.x * (dt * dt / 2.0);
    assert (v.y + a.y * dt) * dt - a.y * (dt * dt * 0.5) == v.y * dt + a.y * (dt * dt / 2.0);
  }

  /** Every element of `bodies` can run `update(bodies, dt)`: no other element shares its centre. */
  ghost predicate MutuallyApart(bodies: seq<Body>)
    reads bodies
  {
    forall b <- bodies :: b.ApartFromOthers(bodies)
  }

  /** The forces `update(bodies, dt)` computes for each element of `on` against all of `all`, added up. */
  function TotalPull(on: seq<Body>, all: seq<Body>, sqrt: real -> real): Vec
    requires IsSqrt(sqrt) && forall b <- on :: b.ApartFromOthers(all)
    reads on, all
  {
    if on == [] then Zero
    else Add(TotalPull(on[..|on| - 1], all, sqrt), on[|on| - 1].ForceFrom(all, sqrt))
  }

  /** The pulls towards `n` on the elements of `on` other than `n` itself, added up. */
  function PullsTowards(on: seq<Body>, n: Body, sqrt: real -> real): Vec
    requires IsSqrt(sqrt) && n.ApartFromOthers(on)
    reads on, n
  {
    if on == [] then Zero
    else
      var b := on[|on| - 1];
      assert n.ApartFromOthers(on[..|on| - 1]);
      var rest := PullsTowards(on[..|on| - 1], n, sqrt);
      if b != n then Add(rest, Attraction(b.position, b.mass, n.position, n.mass, sqrt)) else rest
  }

  /**
   * Over a set of bodies that can all be updated, the forces the brute-force
   * `update(bodies, dt)` computes for them add up to zero: every pull is
   * matched by the opposite pull of its partner (`AttractionIsAntisymmetric`).
   */
  lemma {:induction false} PullsCancel(bodies: seq<Body>, sqrt: real -> real)
    requires IsSqrt(sqrt) && MutuallyApart(bodies)
    ensures TotalPull(bodies, bodies, sqrt) == Zero
    decreases |bodies|
  {
    if bodies != [] {
      var bs, n := bodies[..|bodies| - 1], bodies[|bodies| - 1];
      assert bodies == bs + [n];
      forall b <- bs ensures b.ApartFromOthers(bs) {
        assert b.ApartFromOthers(bodies);
      }
      PullsCancel(bs, sqrt);
      assert n.ApartFromOthers(bodies);
      assert n.ApartFromOthers(bs);
      PullsOfAppended(bs, bs, n, sqrt);
      assert n.ForceFrom(bodies, sqrt) == n.ForceFrom(bs, sqrt);
      ActionAndReaction(bs, n, sqrt);
    }
  }

  /** Adding `n` to the bodies that pull adds its pull on each element of `on` that is not `n`. */
  lemma {:induction false} PullsOfAppended(on: seq<Body>, all: seq<Body>, n: Body, sqrt: real -> real)
    requires IsSqrt(sqrt) && n.ApartFromOthers(on)
    requires forall b <- on :: b.ApartFromOthers(all + [n])
    ensures forall b <- on :: b.ApartFromOthers(all)
    ensures TotalPull(on, all + [n], sqrt) == Add(TotalPull(on, all, sqrt), PullsTowards(on, n, sqrt))
    decreases |on|
  {
    ApartFromFewer(on, all, n);
    if on == [] {
      assert TotalPull(on, all + [n], sqrt) == Zero;
      assert TotalPull(on, all, sqrt) == Zero;
      assert PullsTowards(on, n, sqrt) == Zero;
      ZeroSum();
    } else {
      var rest, b := on[..|on| - 1], on[|on| - 1];
      assert on == rest + [b];
      assert n.ApartFromOthers(rest);
      PullsOfAppended(rest, all, n, sqrt);
      PulledByOneMore(b, all, n, sqrt);
      AppendedStep(rest, b, all, n, sqrt);
    }
  }

  /** The step of `PullsOfAppended`: its equation for `rest` carries over to `rest + [b]`. */
  lemma AppendedStep(rest: seq<Body>, b: Body, all: seq<Body>, n: Body, sqrt: real -> real)
    requires IsSqrt(sqrt) && n.ApartFromOthers(rest + [b]) && n.ApartFromOthers(rest)
    requires b.ApartFromOthers(all + [n]) && b.ApartFromOthers(all)
    requires forall c <- rest + [b] :: c.ApartFromOthers(all + [n])
    requires forall c <- rest + [b] :: c.ApartFromOthers(all)
    requires TotalPull(rest, all + [n], sqrt) == Add(TotalPull(rest, all, sqrt), PullsTowards(rest, n, sqrt))
    requires b.ForceFrom(all + [n], sqrt) ==
      if b != n then Add(b.ForceFrom(all, sqrt), Attraction(b.position, b.mass, n.position, n.mass, sqrt))
      else b.ForceFrom(all, sqrt)
    ensures TotalPull(rest + [b], all + [n], sqrt) ==
      Add(TotalPull(rest + [b], all, sqrt), PullsTowards(rest + [b], n, sqrt))
  {
    var on := rest + [b];
    assert on[..|on| - 1] == rest && on[|on| - 1] == b;
    var s, t := TotalPull(rest, all, sqrt), PullsTowards(rest, n, sqrt);
    var before := b.ForceFrom(all, sqrt);
    assert TotalPull(on, all + [n], sqrt) == Add(Add(s, t), b.ForceFrom(all + [n], sqrt));
    assert TotalPull(on, all, sqrt) == Add(s, before);
    if b != n {
      var toward := Attraction(b.position, b.mass, n.position, n.mass, sqrt);
      assert PullsTowards(on, n, sqrt) == Add(t, toward);
      Regrouped(s, t, before, toward);
    } else {
      assert PullsTowards(on, n, sqrt) == t;
      Swapped(s, t, before);
    }
  }

  /** A body apart from the others of `all + [n]` is apart from those of `all`. */
  lemma ApartFromFewer(on: seq<Body>, all: seq<Body>, n: Body)
    requires forall b <- on :: b.ApartFromOthers(all + [n])
    ensures forall b <- on :: b.ApartFromOthers(all)
  {
    forall b <- on ensures b.ApartFromOthers(all) {
      assert b.ApartFromOthers(all + [n]);
      forall i | 0 <= i < |all| ensures all[i] == (all + [n])[i] {}
    }
  }

  /** One more body among those that pull on `b` adds its pull, unless it is `b` itself. */
  lemma PulledByOneMore(b: Body, all: seq<Body>, n: Body, sqrt: real -> real)
    requires IsSqrt(sqrt) && b.ApartFromOthers(all + [n])
    ensures b.ApartFromOthers(all)
    ensures b.ForceFrom(all + [n], sqrt) ==
      if b != n then Add(b.ForceFrom(all, sqrt), Attraction(b.position, b.mass, n.position, n.mass, sqrt))
      else b.ForceFrom(all, sqrt)
  {
    forall i | 0 <= i < |all| ensures all[i] == (all + [n])[i] {}
    assert (all + [n])[..|all|] == all;
  }

  /** Vector helper: the zero vector added to itself. */
  lemma ZeroSum()
    ensures Add(Zero, Zero) == Zero
  {
  }

  /** Vector helper: a sum of four vectors regrouped. */
  lemma Regrouped(a: Vec, b: Vec, c: Vec, d: Vec)
    ensures Add(Add(a, b), Add(c, d)) == Add(Add(a, c), Add(b, d))
  {
  }

  /** Vector helper: a sum of three vectors with its last two terms swapped. */
  lemma Swapped(a: Vec, b: Vec, c: Vec)
    ensures Add(Add(a, b), c) == Add(Add(a, c), b)
  {
  }

  /** Vector helper: two cancelling pairs, added crosswise, still cancel. */
  lemma CancellingSums(p: Vec, f: Vec, a: Vec, r: Vec)
    requires Add(p, f) == Zero && Add(a, r) == Zero
    ensures Add(Add(p, a), Add(f, r)) == Zero
  {
  }

  /** What the elements of `on` feel from `n` and what `n` feels from them cancel. */
  lemma {:induction false} ActionAndReaction(on: seq<Body>, n: Body, sqrt: real -> real)
    requires IsSqrt(sqrt) && n.ApartFromOthers(on)
    ensures Add(PullsTowards(on, n, sqrt), n.ForceFrom(on, sqrt)) == Zero
    decreases |on|
  {
    if on == [] {
      assert PullsTowards(on, n, sqrt) == Zero && n.ForceFrom(on, sqrt) == Zero;
      ZeroSum();
    } else {
      var rest, b := on[..|on| - 1], on[|on| - 1];
      assert n.ApartFromOthers(rest);
      ActionAndReaction(rest, n, sqrt);
      var p, f := PullsTowards(rest, n, sqrt), n.ForceFrom(rest, sqrt);
      if b != n {
        var action := Attraction(b.position, b.mass, n.position, n.mass, sqrt);
        var reaction := Attraction(n.position, n.mass, b.position, b.mass, sqrt);
        AttractionIsAntisymmetric(b.position, b.mass, n.position, n.mass, sqrt);
        assert PullsTowards(on, n, sqrt) == Add(p, action);
        assert n.ForceFrom(on, sqrt) == Add(f, reaction);
        CancellingSums(p, f, action, reaction);
      } else {
        assert PullsTowards(on, n, sqrt) == p && n.ForceFrom(on, sqrt) == f;
      }
    }
  }

  /**
   * With an exact square root and a non-negative radius sum, two bodies collide
   * exactly when the squared distance of their centres is below the squared
   * radius sum; tangent circles do not collide. The test is symmetric.
   */
  lemma CollisionIsOverlap(a: Body, b: Body, sqrt: real -> real)
    requires IsSqrt(sqrt) && 0.0 <= a.radius + b.radius
    ensures var delta := Sub(b.position, a.position);
            a.CollisionDetection(b, sqrt) <==> Dot(delta, delta) < (a.radius + b.radius) * (a.radius + b.radius)
    ensures a.CollisionDetection(b, sqrt) == b.CollisionDetection(a, sqrt)
  {
    var delta := Sub(b.position, a.position);
    var s := a.radius + b.radius;
    var dx := b.position.x - a.position.x;
    var dy := b.position.y - a.position.y;
    var d2 := dx * dx + dy * dy;
    var d := sqrt(d2);
    assert a.CalcDistance(b, sqrt) == Hypot(dx, dy, sqrt);
    assert Hypot(dx, dy, sqrt) == sqrt(dx * dx + dy * dy);
    var ex := a.position.x - b.position.x;
    var ey := a.position.y - b.position.y;
    assert ex * ex + ey * ey == d2 by {
      assert ex == -dx && ey == -dy;
      assert ex * ex == dx * dx;
      assert ey * ey == dy * dy;
    }
    assert b.CalcDistance(a, sqrt) == d;
    assert delta == Vec(dx, dy);
    assert Dot(delta, delta) == d2;
    DotSelf(delta);
    SqrtFacts(sqrt, d2);
    SquareMonotonic(d, s);
  }

  /** For non-negative reals, `d < s` exactly when `d*d < s*s`. */
  lemma SquareMonotonic(d: real, s: real)
    requires 0.0 <= d && 0.0 <= s
    ensures d < s <==> d * d < s * s
  {
    assert s * s - d * d == (s - d) * (s + d);
    if d < s {
      MulPositive(s - d, s + d);
    } else {
      MulNonNegative(d - s, d + s);
      assert d * d - s * s == (d - s) * (d + s);
    }
  }

  lemma MulNonNegative(a: real, b: real)
    requires 0.0 <= a && 0.0 <= b
    ensures 0.0 <= a * b
  {
    if a != 0.0 && b != 0.0 {
      MulPositive(a, b);
    }
  }

  /** The distance from `position` to the centre of `b`, as `getClosestBody` computes it. */
  function DistanceTo(position: Vec, b: Body, sqrt: real -> real): real
    reads b
  {
    Hypot(b.position.x - position.x, b.position.y - position.y, sqrt)
  }

  /** `position` lies strictly inside the circle of `b`. */
  predicate Within(position: Vec, b: Body, sqrt: real -> real)
    reads b
  {
    DistanceTo(position, b, sqrt) < b.radius
  }

  /** `bodies[k]` is the first of the bodies under `position` with the least distance. */
  ghost predicate FirstClosest(position: Vec, bodies: seq<Body>, k: int, sqrt: real -> real)
    reads bodies
  {
    && 0 <= k < |bodies|
    && Within(position, bodies[k], sqrt)
    && (forall j :: 0 <= j < |bodies| && Within(position, bodies[j], sqrt) ==>
          DistanceTo(position, bodies[k], sqrt) <= DistanceTo(position, bodies[j], sqrt))
    && (forall j :: 0 <= j < k && Within(position, bodies[j], sqrt) ==>
          DistanceTo(position, bodies[k], sqrt) < DistanceTo(position, bodies[j], sqrt))
  }

  /**
   * body.cpp:142-158: a running minimum over the bodies whose circle holds
   * `position`. `null` when there is none; otherwise the first body of least
   * distance, since a later body replaces the choice only when strictly closer.
   * Radii are finite floats, so none exceeds `MAXFLOAT`.
   */
  method GetClosestBody(position: Vec, bodies: seq<Body>, sqrt: real -> real) returns (closest: Body?)
    requires forall i :: 0 <= i < |bodies| ==> bodies[i].radius <= MaxFloat
    ensures closest == null <==> forall j :: 0 <= j < |bodies| ==> !Within(position, bodies[j], sqrt)
    ensures closest != null ==>
      exists k :: 0 <= k < |bodies| && bodies[k] == closest && FirstClosest(position, bodies, k, sqrt)
  {
    var minDist := MaxFloat;
    closest := null;
    ghost var k := -1;
    var i := 0;
    while i < |bodies|
      invariant 0 <= i <= |bodies|
      invariant closest == null <==> k == -1
      invariant k == -1 ==> minDist == MaxFloat && forall j :: 0 <= j < i ==> !Within(position, bodies[j], sqrt)
      invariant k != -1 ==> k < i && closest == bodies[k] && minDist == DistanceTo(position, bodies[k], sqrt)
      invariant k != -1 ==> FirstClosest(position, bodies[..i], k, sqrt)
    {
      var body := bodies[i];
      var distance := Hypot(body.position.x - position.x, body.position.y - position.y, sqrt);
      assert distance == DistanceTo(position, bodies[i], sqrt);
      if distance < minDist && distance < body.radius {
        minDist := distance;
        closest := body;
        k := i;
      }
      i := i + 1;
    }
    assert bodies[..i] == bodies;
  }
}
