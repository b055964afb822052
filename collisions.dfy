/**
 * `resolveCollision` of body.cpp:115-140: two overlapping bodies are pushed
 * apart along the line of centres until they touch, then their velocities
 * receive opposite impulses along that line.
 */
module Collisions {
  import opened Vectors
  import opened Bodies

  /** `collisionCoefficient`, body.cpp:121: the fraction of the elastic impulse applied. */
  const CollisionCoefficient: real := 0.9

  /** `delta / (|delta| * |delta|)`, the `scaledNoraml` of body.cpp:131 and 135. */
  function ScaledNormal(delta: Vec, sqrt: real -> real): Vec
    requires IsSqrt(sqrt) && delta != Zero
  {
    var length := Magnitude2d(delta, sqrt);
    MagnitudeSquared(delta, sqrt);
    Div(delta, length * length)
  }

  /** For a non-zero vector the squared magnitude is the positive `dot(v, v)`. */
  lemma MagnitudeSquared(v: Vec, sqrt: real -> real)
    requires IsSqrt(sqrt) && v != Zero
    ensures 0.0 < Dot(v, v)
    ensures Magnitude2d(v, sqrt) * Magnitude2d(v, sqrt) == Dot(v, v)
  {
    MagnitudeIsLength(v, sqrt);
    DotSelf(v);
  }

  /** The scaled normal is `delta / |delta|^2`: it points along `delta` and `dot(n, delta) == 1`. */
  lemma ScaledNormalIsInverse(delta: Vec, sqrt: real -> real)
    requires IsSqrt(sqrt) && delta != Zero
    ensures 0.0 < Dot(delta, delta)
    ensures ScaledNormal(delta, sqrt) == Scale(delta, 1.0 / Dot(delta, delta))
    ensures Dot(ScaledNormal(delta, sqrt), delta) == 1.0
  {
    MagnitudeSquared(delta, sqrt);
    var d2 := Dot(delta, delta);
    var n := ScaledNormal(delta, sqrt);
    assert n == Div(delta, d2);
    DivIsScale(delta.x, d2);
    DivIsScale(delta.y, d2);
    InverseDot(delta.x, delta.y);
  }

  lemma DivIsScale(a: real, d: real)
    requires d != 0.0
    ensures a / d == a * (1.0 / d)
  {
  }

  lemma InverseDot(a: real, b: real)
    requires a * a + b * b != 0.0
    ensures (a * (1.0 / (a * a + b * b))) * a + (b * (1.0 / (a * a + b * b))) * b == 1.0
  {
    var d := a * a + b * b;
    var k := 1.0 / d;
    assert (a * k) * a + (b * k) * b == d * k;
  }

  /**
   * body.cpp:122-127, the positional correction: each body moves along the unit
   * vector from `b1` to `b2` by the (negative) overlap, weighted by the other
   * body's share of the total mass.
   */
  function Separated(b1: BodyState, b2: BodyState, sqrt: real -> real): (BodyState, BodyState)
    requires b1.mass + b2.mass != 0.0
  {
    var direction := Normalize(Sub(b2.position, b1.position), sqrt);
    var overlap := Hypot(b2.position.x - b1.position.x, b2.position.y - b1.position.y, sqrt) - (b1.radius + b2.radius);
    var total := b1.mass + b2.mass;
    (b1.(position := Add(b1.position, Div(Scale(Scale(direction, overlap), b2.mass), total))),
     b2.(position := Sub(b2.position, Div(Scale(Scale(direction, overlap), b1.mass), total))))
  }

  /**
   * body.cpp:129-137, the impulse: `b1`'s velocity changes along `p1 - p2` and
   * `b2`'s along `p2 - p1`, each by `c * 2 * m_other / M` times the approach speed
   * over the squared distance; `b2` uses `b1`'s velocity from before its update.
   */
  function Bounced(b1: BodyState, b2: BodyState, sqrt: real -> real): (BodyState, BodyState)
    requires IsSqrt(sqrt) && b1.position != b2.position && b1.mass + b2.mass != 0.0
  {
    var total := b1.mass + b2.mass;
    var delta1 := Sub(b1.position, b2.position);
    var delta2 := Sub(b2.position, b1.position);
    Apart(b2.position, b1.position, sqrt);
    Apart(b1.position, b2.position, sqrt);
    var v1 := Sub(b1.velocity, Scale(ScaledNormal(delta1, sqrt),
                  CollisionCoefficient * (2.0 * b2.mass / total) * Dot(Sub(b1.velocity, b2.velocity), delta1)));
    var v2 := Sub(b2.velocity, Scale(ScaledNormal(delta2, sqrt),
                  CollisionCoefficient * (2.0 * b1.mass / total) * Dot(Sub(b2.velocity, b1.velocity), delta2)));
    (b1.(velocity := v1), b2.(velocity := v2))
  }

  /** What `resolveCollision` leaves in the two bodies: the correction, then the impulse. */
  function Resolved(b1: BodyState, b2: BodyState, sqrt: real -> real): (BodyState, BodyState)
    requires IsSqrt(sqrt) && b1.position != b2.position
    requires b1.mass + b2.mass != 0.0 && b1.radius + b2.radius != 0.0
  {
    var s := Separated(b1, b2, sqrt);
    SeparationKeepsApart(b1, b2, sqrt);
    Bounced(s.0, s.1, sqrt)
  }

  /** Helper for the separation lemmas: `Separated` as offsets, `o` being the overlap times the unit direction from `b1` to `b2`. */
  lemma SeparatedShape(b1: BodyState, b2: BodyState, sqrt: real -> real)
    requires b1.mass + b2.mass != 0.0
    ensures
      var direction := Normalize(Sub(b2.position, b1.position), sqrt);
      var o := Scale(direction, Magnitude2d(Sub(b2.position, b1.position), sqrt) - (b1.radius + b2.radius));
      var total := b1.mass + b2.mass;
      Separated(b1, b2, sqrt)
        == (b1.(position := Add(b1.position, Div(Scale(o, b2.mass), total))),
            b2.(position := Sub(b2.position, Div(Scale(o, b1.mass), total))))
  {
    MagnitudeIsHypot(b1.position, b2.position, sqrt);
  }

  /** The correction moves the two bodies without moving their mass-weighted centre. */
  lemma SeparationKeepsCentreOfMass(b1: BodyState, b2: BodyState, sqrt: real -> real)
    requires b1.mass + b2.mass != 0.0
    ensures
      var s := Separated(b1, b2, sqrt);
      Add(Scale(s.0.position, b1.mass), Scale(s.1.position, b2.mass))
        == Add(Scale(b1.position, b1.mass), Scale(b2.position, b2.mass))
  {
    SeparatedShape(b1, b2, sqrt);
    var direction := Normalize(Sub(b2.position, b1.position), sqrt);
    var o := Scale(direction, Magnitude2d(Sub(b2.position, b1.position), sqrt) - (b1.radius + b2.radius));
    SharesBalance(b1.position, b2.position, o, b1.mass, b2.mass);
  }

  /** Moving `a1` by the share `m2/M` of `o` and `a2` back by the share `m1/M` keeps `m1 a1 + m2 a2`. */
  lemma SharesBalance(a1: Vec, a2: Vec, o: Vec, m1: real, m2: real)
    requires m1 + m2 != 0.0
    ensures Add(Scale(Add(a1, Div(Scale(o, m2), m1 + m2)), m1), Scale(Sub(a2, Div(Scale(o, m1), m1 + m2)), m2))
         == Add(Scale(a1, m1), Scale(a2, m2))
  {
    var q1 := Div(Scale(o, m1), m1 + m2);
    var q2 := Div(Scale(o, m2), m1 + m2);
    CrossShares(o.x, m1, m2);
    CrossShares(o.y, m1, m2);
    BalancedMoves(a1, a2, q1, q2, m1, m2);
  }

  /** Each share weighted by the other mass gives the same amount. */
  lemma CrossShares(o: real, m1: real, m2: real)
    requires m1 + m2 != 0.0
    ensures ((o * m2) / (m1 + m2)) * m1 == ((o * m1) / (m1 + m2)) * m2
  {
    var k := o / (m1 + m2);
    assert (o * m2) / (m1 + m2) == k * m2;
    assert (o * m1) / (m1 + m2) == k * m1;
  }

  /** Moves `q2` and `-q1` with `m1 q2 == m2 q1` keep `m1 a1 + m2 a2`. */
  lemma BalancedMoves(a1: Vec, a2: Vec, q1: Vec, q2: Vec, m1: real, m2: real)
    requires q2.x * m1 == q1.x * m2 && q2.y * m1 == q1.y * m2
    ensures Add(Scale(Add(a1, q2), m1), Scale(Sub(a2, q1), m2)) == Add(Scale(a1, m1), Scale(a2, m2))
  {
    assert (a1.x + q2.x) * m1 + (a2.x - q1.x) * m2 == a1.x * m1 + a2.x * m2 + (q2.x * m1 - q1.x * m2);
    assert (a1.y + q2.y) * m1 + (a2.y - q1.y) * m2 == a1.y * m1 + a2.y * m2 + (q2.y * m1 - q1.y * m2);
  }

  /** The two shares of `o` add up to `o`. */
  lemma SharesSum(o: real, m1: real, m2: real)
    requires m1 + m2 != 0.0
    ensures (o * m1) / (m1 + m2) + (o * m2) / (m1 + m2) == o
  {
    var k := o / (m1 + m2);
    assert (o * m1) / (m1 + m2) == k * m1;
    assert (o * m2) / (m1 + m2) == k * m2;
    assert k * m1 + k * m2 == k * (m1 + m2);
  }

  /** Arithmetic helper: `u*l - u*(l - r) == u*r`. */
  lemma Remainder(u: real, l: real, r: real)
    ensures u * l - u * (l - r) == u * r
  {
  }

  /** `|r u|^2 == r^2 |u|^2`, coordinate-wise. */
  lemma ScaledSquare(a: real, b: real, r: real)
    ensures (a * r) * (a * r) + (b * r) * (b * r) == (a * a + b * b) * (r * r)
  {
  }

  /**
   * With an exact square root, after the correction the centres are exactly
   * `r1 + r2` apart along the original direction: the circles touch. The centres
   * stay distinct unless the radii sum to zero.
   */
  lemma SeparationTouches(b1: BodyState, b2: BodyState, sqrt: real -> real)
    requires IsSqrt(sqrt) && b1.position != b2.position && b1.mass + b2.mass != 0.0
    ensures Gap(b1, b2, sqrt) == Scale(Normalize(Sub(b2.position, b1.position), sqrt), b1.radius + b2.radius)
    ensures Dot(Gap(b1, b2, sqrt), Gap(b1, b2, sqrt)) == (b1.radius + b2.radius) * (b1.radius + b2.radius)
    ensures b1.radius + b2.radius != 0.0 ==> Gap(b1, b2, sqrt) != Zero
  {
    SeparationGap(b1, b2, sqrt);
    assert Sub(b2.position, b1.position) != Zero;
    UnitTimesLength(Sub(b2.position, b1.position), sqrt);
    NormalizeIsUnit(Sub(b2.position, b1.position), sqrt);
    TouchAlgebra(Sub(b2.position, b1.position), Normalize(Sub(b2.position, b1.position), sqrt),
                 Magnitude2d(Sub(b2.position, b1.position), sqrt), b1.radius + b2.radius, Gap(b1, b2, sqrt));
  }

  /** Unless the radii sum to zero, the corrected centres are distinct. */
  lemma SeparationKeepsApart(b1: BodyState, b2: BodyState, sqrt: real -> real)
    requires IsSqrt(sqrt) && b1.position != b2.position && b1.mass + b2.mass != 0.0
    requires b1.radius + b2.radius != 0.0
    ensures Separated(b1, b2, sqrt).0.position != Separated(b1, b2, sqrt).1.position
  {
    SeparationTouches(b1, b2, sqrt);
  }

  /**
   * If `u` scaled by `length` is `delta`, `u` is a unit vector and `gap` is
   * `delta` shortened by `length - r` along `u`, then `gap` is `r u`, of squared
   * length `r^2`, and non-zero when `r` is.
   */
  lemma TouchAlgebra(delta: Vec, u: Vec, length: real, r: real, gap: Vec)
    requires u.x * length == delta.x && u.y * length == delta.y && Dot(u, u) == 1.0
    requires gap == Sub(delta, Scale(u, length - r))
    ensures gap == Scale(u, r)
    ensures Dot(gap, gap) == r * r
    ensures r != 0.0 ==> gap != Zero
  {
    assert gap == Scale(u, r) by {
      Remainder(u.x, length, r);
      Remainder(u.y, length, r);
    }
    assert Dot(gap, gap) == r * r by {
      DotOfScaledUnit(u, r);
    }
    if r != 0.0 {
      DotSelf(u);
      ScaledNonZero(u, r);
    }
  }

  /** A non-zero vector scaled by a non-zero factor is non-zero. */
  lemma ScaledNonZero(u: Vec, r: real)
    requires u != Zero && r != 0.0
    ensures Scale(u, r) != Zero
  {
    if u.x != 0.0 {
      ProductNonZero(u.x, r);
    } else {
      ProductNonZero(u.y, r);
    }
  }

  /** Arithmetic helper: a product of two non-zero reals is non-zero. */
  lemma ProductNonZero(a: real, b: real)
    requires a != 0.0 && b != 0.0
    ensures a * b != 0.0
  {
  }

  lemma DotOfScaledUnit(u: Vec, r: real)
    requires Dot(u, u) == 1.0
    ensures Dot(Scale(u, r), Scale(u, r)) == r * r
  {
    ScaledSquare(u.x, u.y, r);
  }

  /** The offset from the first corrected centre to the second. */
  function Gap(b1: BodyState, b2: BodyState, sqrt: real -> real): Vec
    requires b1.mass + b2.mass != 0.0
  {
    var s := Separated(b1, b2, sqrt);
    Sub(s.1.position, s.0.position)
  }

  /** The gap after the correction is the old offset minus the whole of the correction vector. */
  lemma SeparationGap(b1: BodyState, b2: BodyState, sqrt: real -> real)
    requires b1.mass + b2.mass != 0.0
    ensures
      var delta := Sub(b2.position, b1.position);
      var o := Scale(Normalize(delta, sqrt), Magnitude2d(delta, sqrt) - (b1.radius + b2.radius));
      Gap(b1, b2, sqrt) == Sub(delta, o)
  {
    SeparatedShape(b1, b2, sqrt);
    var delta := Sub(b2.position, b1.position);
    var o := Scale(Normalize(delta, sqrt), Magnitude2d(delta, sqrt) - (b1.radius + b2.radius));
    SharesGap(b1.position, b2.position, o, b1.mass, b2.mass);
  }

  /** Moving `p1` forward by the share `m2/M` of `o` and `p2` back by the share `m1/M` shortens `p2 - p1` by `o`. */
  lemma SharesGap(p1: Vec, p2: Vec, o: Vec, m1: real, m2: real)
    requires m1 + m2 != 0.0
    ensures Sub(Sub(p2, Div(Scale(o, m1), m1 + m2)), Add(p1, Div(Scale(o, m2), m1 + m2))) == Sub(Sub(p2, p1), o)
  {
    SharesSum(o.x, m1, m2);
    SharesSum(o.y, m1, m2);
  }

  /** The unit vector times the length gives back the vector. */
  lemma UnitTimesLength(v: Vec, sqrt: real -> real)
    requires IsSqrt(sqrt) && v != Zero
    ensures
      var u := Normalize(v, sqrt);
      var length := Magnitude2d(v, sqrt);
      u.x * length == v.x && u.y * length == v.y
  {
    MagnitudeIsLength(v, sqrt);
    var length := Magnitude2d(v, sqrt);
    assert Normalize(v, sqrt) == Div(v, length);
  }

  /** The scaled normal of the opposite offset is the opposite vector. */
  lemma ScaledNormalOpposite(p: Vec, q: Vec, sqrt: real -> real)
    requires IsSqrt(sqrt) && p != q
    ensures Sub(p, q) != Zero && Sub(q, p) != Zero
    ensures
      var n := ScaledNormal(Sub(p, q), sqrt);
      ScaledNormal(Sub(q, p), sqrt) == Vec(-n.x, -n.y)
  {
    Apart(p, q, sqrt);
    Apart(q, p, sqrt);
    ScaledNormalIsInverse(Sub(p, q), sqrt);
    ScaledNormalIsInverse(Sub(q, p), sqrt);
    DotOfNegations(p, q, p, q);
    var inv := 1.0 / Dot(Sub(p, q), Sub(p, q));
    NegatedProduct(p.x, q.x, inv);
    NegatedProduct(p.y, q.y, inv);
  }

  /** Arithmetic helper: `(b - a) k == -((a - b) k)`. */
  lemma NegatedProduct(a: real, b: real, k: real)
    ensures (b - a) * k == -((a - b) * k)
  {
  }

  /** Arithmetic helper: `(-a) k == -(a k)`. */
  lemma NegatedFactor(a: real, k: real)
    ensures (-a) * k == -(a * k)
  {
  }

  /**
   * The impulse in closed form: both bodies change velocity along the one
   * normal `n = (p1 - p2) / |p1 - p2|^2`, by amounts proportional to the other
   * body's mass and to the approach term `D = dot(v1 - v2, p1 - p2)`.
   */
  function Impulsed(b1: BodyState, b2: BodyState, n: Vec, D: real): (BodyState, BodyState)
    requires b1.mass + b2.mass != 0.0
  {
    var total := b1.mass + b2.mass;
    (b1.(velocity := Sub(b1.velocity, Scale(n, CollisionCoefficient * (2.0 * b2.mass / total) * D))),
     b2.(velocity := Add(b2.velocity, Scale(n, CollisionCoefficient * (2.0 * b1.mass / total) * D))))
  }

  lemma BounceAlongNormal(b1: BodyState, b2: BodyState, sqrt: real -> real)
    requires IsSqrt(sqrt) && b1.position != b2.position && b1.mass + b2.mass != 0.0
    ensures Sub(b1.position, b2.position) != Zero
    ensures
      var delta := Sub(b1.position, b2.position);
      Bounced(b1, b2, sqrt) == Impulsed(b1, b2, ScaledNormal(delta, sqrt), Dot(Sub(b1.velocity, b2.velocity), delta))
  {
    ScaledNormalOpposite(b1.position, b2.position, sqrt);
    var delta := Sub(b1.position, b2.position);
    var n := ScaledNormal(delta, sqrt);
    var D := Dot(Sub(b1.velocity, b2.velocity), delta);
    DotOfNegations(b1.velocity, b2.velocity, b1.position, b2.position);
    var k2 := CollisionCoefficient * (2.0 * b1.mass / (b1.mass + b2.mass)) * D;
    NegatedFactor(n.x, k2);
    NegatedFactor(n.y, k2);
    var r, i := Bounced(b1, b2, sqrt), Impulsed(b1, b2, n, D);
    assert r.0 == i.0;
    assert r.1.velocity == i.1.velocity;
  }

  /** Each body's impulse is `c * 2 * m_other / M * D`; weighted by its own mass they agree. */
  lemma ImpulseBalance(c: real, m1: real, m2: real, D: real)
    requires m1 + m2 != 0.0
    ensures (c * (2.0 * m2 / (m1 + m2)) * D) * m1 == (c * (2.0 * m1 / (m1 + m2)) * D) * m2
    ensures c * (2.0 * m2 / (m1 + m2)) * D + c * (2.0 * m1 / (m1 + m2)) * D == 2.0 * c * D
  {
    var k := 2.0 / (m1 + m2);
    assert 2.0 * m2 / (m1 + m2) == k * m2;
    assert 2.0 * m1 / (m1 + m2) == k * m1;
    assert k * m2 + k * m1 == 2.0;
  }

  /**
   * Momentum is conserved: the two impulses are equal and opposite, since
   * `m1 * (2 c m2 / M) == m2 * (2 c m1 / M)`.
   */
  lemma BounceConservesMomentum(b1: BodyState, b2: BodyState, sqrt: real -> real)
    requires IsSqrt(sqrt) && b1.position != b2.position && b1.mass + b2.mass != 0.0
    ensures
      var r := Bounced(b1, b2, sqrt);
      Add(Scale(r.0.velocity, b1.mass), Scale(r.1.velocity, b2.mass))
        == Add(Scale(b1.velocity, b1.mass), Scale(b2.velocity, b2.mass))
  {
    BounceAlongNormal(b1, b2, sqrt);
    var delta := Sub(b1.position, b2.position);
    ClosedFormMomentum(b1, b2, ScaledNormal(delta, sqrt), Dot(Sub(b1.velocity, b2.velocity), delta));
  }

  /** The closed-form impulses of `BounceAlongNormal` keep the momentum of the pair. */
  lemma ClosedFormMomentum(b1: BodyState, b2: BodyState, n: Vec, D: real)
    requires b1.mass + b2.mass != 0.0
    ensures
      var r := Impulsed(b1, b2, n, D);
      Add(Scale(r.0.velocity, b1.mass), Scale(r.1.velocity, b2.mass))
        == Add(Scale(b1.velocity, b1.mass), Scale(b2.velocity, b2.mass))
  {
    var m1, m2 := b1.mass, b2.mass;
    ImpulseBalance(CollisionCoefficient, m1, m2, D);
    OppositeImpulses(b1.velocity, b2.velocity, n, CollisionCoefficient * (2.0 * m2 / (m1 + m2)) * D,
      CollisionCoefficient * (2.0 * m1 / (m1 + m2)) * D, m1, m2);
  }

  lemma OppositeImpulses(a: Vec, b: Vec, n: Vec, k1: real, k2: real, m1: real, m2: real)
    requires k1 * m1 == k2 * m2
    ensures Add(Scale(Sub(a, Scale(n, k1)), m1), Scale(Add(b, Scale(n, k2)), m2)) == Add(Scale(a, m1), Scale(b, m2))
  {
    assert (a.x - n.x * k1) * m1 + (b.x + n.x * k2) * m2 == a.x * m1 + b.x * m2 - n.x * (k1 * m1 - k2 * m2);
    assert (a.y - n.y * k1) * m1 + (b.y + n.y * k2) * m2 == a.y * m1 + b.y * m2 - n.y * (k1 * m1 - k2 * m2);
  }

  /**
   * Along the line of centres the relative velocity is multiplied by `1 - 2c`
   * (here `-0.8`): an approach becomes a slower separation. The code applies the
   * impulse whatever the sign, so a pair that is already separating is turned
   * back towards each other.
   */
  lemma BounceReversesNormalVelocity(b1: BodyState, b2: BodyState, sqrt: real -> real)
    requires IsSqrt(sqrt) && b1.position != b2.position && b1.mass + b2.mass != 0.0
    ensures
      var delta := Sub(b1.position, b2.position);
      var r := Bounced(b1, b2, sqrt);
      Dot(Sub(r.0.velocity, r.1.velocity), delta)
        == (1.0 - 2.0 * CollisionCoefficient) * Dot(Sub(b1.velocity, b2.velocity), delta)
  {
    BounceAlongNormal(b1, b2, sqrt);
    var delta := Sub(b1.position, b2.position);
    ScaledNormalIsInverse(delta, sqrt);
    ClosedFormReversal(b1, b2, ScaledNormal(delta, sqrt), delta);
  }

  /** With `dot(n, d) == 1`, the closed-form impulses scale the relative velocity along `d` by `1 - 2c`. */
  lemma ClosedFormReversal(b1: BodyState, b2: BodyState, n: Vec, d: Vec)
    requires b1.mass + b2.mass != 0.0 && Dot(n, d) == 1.0
    ensures
      var D := Dot(Sub(b1.velocity, b2.velocity), d);
      var r := Impulsed(b1, b2, n, D);
      Dot(Sub(r.0.velocity, r.1.velocity), d) == (1.0 - 2.0 * CollisionCoefficient) * D
  {
    var D := Dot(Sub(b1.velocity, b2.velocity), d);
    ImpulseBalance(CollisionCoefficient, b1.mass, b2.mass, D);
    var k1 := CollisionCoefficient * (2.0 * b2.mass / (b1.mass + b2.mass)) * D;
    var k2 := CollisionCoefficient * (2.0 * b1.mass / (b1.mass + b2.mass)) * D;
    RelativeAfterImpulses(b1.velocity, b2.velocity, n, k1, k2, d);
  }

  /** `dot((a - k1 n) - (b + k2 n), d) == dot(a - b, d) - (k1 + k2) dot(n, d)` */
  lemma RelativeAfterImpulses(a: Vec, b: Vec, n: Vec, k1: real, k2: real, d: Vec)
    ensures Dot(Sub(Sub(a, Scale(n, k1)), Add(b, Scale(n, k2))), d) == Dot(Sub(a, b), d) - (k1 + k2) * Dot(n, d)
  {
    assert Sub(Sub(a, Scale(n, k1)), Add(b, Scale(n, k2))) == Sub(Sub(a, b), Scale(n, k1 + k2));
    DotSubScaled(Sub(a, b), n, k1 + k2, d);
  }

  /** Perpendicular to the line of centres neither velocity changes. */
  lemma BounceKeepsTangentialVelocity(b1: BodyState, b2: BodyState, t: Vec, sqrt: real -> real)
    requires IsSqrt(sqrt) && b1.position != b2.position && b1.mass + b2.mass != 0.0
    requires Dot(t, Sub(b1.position, b2.position)) == 0.0
    ensures
      var r := Bounced(b1, b2, sqrt);
      Dot(r.0.velocity, t) == Dot(b1.velocity, t) && Dot(r.1.velocity, t) == Dot(b2.velocity, t)
  {
    BounceAlongNormal(b1, b2, sqrt);
    var delta := Sub(b1.position, b2.position);
    ScaledNormalIsInverse(delta, sqrt);
    var n := ScaledNormal(delta, sqrt);
    DotScaled(delta, 1.0 / Dot(delta, delta), t);
    assert Dot(n, t) == 0.0;
    var D := Dot(Sub(b1.velocity, b2.velocity), delta);
    var k1 := CollisionCoefficient * (2.0 * b2.mass / (b1.mass + b2.mass)) * D;
    var k2 := CollisionCoefficient * (2.0 * b1.mass / (b1.mass + b2.mass)) * D;
    var r := Impulsed(b1, b2, n, D);
    assert r.0.velocity == Sub(b1.velocity, Scale(n, k1)) && r.1.velocity == Add(b2.velocity, Scale(n, k2));
    DotSubScaled(b1.velocity, n, k1, t);
    DotAddScaled(b2.velocity, n, k2, t);
  }

  /** Bodies with no relative motion along the line of centres keep their velocities. */
  lemma BounceWithoutApproachIsIdentity(b1: BodyState, b2: BodyState, sqrt: real -> real)
    requires IsSqrt(sqrt) && b1.position != b2.position && b1.mass + b2.mass != 0.0
    requires Dot(Sub(b1.velocity, b2.velocity), Sub(b1.position, b2.position)) == 0.0
    ensures Bounced(b1, b2, sqrt) == (b1, b2)
  {
    BounceAlongNormal(b1, b2, sqrt);
    var n := ScaledNormal(Sub(b1.position, b2.position), sqrt);
    assert CollisionCoefficient * (2.0 * b2.mass / (b1.mass + b2.mass)) * 0.0 == 0.0;
    assert CollisionCoefficient * (2.0 * b1.mass / (b1.mass + b2.mass)) * 0.0 == 0.0;
    assert Scale(n, 0.0) == Zero;
  }

  /**
   * body.cpp:115-140. The bodies are updated through their setters in the
   * order of the source, first the positions and then the velocities; the new
   * states are those of `Resolved`. Coinciding centres, a zero mass sum or a
   * zero radius sum make the source divide by zero, so they are excluded.
   */
  method ResolveCollision(b1: Body, b2: Body, sqrt: real -> real)
    requires IsSqrt(sqrt) && b1.position != b2.position
    requires b1.mass + b2.mass != 0.0 && b1.radius + b2.radius != 0.0
    modifies b1, b2
    ensures (b1.State(), b2.State()) == Resolved(old(b1.State()), old(b2.State()), sqrt)
  {
    SeparationKeepsApart(b1.State(), b2.State(), sqrt);
    FixPositions(b1, b2, sqrt);
    UpdateVelocities(b1, b2, sqrt);
  }

  /** body.cpp:122-127: move both bodies so that they touch. */
  method FixPositions(b1: Body, b2: Body, sqrt: real -> real)
    requires b1 != b2 && b1.mass + b2.mass != 0.0
    modifies b1, b2
    ensures (b1.State(), b2.State()) == Separated(old(b1.State()), old(b2.State()), sqrt)
  {
    var direction := Normalize(Sub(b2.position, b1.position), sqrt);
    var overlap := b1.CalcDistance(b2, sqrt) - (b1.radius + b2.radius);
    b1.SetPosition(Add(b1.position, Div(Scale(Scale(direction, overlap), b2.mass), b1.mass + b2.mass)));
    b2.SetPosition(Sub(b2.position, Div(Scale(Scale(direction, overlap), b1.mass), b1.mass + b2.mass)));
  }

  /** body.cpp:129-137: the impulse; `b2`'s update reads `b1`'s velocity from before. */
  method UpdateVelocities(b1: Body, b2: Body, sqrt: real -> real)
    requires IsSqrt(sqrt) && b1.position != b2.position && b1.mass + b2.mass != 0.0
    modifies b1, b2
    ensures (b1.State(), b2.State()) == Bounced(old(b1.State()), old(b2.State()), sqrt)
  {
    var first, second := b1.State(), b2.State();
    var preB1Velocity := first.velocity;
    Apart(second.position, first.position, sqrt);
    Apart(first.position, second.position, sqrt);
    var deltaPosition := Sub(first.position, second.position);
    var scaledNormal := ScaledNormal(deltaPosition, sqrt);
    b1.SetVelocity(Sub(first.velocity, Scale(scaledNormal,
      CollisionCoefficient * (2.0 * second.mass / (first.mass + second.mass)) * Dot(Sub(first.velocity, second.velocity), deltaPosition))));
    assert b1.State() == Bounced(first, second, sqrt).0;

    deltaPosition := Sub(second.position, first.position);
    scaledNormal := ScaledNormal(deltaPosition, sqrt);
    b2.SetVelocity(Sub(second.velocity, Scale(scaledNormal,
      CollisionCoefficient * (2.0 * first.mass / (first.mass + second.mass)) * Dot(Sub(second.velocity, preB1Velocity), deltaPosition))));
    assert b2.State() == Bounced(first, second, sqrt).1;
  }
}
