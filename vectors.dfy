/**
 * Plane vectors and the free vector helpers of body.cpp (`dot`, `magnitude2d`,
 * `normalize`), over the reals instead of `float`.
 *
 * The C library's `sqrt` and `std::hypot` are not part of this model: every
 * member that needs a square root takes it as a parameter `sqrt`, and the
 * members whose results depend on its exactness require `IsSqrt(sqrt)`.
 */
module Vectors {

  /** An `sf::Vector2f`: a position, velocity, acceleration or force. */
  datatype Vec = Vec(x: real, y: real)

  const Zero: Vec := Vec(0.0, 0.0)

  /** `a + b` */
  function Add(a: Vec, b: Vec): Vec { Vec(a.x + b.x, a.y + b.y) }

  /** `a - b` */
  function Sub(a: Vec, b: Vec): Vec { Vec(a.x - b.x, a.y - b.y) }

  /** `v * k` (and `k * v`) */
  function Scale(v: Vec, k: real): Vec { Vec(v.x * k, v.y * k) }

  /** `v / k` */
  function Div(v: Vec, k: real): Vec
    requires k != 0.0
  {
    Vec(v.x / k, v.y / k)
  }

  /** What `sqrt` must satisfy for the exact results of this model to hold. */
  ghost predicate IsSqrt(sqrt: real -> real) {
    forall x :: 0.0 <= x ==> 0.0 <= sqrt(x) && sqrt(x) * sqrt(x) == x
  }

  /** `dot(a, b)`, body.cpp:7-10. */
  function Dot(a: Vec, b: Vec): real { a.x * b.x + a.y * b.y }

  /** `std::hypot(dx, dy)`, taken as the exact Euclidean length `sqrt(dx*dx + dy*dy)`. */
  function Hypot(dx: real, dy: real, sqrt: real -> real): real {
    sqrt(dx * dx + dy * dy)
  }

  /** `magnitude2d(v)`, body.cpp:12-15: `sqrt(v.x*v.x + v.y*v.y)`, the `Hypot` of the coordinates. */
  function Magnitude2d(v: Vec, sqrt: real -> real): real {
    Hypot(v.x, v.y, sqrt)
  }

  /** `normalize(v)`, body.cpp:17-23: `v / |v|`, or the zero vector when `|v|` is zero. */
  function Normalize(v: Vec, sqrt: real -> real): Vec {
    var length := Magnitude2d(v, sqrt);
    if length != 0.0 then Div(v, length) else Vec(0.0, 0.0)
  }

  /** The squared length is never negative, and is zero only for the zero vector. */
  lemma DotSelf(v: Vec)
    ensures 0.0 <= Dot(v, v)
    ensures Dot(v, v) == 0.0 <==> v == Zero
  {
    SquareNonNegative(v.x);
    SquareNonNegative(v.y);
    if v.x != 0.0 {
      SquarePositive(v.x);
      calc {
        0.0;
      < v.x * v.x + v.y * v.y;
      == Dot(v, v);
      }
    } else if v.y != 0.0 {
      SquarePositive(v.y);
      calc {
        0.0;
      < v.x * v.x + v.y * v.y;
      == Dot(v, v);
      }
    } else {
      assert v == Zero;
    }
  }

  lemma MulPositive(a: real, b: real)
    requires 0.0 < a && 0.0 < b
    ensures 0.0 < a * b
  {
  }

  lemma SquareNonNegative(a: real)
    ensures 0.0 <= a * a
  {
    if a != 0.0 {
      SquarePositive(a);
    }
  }

  lemma SquarePositive(a: real)
    requires a != 0.0
    ensures 0.0 < a * a
  {
    if a < 0.0 {
      MulPositive(-a, -a);
      assert a * a == (-a) * (-a);
    } else {
      MulPositive(a, a);
    }
  }

  /** Cancelling a non-zero factor: `a * k == b * k` gives `a == b`. */
  lemma CancelFactor(a: real, b: real, k: real)
    requires k != 0.0 && a * k == b * k
    ensures a == b
  {
    assert (a - b) * k == 0.0;
    assert a - b == ((a - b) * k) / k;
  }

  /** A root is determined by its square: the non-negative root of `a * a` is `a`. */
  lemma SqrtOfSquare(sqrt: real -> real, a: real)
    requires IsSqrt(sqrt) && 0.0 <= a
    ensures sqrt(a * a) == a
  {
    var s := sqrt(a * a);
    assert s * s == a * a && 0.0 <= s;
    if s > a {
      SquareMonotone(a, s);
    } else if s < a {
      SquareMonotone(s, a);
    }
  }

  /** Squaring is strictly increasing on the non-negative reals. */
  lemma SquareMonotone(a: real, b: real)
    requires 0.0 <= a < b
    ensures a * a < b * b
  {
    MulPositive(b - a, b + a);
    assert (b - a) * (b + a) == b * b - a * a;
  }

  /** With an exact square root, `magnitude2d` is the Euclidean length. */
  lemma MagnitudeIsLength(v: Vec, sqrt: real -> real)
    requires IsSqrt(sqrt)
    ensures 0.0 <= Magnitude2d(v, sqrt)
    ensures Magnitude2d(v, sqrt) * Magnitude2d(v, sqrt) == Dot(v, v)
    ensures Magnitude2d(v, sqrt) == 0.0 <==> v == Zero
  {
    DotSelf(v);
    var d := Dot(v, v);
    HypotIsRoot(v.x, v.y, sqrt);
    SqrtFacts(sqrt, d);
    assert Magnitude2d(v, sqrt) == sqrt(d);
  }

  /** What `IsSqrt` gives at one argument, with the zero case spelled out. */
  lemma SqrtFacts(sqrt: real -> real, d: real)
    requires IsSqrt(sqrt) && 0.0 <= d
    ensures 0.0 <= sqrt(d) && sqrt(d) * sqrt(d) == d
    ensures sqrt(d) == 0.0 <==> d == 0.0
  {
    var m := sqrt(d);
    assert 0.0 <= m && m * m == d;
    if m != 0.0 {
      SquarePositive(m);
      calc {
        0.0;
      < m * m;
      == d;
      }
    } else {
      calc {
        d;
      == m * m;
      == 0.0 * 0.0;
      == 0.0;
      }
    }
  }

  /**
   * `normalize` maps the zero vector to itself and any other vector to the unit
   * vector with its direction.
   */
  lemma NormalizeIsUnit(v: Vec, sqrt: real -> real)
    requires IsSqrt(sqrt)
    ensures v == Zero ==> Normalize(v, sqrt) == Zero
    ensures v != Zero ==>
      var n := Normalize(v, sqrt);
      Dot(n, n) == 1.0 && n.x * v.y == n.y * v.x && Dot(n, v) == Magnitude2d(v, sqrt) && 0.0 < Dot(n, v)
  {
    MagnitudeIsLength(v, sqrt);
    if v != Zero {
      var m := Magnitude2d(v, sqrt);
      var n := Normalize(v, sqrt);
      assert n == Vec(v.x / m, v.y / m);
      assert n.x * m == v.x && n.y * m == v.y;
      assert m * m == Dot(v, v);
      assert Dot(n, v) * m == Dot(v, v) by {
        assert Dot(n, v) * m == (n.x * m) * v.x + (n.y * m) * v.y;
      }
      assert Dot(n, n) * (m * m) == Dot(v, v) by {
        assert Dot(n, n) * (m * m) == (n.x * m) * (n.x * m) + (n.y * m) * (n.y * m);
      }
      CancelFactor(Dot(n, n), 1.0, m * m);
      CancelFactor(Dot(n, v), m, m);
      assert n.x * v.y == n.y * v.x by {
        assert (n.x * v.y) * m == (n.y * v.x) * m;
        CancelFactor(n.x * v.y, n.y * v.x, m);
      }
    }
  }

  /** `dot(a - k n, t) == dot(a, t) - k dot(n, t)` */
  lemma DotSubScaled(a: Vec, n: Vec, k: real, t: Vec)
    ensures Dot(Sub(a, Scale(n, k)), t) == Dot(a, t) - k * Dot(n, t)
  {
  }

  /** `dot(a + k n, t) == dot(a, t) + k dot(n, t)` */
  lemma DotAddScaled(a: Vec, n: Vec, k: real, t: Vec)
    ensures Dot(Add(a, Scale(n, k)), t) == Dot(a, t) + k * Dot(n, t)
  {
  }

  /** `dot(k d, t) == k dot(t, d)` */
  lemma DotScaled(d: Vec, k: real, t: Vec)
    ensures Dot(Scale(d, k), t) == k * Dot(t, d)
  {
  }

  /** Negating both factors leaves a dot product unchanged. */
  lemma DotOfNegations(u: Vec, v: Vec, w: Vec, z: Vec)
    ensures Dot(Sub(v, u), Sub(z, w)) == Dot(Sub(u, v), Sub(w, z))
  {
    assert (v.x - u.x) * (z.x - w.x) == (u.x - v.x) * (w.x - z.x);
    assert (v.y - u.y) * (z.y - w.y) == (u.y - v.y) * (w.y - z.y);
  }

  /** `magnitude2d(q - p)` and `std::hypot` of the coordinate differences are the same length. */
  lemma MagnitudeIsHypot(p: Vec, q: Vec, sqrt: real -> real)
    ensures Magnitude2d(Sub(q, p), sqrt) == Hypot(q.x - p.x, q.y - p.y, sqrt)
  {
    HypotOfEqualArguments(Sub(q, p).x, Sub(q, p).y, q.x - p.x, q.y - p.y, sqrt);
  }

  /** Arithmetic helper: `Hypot` gives equal results on equal arguments. */
  lemma HypotOfEqualArguments(a: real, b: real, c: real, d: real, sqrt: real -> real)
    requires a == c && b == d
    ensures Hypot(a, b, sqrt) == Hypot(c, d, sqrt)
  {
  }

  /** `Hypot(a, b)` is the square root of `a*a + b*b`. */
  lemma HypotIsRoot(a: real, b: real, sqrt: real -> real)
    ensures Hypot(a, b, sqrt) == sqrt(a * a + b * b)
  {
  }

  /** `magnitude2d(v)` is the square root of `dot(v, v)`. */
  lemma MagnitudeIsRootOfDot(v: Vec, sqrt: real -> real)
    ensures Magnitude2d(v, sqrt) == sqrt(Dot(v, v))
  {
    HypotIsRoot(v.x, v.y, sqrt);
    RootOfEqual(v.x * v.x + v.y * v.y, Dot(v, v), sqrt);
  }

  /** Arithmetic helper: `sqrt` gives equal results on equal arguments. */
  lemma RootOfEqual(a: real, b: real, sqrt: real -> real)
    requires a == b
    ensures sqrt(a) == sqrt(b)
  {
  }
}
