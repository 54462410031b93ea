/** Plane vectors over exact reals, and the facts about them that the two
    hexagon simulations share.

    The programs use floating-point numbers and the math library's sqrt, cos
    and sin.  Here every quantity is an exact `real`, and the three library
    functions are parameters: a square root is any function satisfying
    `IsSqrt`, and a trigonometry is any pair (cos, sin) satisfying the
    Pythagorean identity together with some value for pi. */
module Geometry {

  datatype Vec = Vec(x: real, y: real)

  function Add(a: Vec, b: Vec): Vec { Vec(a.x + b.x, a.y + b.y) }

  function Sub(a: Vec, b: Vec): Vec { Vec(a.x - b.x, a.y - b.y) }

  function Scale(k: real, v: Vec): Vec { Vec(k * v.x, k * v.y) }

  function Dot(a: Vec, b: Vec): real { a.x * b.x + a.y * b.y }

  /** Squared Euclidean length. */
  function NormSq(v: Vec): real { v.x * v.x + v.y * v.y }

  /** Componentwise division by a length, as the programs normalise a vector. */
  function DivBy(v: Vec, len: real): Vec
    requires len != 0.0
  {
    Vec(v.x / len, v.y / len)
  }

  /** The point a fraction `t` of the way from `a` to `b`. */
  function Lerp(a: Vec, b: Vec, t: real): Vec { Add(a, Scale(t, Sub(b, a))) }

  /** `q` lies on the closed segment from `a` to `b`. */
  ghost predicate OnSegment(q: Vec, a: Vec, b: Vec) {
    exists t: real :: 0.0 <= t <= 1.0 && q == Lerp(a, b, t)
  }

  /** Mirror `v` across the line through the origin perpendicular to `n`:
      v - 2 (v . n) n. */
  function Reflect(v: Vec, n: Vec): Vec { Sub(v, Scale(2.0 * Dot(v, n), n)) }

  /** The value 0 <= t <= 1 nearest to `t`. */
  function Clamp01(t: real): (r: real)
    ensures 0.0 <= r <= 1.0
    ensures 0.0 <= t <= 1.0 ==> r == t
    ensures t < 0.0 ==> r == 0.0
    ensures t > 1.0 ==> r == 1.0
  {
    if t < 0.0 then 0.0 else if t > 1.0 then 1.0 else t
  }

  /** A square-root function: non-negative, and squares back to its argument
      on the non-negative reals. */
  ghost predicate IsSqrt(sqrt: real -> real) {
    forall x: real :: 0.0 <= x ==> 0.0 <= sqrt(x) && sqrt(x) * sqrt(x) == x
  }

  /** The Euclidean length of `v` under the square root `sqrt`. */
  function Length(sqrt: real -> real, v: Vec): real { sqrt(NormSq(v)) }

  /** Cosine, sine and pi, supplied by the caller. */
  datatype Trig = Trig(cos: real -> real, sin: real -> real, pi: real)

  /** The only trigonometric law the model relies on. */
  ghost predicate ValidTrig(t: Trig) {
    forall a: real :: t.cos(a) * t.cos(a) + t.sin(a) * t.sin(a) == 1.0
  }

  /** The point at distance `r` from `c` in direction `a`. */
  function Polar(t: Trig, c: Vec, r: real, a: real): Vec {
    Vec(c.x + r * t.cos(a), c.y + r * t.sin(a))
  }

  /** A segment of a polygon boundary. */
  datatype Edge = Edge(start: Vec, end: Vec)

  /** Position and velocity of a ball. */
  datatype Motion = Motion(pos: Vec, vel: Vec)

  /** The free-flight update both programs perform each frame: add gravity to
      the vertical velocity, scale both components by the friction factor,
      then move by the new velocity. */
  function Integrate(m: Motion, gravity: real, friction: real): (r: Motion)
    ensures Sub(r.pos, m.pos) == r.vel
  {
    var vel := Scale(friction, Vec(m.vel.x, m.vel.y + gravity));
    Motion(Add(m.pos, vel), vel)
  }

  /** `x` to the power `n`. */
  function Pow(x: real, n: nat): real
    decreases n
  {
    if n == 0 then 1.0 else x * Pow(x, n - 1)
  }

  /** `n` frames of free flight. */
  function FlyN(m: Motion, gravity: real, friction: real, n: nat): Motion
    decreases n
  {
    if n == 0 then m else Integrate(FlyN(m, gravity, friction, n - 1), gravity, friction)
  }

  /** The falling speed a frame of free flight keeps: gravity and friction
      balance there. */
  function Terminal(gravity: real, friction: real): real
    requires friction != 1.0
  {
    friction * gravity / (1.0 - friction)
  }

  /** friction + friction^2 + ... + friction^n: how far a unit of starting
      speed, beyond the falling speed, carries the ball in `n` frames. */
  function Reach(friction: real, n: nat): real
    decreases n
  {
    if n == 0 then 0.0 else Reach(friction, n - 1) + Pow(friction, n)
  }

  lemma TerminalFixed(gravity: real, friction: real)
    requires friction != 1.0
    ensures friction * (Terminal(gravity, friction) + gravity) == Terminal(gravity, friction)
  {
    var t := Terminal(gravity, friction);
    assert t * (1.0 - friction) == friction * gravity;
  }

  lemma PowStep(x: real, n: nat)
    requires n > 0
    ensures Pow(x, n) == x * Pow(x, n - 1)
  {
  }

  /** The powers of a friction factor between 0 and 1 shrink towards 0. */
  lemma {:induction false} PowBounds(x: real, n: nat)
    requires 0.0 < x < 1.0
    ensures 0.0 < Pow(x, n) <= 1.0
    ensures n > 0 ==> Pow(x, n) < 1.0
    decreases n
  {
    if n > 0 {
      PowBounds(x, n - 1);
      PositiveProduct(x, Pow(x, n - 1));
    }
  }

  /** The sum of the geometric series. */
  lemma {:induction false} ReachSum(friction: real, n: nat)
    ensures Reach(friction, n) * (1.0 - friction) == friction * (1.0 - Pow(friction, n))
    decreases n
  {
    if n > 0 {
      ReachSum(friction, n - 1);
      var p := Pow(friction, n - 1);
      PowStep(friction, n);
      var r := Reach(friction, n - 1);
      assert Reach(friction, n) == r + friction * p;
      GeometricStep(r, friction, p);
    }
  }

  lemma GeometricStep(r: real, f: real, p: real)
    requires r * (1.0 - f) == f * (1.0 - p)
    ensures (r + f * p) * (1.0 - f) == f * (1.0 - f * p)
  {
    assert (r + f * p) * (1.0 - f) == r * (1.0 - f) + f * p * (1.0 - f);
  }

  /** `q` is where free flight from `m` gets to once the speed has decayed
      by `w`, the reach is `r` and `k` frames have passed, `t` being the
      falling speed that a frame keeps. */
  predicate FlownAs(q: Motion, m: Motion, t: real, w: real, r: real, k: real) {
    && q.vel.x == w * m.vel.x
    && q.vel.y - t == w * (m.vel.y - t)
    && q.pos.x == m.pos.x + r * m.vel.x
    && q.pos.y == m.pos.y + k * t + r * (m.vel.y - t)
  }

  /** After `n` frames of free flight the horizontal speed has been scaled
      by friction^n, the falling speed has closed on `Terminal` by the same
      factor, and the ball has moved by the sum of the speeds it had. */
  lemma {:induction false} FlyNClosedForm(m: Motion, gravity: real, friction: real, n: nat)
    requires friction != 1.0
    ensures FlownAs(FlyN(m, gravity, friction, n), m, Terminal(gravity, friction),
                    Pow(friction, n), Reach(friction, n), n as real)
    decreases n
  {
    if n > 0 {
      FlyNClosedForm(m, gravity, friction, n - 1);
      var t := Terminal(gravity, friction);
      TerminalFixed(gravity, friction);
      var prev := FlyN(m, gravity, friction, n - 1);
      var p := Pow(friction, n - 1);
      var r := Reach(friction, n - 1);
      var w := Pow(friction, n);
      var k := (n - 1) as real;
      PowStep(friction, n);
      FlyStep(prev, gravity, friction, t, p, r, w, m, k);
      assert Reach(friction, n) == r + w;
      assert k + 1.0 == n as real;
      assert FlyN(m, gravity, friction, n) == Integrate(prev, gravity, friction);
    }
  }

  /** The inductive step of the closed form, on named quantities: `p` and
      `w` are consecutive powers of the friction. */
  lemma FlyStep(prev: Motion, gravity: real, friction: real, t: real, p: real, r: real, w: real, m: Motion, k: real)
    requires friction * (t + gravity) == t
    requires w == friction * p
    requires FlownAs(prev, m, t, p, r, k)
    ensures FlownAs(Integrate(prev, gravity, friction), m, t, w, r + w, k + 1.0)
  {
    var q := Integrate(prev, gravity, friction);
    IntegrateParts(prev, gravity, friction);
    var vx, vy := friction * prev.vel.x, friction * (prev.vel.y + gravity);
    assert vx == w * m.vel.x by {
      ScaleStep(friction, p, m.vel.x);
    }
    assert vy - t == w * (m.vel.y - t) by {
      DecayStep(friction, gravity, t, prev.vel.y, p, m.vel.y - t);
    }
    SumStep(prev.pos.x, m.pos.x, r, m.vel.x, w);
    SumStepY(prev.pos.y, m.pos.y, k, t, r, m.vel.y - t, w);
  }

  lemma IntegrateParts(m: Motion, gravity: real, friction: real)
    ensures var q := Integrate(m, gravity, friction);
      && q.vel == Vec(friction * m.vel.x, friction * (m.vel.y + gravity))
      && q.pos == Vec(m.pos.x + q.vel.x, m.pos.y + q.vel.y)
  {
  }

  lemma ScaleStep(f: real, p: real, v: real)
    ensures f * (p * v) == (f * p) * v
  {
  }

  lemma DecayStep(f: real, g: real, t: real, y: real, p: real, d: real)
    requires f * (t + g) == t
    requires y - t == p * d
    ensures f * (y + g) - t == (f * p) * d
  {
    assert f * (y + g) - t == f * (y - t) + (f * (t + g) - t);
    ScaleStep(f, p, d);
  }

  lemma SumStep(x: real, mx: real, r: real, v: real, w: real)
    requires x == mx + r * v
    ensures x + w * v == mx + (r + w) * v
  {
  }

  lemma SumStepY(y: real, my: real, k: real, t: real, r: real, d: real, w: real)
    requires y == my + k * t + r * d
    ensures y + (t + w * d) == my + (k + 1.0) * t + (r + w) * d
  {
  }

  /** The sum of `f` over a list. */
  function Total<T>(xs: seq<T>, f: T -> Vec): Vec
    decreases |xs|
  {
    if |xs| == 0 then Vec(0.0, 0.0) else Add(f(xs[0]), Total(xs[1..], f))
  }

  /** Replacing one element changes the total by exactly the difference. */
  lemma {:induction false} TotalUpdate<T>(xs: seq<T>, i: nat, x: T, f: T -> Vec)
    requires i < |xs|
    ensures Total(xs[i := x], f) == Add(Sub(Total(xs, f), f(xs[i])), f(x))
    decreases |xs|
  {
    if i > 0 {
      assert xs[i := x][1..] == xs[1..][i - 1 := x];
      TotalUpdate(xs[1..], i - 1, x, f);
    }
  }

  /** Replacing two elements by values with the same sum keeps the total. */
  lemma TotalUpdatePair<T>(xs: seq<T>, i: nat, j: nat, x: T, y: T, f: T -> Vec)
    requires i < |xs| && j < |xs| && i != j
    requires Add(f(x), f(y)) == Add(f(xs[i]), f(xs[j]))
    ensures Total(xs[i := x][j := y], f) == Total(xs, f)
  {
    TotalUpdate(xs, i, x, f);
    TotalUpdate(xs[i := x], j, y, f);
  }

  // ---------------------------------------------------------------------
  // Squares and lengths

  lemma NormSqNonNeg(v: Vec)
    ensures 0.0 <= NormSq(v)
  {
    ProductNonNeg(v.x, v.x);
    ProductNonNeg(v.y, v.y);
  }

  /** A difference vanishes exactly when its two ends coincide. */
  lemma SubZero(a: Vec, b: Vec)
    ensures Sub(b, a) == Vec(0.0, 0.0) <==> a == b
  {
  }

  /** The squared length vanishes exactly for the zero vector. */
  lemma NormSqZero(v: Vec)
    ensures NormSq(v) == 0.0 <==> v == Vec(0.0, 0.0)
  {
    if NormSq(v) == 0.0 {
      SumOfSquaresZero(v.x, v.y);
    }
  }

  lemma NormSqScale(k: real, v: Vec)
    ensures NormSq(Scale(k, v)) == k * k * NormSq(v)
  {
    assert (k * v.x) * (k * v.x) == k * k * (v.x * v.x);
    assert (k * v.y) * (k * v.y) == k * k * (v.y * v.y);
  }

  /** Two non-negative reals with equal squares are equal. */
  lemma SquareInjective(a: real, b: real)
    requires 0.0 <= a && 0.0 <= b
    requires a * a == b * b
    ensures a == b
  {
    assert (a - b) * (a + b) == 0.0;
    if a + b > 0.0 {
      assert a - b == (a - b) * (a + b) / (a + b);
    }
  }

  lemma PositiveProduct(a: real, b: real)
    requires 0.0 < a && 0.0 < b
    ensures 0.0 < a * b
  {
  }

  lemma NegativeProduct(a: real, b: real)
    requires a < 0.0 && b < 0.0
    ensures 0.0 < a * b
  {
    PositiveProduct(-a, -b);
    assert (-a) * (-b) == a * b;
  }

  // The next two facts are stated for a product a * b with a == b rather
  // than for a * a: the solver handles the former far more reliably.

  lemma ProductNonNeg(a: real, b: real)
    requires a == b
    ensures 0.0 <= a * b
  {
    if a > 0.0 {
      PositiveProduct(a, b);
    } else if a < 0.0 {
      NegativeProduct(a, b);
    }
  }

  lemma ProductZero(a: real, b: real)
    requires a == b
    requires a * b == 0.0
    ensures a == 0.0
  {
    var m := if a < 0.0 then -a else a;
    assert m * m == a * b;
    if m > 0.0 {
      PositiveProduct(m, m);
    }
  }

  lemma SumOfSquaresZero(a: real, b: real)
    requires a * a + b * b == 0.0
    ensures a == 0.0 && b == 0.0
  {
    ProductNonNeg(a, a);
    ProductNonNeg(b, b);
    ProductZero(a, a);
    ProductZero(b, b);
  }

  lemma SqrtFacts(sqrt: real -> real, q: real)
    requires IsSqrt(sqrt)
    requires 0.0 <= q
    ensures 0.0 <= sqrt(q) && sqrt(q) * sqrt(q) == q
  {
  }

  /** A non-negative square root vanishes exactly when its square does. */
  lemma RootZero(s: real, q: real)
    requires 0.0 <= s && s * s == q
    ensures s == 0.0 <==> q == 0.0
  {
    if q == 0.0 {
      ProductZero(s, s);
    }
  }

  /** The square root of a non-negative number is a non-negative root of
      it, and vanishes exactly when the number does. */
  lemma RootFacts(sqrt: real -> real, q: real)
    requires IsSqrt(sqrt)
    requires 0.0 <= q
    ensures 0.0 <= sqrt(q) && sqrt(q) * sqrt(q) == q
    ensures sqrt(q) == 0.0 <==> q == 0.0
  {
    SqrtFacts(sqrt, q);
    RootZero(sqrt(q), q);
  }

  /** The length is a non-negative square root of the squared length, and
      it vanishes exactly for the zero vector. */
  lemma LengthFacts(sqrt: real -> real, v: Vec)
    requires IsSqrt(sqrt)
    ensures 0.0 <= Length(sqrt, v)
    ensures Length(sqrt, v) * Length(sqrt, v) == NormSq(v)
    ensures Length(sqrt, v) == 0.0 <==> v == Vec(0.0, 0.0)
  {
    var q := NormSq(v);
    NormSqNonNeg(v);
    NormSqZero(v);
    RootFacts(sqrt, q);
    assert Length(sqrt, v) == sqrt(q);
  }

  /** A length is determined by its square: a non-negative `d` with
      d * d == NormSq(v) is the length of `v`. */
  lemma LengthUnique(sqrt: real -> real, v: Vec, d: real)
    requires IsSqrt(sqrt)
    requires 0.0 <= d && d * d == NormSq(v)
    ensures Length(sqrt, v) == d
  {
    LengthFacts(sqrt, v);
    SquareInjective(Length(sqrt, v), d);
  }

  /** Dividing a vector by its (non-zero) length gives a unit vector. */
  lemma DivByLengthIsUnit(v: Vec, len: real)
    requires len != 0.0
    requires len * len == NormSq(v)
    ensures NormSq(DivBy(v, len)) == 1.0
  {
    var k := 1.0 / len;
    assert DivBy(v, len) == Scale(k, v);
    NormSqScale(k, v);
    assert k * k * (len * len) == 1.0;
  }

  // ---------------------------------------------------------------------
  // Reflection

  /** Mirroring across a unit normal keeps the squared speed. */
  lemma ReflectKeepsNorm(v: Vec, n: Vec)
    requires NormSq(n) == 1.0
    ensures NormSq(Reflect(v, n)) == NormSq(v)
  {
    var d := Dot(v, n);
    ReflectSquares(v.x, v.y, n.x, n.y, d);
  }

  lemma ReflectSquares(x: real, y: real, p: real, q: real, d: real)
    ensures (x - 2.0 * d * p) * (x - 2.0 * d * p) + (y - 2.0 * d * q) * (y - 2.0 * d * q)
         == x * x + y * y - 4.0 * d * (x * p + y * q) + 4.0 * d * d * (p * p + q * q)
  {
  }

  /** Mirroring across a unit normal negates the normal component. */
  lemma ReflectNegatesNormalComponent(v: Vec, n: Vec)
    requires NormSq(n) == 1.0
    ensures Dot(Reflect(v, n), n) == -Dot(v, n)
  {
    var d := Dot(v, n);
    ReflectAlong(v.x, v.y, n.x, n.y, d);
  }

  lemma ReflectAlong(x: real, y: real, p: real, q: real, d: real)
    ensures (x - 2.0 * d * p) * p + (y - 2.0 * d * q) * q == (x * p + y * q) - 2.0 * d * (p * p + q * q)
  {
  }

  /** `n` turned a quarter turn: the tangent direction of a wall with normal `n`. */
  function Perp(n: Vec): Vec { Vec(-n.y, n.x) }

  /** Mirroring across any normal leaves the tangential component alone. */
  lemma ReflectKeepsTangent(v: Vec, n: Vec)
    ensures Dot(Reflect(v, n), Perp(n)) == Dot(v, Perp(n))
  {
    var d := Dot(v, n);
    ReflectAcross(v.x, v.y, n.x, n.y, d);
  }

  lemma ReflectAcross(x: real, y: real, p: real, q: real, d: real)
    ensures (x - 2.0 * d * p) * -q + (y - 2.0 * d * q) * p == x * -q + y * p
  {
  }

  lemma DotScale(k: real, v: Vec, n: Vec)
    ensures Dot(Scale(k, v), n) == k * Dot(v, n)
  {
  }

  /** A bounce (reflect, then damp by `k`) scales the squared speed by k^2. */
  lemma DampedReflectSpeed(v: Vec, n: Vec, k: real)
    requires NormSq(n) == 1.0
    ensures NormSq(Scale(k, Reflect(v, n))) == k * k * NormSq(v)
  {
    ReflectKeepsNorm(v, n);
    NormSqScale(k, Reflect(v, n));
  }

  // ---------------------------------------------------------------------
  // Moving along a direction

  /** Moving the tip of `d` by `k` along its own direction d / |d| turns
      its length |d| into |d| + k. */
  lemma StretchAlong(d: Vec, len: real, k: real)
    requires len != 0.0 && len * len == NormSq(d)
    ensures NormSq(Add(d, Scale(k, DivBy(d, len)))) == (len + k) * (len + k)
  {
    var f := (len + k) / len;
    StretchComponent(d.x, len, k);
    StretchComponent(d.y, len, k);
    assert Add(d, Scale(k, DivBy(d, len))) == Scale(f, d);
    NormSqScale(f, d);
    SquareRatio(len, k, NormSq(d));
  }

  lemma StretchComponent(c: real, len: real, k: real)
    requires len != 0.0
    ensures c + k * (c / len) == (len + k) / len * c
  {
  }

  lemma SquareRatio(len: real, k: real, q: real)
    requires len != 0.0 && len * len == q
    ensures (len + k) / len * ((len + k) / len) * q == (len + k) * (len + k)
  {
    var f := (len + k) / len;
    assert f * len == len + k;
    assert f * f * (len * len) == (f * len) * (f * len);
  }

  /** Pushing a point `p` away from `c` by `k` along the unit vector from `c`
      to `p` leaves it at distance |p - c| + k from `c`. */
  lemma PushOut(p: Vec, c: Vec, len: real, k: real)
    requires len != 0.0 && len * len == NormSq(Sub(p, c))
    ensures NormSq(Sub(Add(p, Scale(k, DivBy(Sub(p, c), len))), c)) == (len + k) * (len + k)
  {
    var d := Sub(p, c);
    assert Sub(Add(p, Scale(k, DivBy(d, len))), c) == Add(d, Scale(k, DivBy(d, len)));
    StretchAlong(d, len, k);
  }

  // ---------------------------------------------------------------------
  // Segments and circles

  /** A clamped interpolation parameter gives a point on the segment. */
  lemma LerpClampedOnSegment(a: Vec, b: Vec, t: real)
    requires 0.0 <= t <= 1.0
    ensures OnSegment(Lerp(a, b, t), a, b)
  {
  }

  lemma LerpEnds(a: Vec, b: Vec)
    ensures Lerp(a, b, 0.0) == a
    ensures Lerp(a, b, 1.0) == b
  {
  }

  /** The point Polar(t, c, r, a) is exactly `r` away from `c`. */
  lemma PolarDistance(t: Trig, c: Vec, r: real, a: real)
    requires ValidTrig(t)
    ensures NormSq(Sub(Polar(t, c, r, a), c)) == r * r
  {
    var co, si := t.cos(a), t.sin(a);
    assert co * co + si * si == 1.0;
    var d := Sub(Polar(t, c, r, a), c);
    assert d.x == r * co && d.y == r * si;
    calc {
      NormSq(d);
      (r * co) * (r * co) + (r * si) * (r * si);
      r * r * (co * co + si * si);
    }
  }

  // ---------------------------------------------------------------------
  // The nearest point of a segment

  /** The unclamped parameter of the projection of `p` onto the line through
      `a` and `b`. */
  function ProjParam(p: Vec, a: Vec, b: Vec): real
    requires NormSq(Sub(b, a)) != 0.0
  {
    Dot(Sub(p, a), Sub(b, a)) / NormSq(Sub(b, a))
  }

  /** The point of the segment from `a` to `b` nearest to `p`: the projection,
      with its parameter clamped to [0, 1]. */
  function NearestOnSegment(p: Vec, a: Vec, b: Vec): Vec
    requires NormSq(Sub(b, a)) != 0.0
  {
    Lerp(a, b, Clamp01(ProjParam(p, a, b)))
  }

  /** No point of the segment is closer to `p` than `NearestOnSegment`. */
  lemma NearestIsNearest(p: Vec, a: Vec, b: Vec, s: real)
    requires NormSq(Sub(b, a)) != 0.0
    requires 0.0 <= s <= 1.0
    ensures NormSq(Sub(p, NearestOnSegment(p, a, b))) <= NormSq(Sub(p, Lerp(a, b, s)))
  {
    var t := Clamp01(ProjParam(p, a, b));
    assert NearestOnSegment(p, a, b) == Lerp(a, b, t);
    ClampedIsNearer(p, a, b, t, s);
  }

  /** The point at the clamped projection parameter `t` is no farther from
      `p` than the point at any parameter `s` in [0, 1]. */
  lemma ClampedIsNearer(p: Vec, a: Vec, b: Vec, t: real, s: real)
    requires NormSq(Sub(b, a)) != 0.0
    requires t == Clamp01(ProjParam(p, a, b))
    requires 0.0 <= s <= 1.0
    ensures NormSq(Sub(p, Lerp(a, b, t))) <= NormSq(Sub(p, Lerp(a, b, s)))
  {
    var A, C := Sub(p, a), Sub(b, a);
    var q, l, d := NormSq(A), NormSq(C), Dot(A, C);
    assert l > 0.0 by { NormSqNonNeg(C); }
    assert t == Clamp01(d / l);
    DistAlong(p, a, b, t);
    DistAlong(p, a, b, s);
    SegmentMin(q, d, l, t, s);
  }

  /** The quadratic q - 2 s d + s s l, with l > 0, takes its least value on
      [0, 1] at the clamped vertex t of d / l. */
  lemma SegmentMin(q: real, d: real, l: real, t: real, s: real)
    requires 0.0 < l
    requires t == Clamp01(d / l)
    requires 0.0 <= s <= 1.0
    ensures Quad(q, d, l, t) <= Quad(q, d, l, s)
  {
    var ts := d / l;
    DivMul(d, l);
    QuadraticMin(l, ts, t, s);
    NearestAlgebra(q, d, l, ts, t, s);
  }

  /** The quadratic q - 2 s d + s s l in `s`. */
  function Quad(q: real, d: real, l: real, s: real): real {
    q - 2.0 * s * d + s * s * l
  }

  /** The squared distance from `p` to the point with parameter `s`, as a
      quadratic in `s`. */
  lemma DistAlong(p: Vec, a: Vec, b: Vec, s: real)
    ensures NormSq(Sub(p, Lerp(a, b, s))) == Quad(NormSq(Sub(p, a)), Dot(Sub(p, a), Sub(b, a)), NormSq(Sub(b, a)), s)
  {
    var A, C := Sub(p, a), Sub(b, a);
    LerpOffset(p, a, b, s);
    LineSquares(A.x, A.y, C.x, C.y, s);
  }

  lemma LerpOffset(p: Vec, a: Vec, b: Vec, s: real)
    ensures Sub(p, Lerp(a, b, s)) == Vec(Sub(p, a).x - s * Sub(b, a).x, Sub(p, a).y - s * Sub(b, a).y)
  {
    var c := Sub(b, a);
    assert Lerp(a, b, s) == Vec(a.x + s * c.x, a.y + s * c.y);
  }

  lemma LineSquares(x: real, y: real, p: real, q: real, s: real)
    ensures (x - s * p) * (x - s * p) + (y - s * q) * (y - s * q)
         == x * x + y * y - 2.0 * s * (x * p + y * q) + s * s * (p * p + q * q)
  {
  }

  /** Over [0, 1] the quadratic l (s^2 - 2 s ts), l > 0, is least at the
      clamped ts. */
  lemma QuadraticMin(l: real, ts: real, t: real, s: real)
    requires 0.0 < l
    requires t == Clamp01(ts)
    requires 0.0 <= s <= 1.0
    ensures l * (t * t - 2.0 * t * ts) <= l * (s * s - 2.0 * s * ts)
  {
    var g := (s - t) * (s + t - 2.0 * ts);
    assert l * (s * s - 2.0 * s * ts) - l * (t * t - 2.0 * t * ts) == l * g;
    if ts < 0.0 {
      MulNonNeg(s, s - 2.0 * ts);
    } else if ts > 1.0 {
      MulNonPos(s - 1.0, s + 1.0 - 2.0 * ts);
    } else {
      ProductNonNeg(s - t, s - t);
    }
    MulNonNeg(l, g);
  }

  lemma NearestAlgebra(q: real, d: real, l: real, ts: real, t: real, s: real)
    requires l != 0.0 && d / l * l == d && ts == d / l
    requires l * (t * t - 2.0 * t * ts) <= l * (s * s - 2.0 * s * ts)
    ensures q - 2.0 * t * d + t * t * l <= q - 2.0 * s * d + s * s * l
  {
    assert 2.0 * t * d == l * (2.0 * t * ts);
    assert 2.0 * s * d == l * (2.0 * s * ts);
  }

  lemma DivMul(d: real, l: real)
    requires l != 0.0
    ensures d / l * l == d
  {
  }

  lemma MulNonNeg(a: real, b: real)
    requires 0.0 <= a && 0.0 <= b
    ensures 0.0 <= a * b
  {
  }

  lemma MulNonPos(a: real, b: real)
    requires a <= 0.0 && b <= 0.0
    ensures 0.0 <= a * b
  {
  }
}
