/** The collision rules of the Claude hexagon program: balls with a radius
    and a mass proportional to it, a hexagon that turns by a set speed every
    frame, push-out and damped reflection at the walls, and an impulse
    exchange between two balls. */
module ClaudeHexagon {
  import opened Geometry
  import opened Results

  const Gravity: real := 0.3
  const Friction: real := 0.98
  const BounceDamping: real := 0.8

  datatype Ball = Ball(pos: Vec, vel: Vec, radius: real) {
    /** The mass the collision response uses. */
    function Mass(): real { radius / 10.0 }
  }

  datatype Hexagon = Hexagon(center: Vec, radius: real, angle: real, rotationSpeed: real)

  // ---------------------------------------------------------------------
  // Free flight

  /** One frame of free flight: gravity, then friction, then the move. */
  function Update(b: Ball): (r: Ball)
    ensures r.radius == b.radius
    ensures r.pos == Add(b.pos, r.vel)
    ensures r.vel.x == Friction * b.vel.x
    ensures r.vel.y == Friction * (b.vel.y + Gravity)
  {
    var m := Integrate(Motion(b.pos, b.vel), Gravity, Friction);
    Ball(m.pos, m.vel, b.radius)
  }

  /** `n` frames of free flight. */
  function UpdateN(b: Ball, n: nat): Ball
    decreases n
  {
    if n == 0 then b else Update(UpdateN(b, n - 1))
  }

  /** Free flight of a ball is the shared free flight of its motion, and the
      radius rides along. */
  lemma {:induction false} UpdateNIsFlight(b: Ball, n: nat)
    ensures UpdateN(b, n).radius == b.radius
    ensures Motion(UpdateN(b, n).pos, UpdateN(b, n).vel) == FlyN(Motion(b.pos, b.vel), Gravity, Friction, n)
    decreases n
  {
    if n > 0 {
      UpdateNIsFlight(b, n - 1);
    }
  }

  /** After `n` frames of free flight the horizontal speed is 0.98^n of what
      it was, the falling speed has closed on 14.7 by the same factor, and
      the ball has moved 49 (1 - 0.98^n) times its starting speed beyond
      that falling speed, plus 14.7 a frame downwards. */
  lemma FreeFlight(b: Ball, n: nat)
    ensures var q, w := UpdateN(b, n), Pow(Friction, n);
      && 0.0 < w <= 1.0 && (n > 0 ==> w < 1.0)
      && q.radius == b.radius
      && q.vel.x == w * b.vel.x
      && q.vel.y - 14.7 == w * (b.vel.y - 14.7)
      && q.pos.x == b.pos.x + 49.0 * (1.0 - w) * b.vel.x
      && q.pos.y == b.pos.y + n as real * 14.7 + 49.0 * (1.0 - w) * (b.vel.y - 14.7)
  {
    var q, w, r := UpdateN(b, n), Pow(Friction, n), Reach(Friction, n);
    assert FlownAs(Motion(q.pos, q.vel), Motion(b.pos, b.vel), 14.7, w, r, n as real) by {
      UpdateNIsFlight(b, n);
      FlyNClosedForm(Motion(b.pos, b.vel), Gravity, Friction, n);
      assert Terminal(Gravity, Friction) == 14.7;
    }
    assert r == 49.0 * (1.0 - w) by {
      ReachSum(Friction, n);
    }
    PowBounds(Friction, n);
  }

  // ---------------------------------------------------------------------
  // The hexagon

  /** The hexagon turns by its rotation speed. */
  function Spin(h: Hexagon): Hexagon {
    h.(angle := h.angle + h.rotationSpeed)
  }

  function SpinN(h: Hexagon, n: nat): Hexagon {
    if n == 0 then h else Spin(SpinN(h, n - 1))
  }

  /** After `n` frames the angle has grown by n times the rotation speed, and
      nothing else about the hexagon has changed. */
  lemma {:induction false} SpinNAngle(h: Hexagon, n: nat)
    ensures SpinN(h, n).angle == h.angle + n as real * h.rotationSpeed
    ensures SpinN(h, n).(angle := h.angle) == h
    decreases n
  {
    if n > 0 {
      SpinNAngle(h, n - 1);
    }
  }

  /** Corner `i` of the hexagon: at the hexagon's radius from its centre, in
      direction angle + i * pi / 3. */
  function Vertex(t: Trig, h: Hexagon, i: int): Vec {
    Polar(t, h.center, h.radius, h.angle + i as real * t.pi / 3.0)
  }

  function Vertices(t: Trig, h: Hexagon): (vs: seq<Vec>)
    ensures |vs| == 6
    ensures forall i :: 0 <= i < 6 ==> vs[i] == Vertex(t, h, i)
  {
    seq(6, i => Vertex(t, h, i))
  }

  /** The six sides, side i from corner i to corner (i + 1) mod 6. */
  function Edges(t: Trig, h: Hexagon): (es: seq<Edge>)
    ensures |es| == 6
    ensures forall i :: 0 <= i < 6 ==> es[i] == Edge(Vertices(t, h)[i], Vertices(t, h)[(i + 1) % 6])
  {
    var vs := Vertices(t, h);
    seq(6, i requires 0 <= i < 6 => Edge(vs[i], vs[(i + 1) % 6]))
  }

  /** The sides form one closed loop: each side starts where the previous
      one ends, and the last side ends at corner 0. */
  lemma EdgesCloseTheLoop(t: Trig, h: Hexagon)
    ensures forall i :: 0 <= i < 6 ==> Edges(t, h)[i].end == Edges(t, h)[(i + 1) % 6].start
    ensures Edges(t, h)[5].end == Vertices(t, h)[0]
  {
  }

  /** Every corner lies on the circle of the hexagon's radius. */
  lemma VerticesOnCircle(t: Trig, h: Hexagon)
    requires ValidTrig(t)
    ensures forall i :: 0 <= i < 6 ==> NormSq(Sub(Vertices(t, h)[i], h.center)) == h.radius * h.radius
  {
    forall i | 0 <= i < 6
      ensures NormSq(Sub(Vertices(t, h)[i], h.center)) == h.radius * h.radius
    {
      PolarDistance(t, h.center, h.radius, h.angle + i as real * t.pi / 3.0);
    }
  }

  // ---------------------------------------------------------------------
  // Distance to a side

  datatype Projection = Projection(dist: real, closest: Vec)

  /** The distance from `p` to the segment from `a` to `b`, and the point of
      the segment where it is attained.  A segment of zero length is an
      error: the program then returns a bare number where its caller unpacks
      three values, which raises. */
  function PointToLine(sqrt: real -> real, p: Vec, a: Vec, b: Vec): (r: Result<Projection>)
    ensures r.Err? <==> NormSq(Sub(b, a)) == 0.0
    ensures r.Ok? ==> r.value.closest == NearestOnSegment(p, a, b)
    ensures r.Ok? ==> r.value.dist == Length(sqrt, Sub(p, r.value.closest))
  {
    var ap := Sub(p, a);
    var ab := Sub(b, a);
    var dot := Dot(ap, ab);
    var lenSq := NormSq(ab);
    if lenSq == 0.0 then
      Err("zero-length edge: a bare distance cannot be unpacked into three values")
    else
      var param := dot / lenSq;
      var closest :=
        if param < 0.0 then a
        else if param > 1.0 then b
        else Vec(a.x + param * ab.x, a.y + param * ab.y);
      LerpEnds(a, b);
      Ok(Projection(Length(sqrt, Sub(p, closest)), closest))
  }

  /** The error case is exactly the segment whose ends coincide. */
  lemma PointToLineFailsOnlyForAPoint(sqrt: real -> real, p: Vec, a: Vec, b: Vec)
    ensures PointToLine(sqrt, p, a, b).Err? <==> a == b
  {
    NormSqZero(Sub(b, a));
    SubZero(a, b);
  }

  /** The reported point lies on the segment, and no point of the segment is
      nearer to `p`. */
  lemma PointToLineNearest(sqrt: real -> real, p: Vec, a: Vec, b: Vec, s: real)
    requires PointToLine(sqrt, p, a, b).Ok?
    requires 0.0 <= s <= 1.0
    ensures OnSegment(PointToLine(sqrt, p, a, b).value.closest, a, b)
    ensures NormSq(Sub(p, PointToLine(sqrt, p, a, b).value.closest)) <= NormSq(Sub(p, Lerp(a, b, s)))
  {
    LerpClampedOnSegment(a, b, Clamp01(ProjParam(p, a, b)));
    NearestIsNearest(p, a, b, s);
  }

  // ---------------------------------------------------------------------
  // Ball against one side

  /** The ball touches side `e`: it is nearer to it than its radius, and not
      exactly on it (the program skips a zero-length normal). */
  predicate WallHit(sqrt: real -> real, b: Ball, e: Edge) {
    match PointToLine(sqrt, b.pos, e.start, e.end)
    case Err(_) => false
    case Ok(pr) => pr.dist < b.radius && Length(sqrt, Sub(b.pos, pr.closest)) > 0.0
  }

  /** One pass of the wall loop for side `e`. */
  function WallStep(sqrt: real -> real, b: Ball, e: Edge): (r: Result<Ball>)
    ensures r.Err? <==> NormSq(Sub(e.end, e.start)) == 0.0
    ensures r.Ok? ==> r.value.radius == b.radius
    ensures r.Ok? && !WallHit(sqrt, b, e) ==> r.value == b
  {
    match PointToLine(sqrt, b.pos, e.start, e.end)
    case Err(msg) => Err(msg)
    case Ok(pr) =>
      if pr.dist < b.radius then
        var d := Sub(b.pos, pr.closest);
        var length := Length(sqrt, d);
        if length > 0.0 then
          var n := DivBy(d, length);
          var overlap := b.radius - pr.dist;
          Ok(Ball(Add(b.pos, Scale(overlap, n)), Scale(BounceDamping, Reflect(b.vel, n)), b.radius))
        else
          Ok(b)
      else
        Ok(b)
  }

  /** A hit leaves the centre exactly one radius from the nearest point of
      the side and mirrors the velocity across the wall: the component along
      the unit normal changes sign, the tangential one keeps it, and both are
      damped by 0.8, so the new speed is exactly 0.8 times the old one. */
  lemma WallHitEffect(sqrt: real -> real, b: Ball, e: Edge)
    requires IsSqrt(sqrt)
    requires WallHit(sqrt, b, e)
    ensures WallStep(sqrt, b, e).Ok?
    ensures
      var pr := PointToLine(sqrt, b.pos, e.start, e.end).value;
      var r := WallStep(sqrt, b, e).value;
      var n := DivBy(Sub(b.pos, pr.closest), pr.dist);
      && NormSq(n) == 1.0
      && Length(sqrt, Sub(r.pos, pr.closest)) == b.radius
      && Dot(r.vel, n) == -BounceDamping * Dot(b.vel, n)
      && Dot(r.vel, Perp(n)) == BounceDamping * Dot(b.vel, Perp(n))
      && NormSq(r.vel) == BounceDamping * BounceDamping * NormSq(b.vel)
      && Length(sqrt, r.vel) == BounceDamping * Length(sqrt, b.vel)
  {
    var pr := PointToLine(sqrt, b.pos, e.start, e.end).value;
    var n := DivBy(Sub(b.pos, pr.closest), pr.dist);
    var np := Add(b.pos, Scale(b.radius - pr.dist, n));
    var nv := Scale(BounceDamping, Reflect(b.vel, n));
    assert WallStep(sqrt, b, e).value == Ball(np, nv, b.radius);
    WallPushed(sqrt, b.pos, pr.closest, pr.dist, b.radius, np);
    WallReflected(sqrt, n, b.vel, nv);
  }

  /** Pushing the centre `p` out along the unit normal by the overlap puts
      it exactly `radius` from the nearest point `c`. */
  lemma WallPushed(sqrt: real -> real, p: Vec, c: Vec, len: real, radius: real, np: Vec)
    requires IsSqrt(sqrt)
    requires 0.0 < len < radius && len == Length(sqrt, Sub(p, c))
    requires np == Add(p, Scale(radius - len, DivBy(Sub(p, c), len)))
    ensures NormSq(DivBy(Sub(p, c), len)) == 1.0
    ensures Length(sqrt, Sub(np, c)) == radius
  {
    var d := Sub(p, c);
    assert len * len == NormSq(d) by { LengthFacts(sqrt, d); }
    DivByLengthIsUnit(d, len);
    assert NormSq(Sub(np, c)) == radius * radius by {
      PushOut(p, c, len, radius - len);
    }
    LengthUnique(sqrt, Sub(np, c), radius);
  }

  /** The damped reflection across a unit normal `n` flips and damps the
      normal component, damps the tangential one, and scales the speed. */
  lemma WallReflected(sqrt: real -> real, n: Vec, v: Vec, nv: Vec)
    requires IsSqrt(sqrt)
    requires NormSq(n) == 1.0
    requires nv == Scale(BounceDamping, Reflect(v, n))
    ensures Dot(nv, n) == -BounceDamping * Dot(v, n)
    ensures Dot(nv, Perp(n)) == BounceDamping * Dot(v, Perp(n))
    ensures NormSq(nv) == BounceDamping * BounceDamping * NormSq(v)
    ensures Length(sqrt, nv) == BounceDamping * Length(sqrt, v)
  {
    assert Dot(nv, n) == -BounceDamping * Dot(v, n) by {
      ReflectNegatesNormalComponent(v, n);
      DotScale(BounceDamping, Reflect(v, n), n);
    }
    assert Dot(nv, Perp(n)) == BounceDamping * Dot(v, Perp(n)) by {
      ReflectKeepsTangent(v, n);
      DotScale(BounceDamping, Reflect(v, n), Perp(n));
    }
    var l := Length(sqrt, v);
    assert NormSq(nv) == (BounceDamping * l) * (BounceDamping * l) && BounceDamping * l >= 0.0 by {
      DampedReflectSpeed(v, n, BounceDamping);
      LengthFacts(sqrt, v);
      MulNonNeg(BounceDamping, l);
      SquareOfProduct(BounceDamping, l, NormSq(v));
    }
    LengthUnique(sqrt, nv, BounceDamping * l);
  }

  lemma SquareOfProduct(k: real, l: real, q: real)
    requires l * l == q
    ensures (k * l) * (k * l) == k * k * q
  {
  }

  /** One side fails exactly when its ends coincide. */
  lemma WallStepFails(sqrt: real -> real, b: Ball, e: Edge)
    ensures WallStep(sqrt, b, e).Err? <==> e.start == e.end
  {
    NormSqZero(Sub(e.end, e.start));
    SubZero(e.start, e.end);
  }

  /** A list of sides whose first side has length has a zero-length side
      exactly when its tail does. */
  lemma DegenerateTail(es: seq<Edge>)
    requires |es| > 0 && es[0].start != es[0].end
    ensures (exists i :: 0 <= i < |es| && es[i].start == es[i].end)
        <==> (exists i :: 0 <= i < |es[1..]| && es[1..][i].start == es[1..][i].end)
  {
    if exists i :: 0 <= i < |es| && es[i].start == es[i].end {
      var i :| 0 <= i < |es| && es[i].start == es[i].end;
      assert es[1..][i - 1] == es[i];
    }
  }

  /** The wall loop: every side in order, no early exit. */
  function WallCollide(sqrt: real -> real, b: Ball, es: seq<Edge>): Result<Ball>
    decreases |es|
  {
    if |es| == 0 then Ok(b)
    else
      match WallStep(sqrt, b, es[0])
      case Err(msg) => Err(msg)
      case Ok(b1) => WallCollide(sqrt, b1, es[1..])
  }

  /** The wall loop fails exactly when some side has zero length; otherwise
      it keeps the radius and never increases the speed. */
  lemma {:induction false} WallCollideFacts(sqrt: real -> real, b: Ball, es: seq<Edge>)
    requires IsSqrt(sqrt)
    ensures WallCollide(sqrt, b, es).Err? <==> exists i :: 0 <= i < |es| && es[i].start == es[i].end
    ensures WallCollide(sqrt, b, es).Ok? ==> WallCollide(sqrt, b, es).value.radius == b.radius
    ensures WallCollide(sqrt, b, es).Ok? ==> NormSq(WallCollide(sqrt, b, es).value.vel) <= NormSq(b.vel)
    decreases |es|
  {
    if |es| > 0 {
      var e := es[0];
      WallStepFails(sqrt, b, e);
      var s := WallStep(sqrt, b, e);
      if s.Ok? {
        var b1 := s.value;
        WallCollideFacts(sqrt, b1, es[1..]);
        DegenerateTail(es);
        if WallHit(sqrt, b, e) {
          WallHitEffect(sqrt, b, e);
          NormSqNonNeg(b.vel);
        }
      }
    }
  }

  // ---------------------------------------------------------------------
  // Ball against ball

  /** The two balls overlap and their centres differ. */
  predicate Overlapping(sqrt: real -> real, b1: Ball, b2: Ball) {
    var distance := Length(sqrt, Sub(b2.pos, b1.pos));
    distance < b1.radius + b2.radius && distance > 0.0
  }

  /** Separation along the line of centres, then, unless the balls already
      move apart, an impulse weighted by the masses. */
  function BallBall(sqrt: real -> real, b1: Ball, b2: Ball): (r: (Ball, Ball))
    ensures r.0.radius == b1.radius && r.1.radius == b2.radius
    ensures !Overlapping(sqrt, b1, b2) ==> r == (b1, b2)
  {
    var d := Sub(b2.pos, b1.pos);
    var distance := Length(sqrt, d);
    if distance < b1.radius + b2.radius && distance > 0.0 then
      var n := DivBy(d, distance);
      var overlap := b1.radius + b2.radius - distance;
      var ps := Separate(b1.pos, b2.pos, n, overlap);
      var p1, p2 := ps.0, ps.1;
      var dvn := Dot(Sub(b2.vel, b1.vel), n);
      if dvn > 0.0 then
        (b1.(pos := p1), b2.(pos := p2))
      else
        var k := Kick(b1.vel, b2.vel, b1.Mass(), b2.Mass(), n, dvn);
        (Ball(p1, k.0, b1.radius), Ball(p2, k.1, b2.radius))
    else
      (b1, b2)
  }

  /** The separation: each centre moved half the overlap along `n`, the
      first back and the second forward. */
  function Separate(p1: Vec, p2: Vec, n: Vec, overlap: real): (Vec, Vec) {
    (Sub(p1, Scale(overlap * 0.5, n)), Add(p2, Scale(overlap * 0.5, n)))
  }

  /** The velocity exchange: the impulse 2 dvn / (m1 + m2) along `n`, each
      ball kicked in proportion to the other's mass. */
  function Kick(v1: Vec, v2: Vec, m1: real, m2: real, n: Vec, dvn: real): (Vec, Vec)
    requires m1 + m2 != 0.0
  {
    var impulse := 2.0 * dvn / (m1 + m2);
    (Add(v1, Scale(impulse * m2, n)), Sub(v2, Scale(impulse * m1, n)))
  }

  /** The unit vector from the first centre to the second. */
  function CollisionNormal(sqrt: real -> real, b1: Ball, b2: Ball): Vec
    requires Overlapping(sqrt, b1, b2)
  {
    DivBy(Sub(b2.pos, b1.pos), Length(sqrt, Sub(b2.pos, b1.pos)))
  }

  /** Separation moves the centres by equal and opposite amounts, so their
      sum is kept. */
  lemma BallBallKeepsCentreSum(sqrt: real -> real, b1: Ball, b2: Ball)
    ensures Add(BallBall(sqrt, b1, b2).0.pos, BallBall(sqrt, b1, b2).1.pos) == Add(b1.pos, b2.pos)
  {
  }

  /** After separation the centres are exactly r1 + r2 apart. */
  lemma BallBallSeparates(sqrt: real -> real, b1: Ball, b2: Ball)
    requires IsSqrt(sqrt)
    requires Overlapping(sqrt, b1, b2)
    ensures Length(sqrt, Sub(BallBall(sqrt, b1, b2).1.pos, BallBall(sqrt, b1, b2).0.pos)) == b1.radius + b2.radius
  {
    var d := Sub(b2.pos, b1.pos);
    var distance := Length(sqrt, d);
    var overlap := b1.radius + b2.radius - distance;
    var n := DivBy(d, distance);
    var gap := Sub(BallBall(sqrt, b1, b2).1.pos, BallBall(sqrt, b1, b2).0.pos);
    assert gap == Add(d, Scale(overlap, n)) by {
      BallBallPositions(sqrt, b1, b2, n, overlap);
      SeparationGap(b1.pos, b2.pos, n, overlap);
    }
    assert NormSq(gap) == (distance + overlap) * (distance + overlap) by {
      LengthFacts(sqrt, d);
      StretchAlong(d, distance, overlap);
    }
    assert distance + overlap == b1.radius + b2.radius;
    LengthUnique(sqrt, gap, b1.radius + b2.radius);
  }

  lemma BallBallPositions(sqrt: real -> real, b1: Ball, b2: Ball, n: Vec, overlap: real)
    requires Overlapping(sqrt, b1, b2)
    requires n == CollisionNormal(sqrt, b1, b2)
    requires overlap == b1.radius + b2.radius - Length(sqrt, Sub(b2.pos, b1.pos))
    ensures (BallBall(sqrt, b1, b2).0.pos, BallBall(sqrt, b1, b2).1.pos) == Separate(b1.pos, b2.pos, n, overlap)
  {
  }

  /** Moving two points half a step apart each along `n` widens their
      difference by one full step. */
  lemma SeparationGap(p1: Vec, p2: Vec, n: Vec, k: real)
    ensures Sub(Separate(p1, p2, n, k).1, Separate(p1, p2, n, k).0) == Add(Sub(p2, p1), Scale(k, n))
  {
  }

  /** If the balls already separate along the normal, only their positions
      change.  Otherwise the momentum m1 v1 + m2 v2 is kept (mass = radius
      / 10) and the relative velocity along the normal is reversed. */
  lemma BallBallImpulse(sqrt: real -> real, b1: Ball, b2: Ball)
    requires IsSqrt(sqrt)
    requires Overlapping(sqrt, b1, b2)
    ensures
      var n := CollisionNormal(sqrt, b1, b2);
      var r := BallBall(sqrt, b1, b2);
      var dvn := Dot(Sub(b2.vel, b1.vel), n);
      && (dvn > 0.0 ==> r.0.vel == b1.vel && r.1.vel == b2.vel)
      && (dvn <= 0.0 ==>
            (&& Add(Scale(b1.Mass(), r.0.vel), Scale(b2.Mass(), r.1.vel))
                  == Add(Scale(b1.Mass(), b1.vel), Scale(b2.Mass(), b2.vel))
             && Dot(Sub(r.1.vel, r.0.vel), n) == -dvn))
  {
    var d := Sub(b2.pos, b1.pos);
    var distance := Length(sqrt, d);
    LengthFacts(sqrt, d);
    var n := DivBy(d, distance);
    DivByLengthIsUnit(d, distance);
    var dvn := Dot(Sub(b2.vel, b1.vel), n);
    if dvn <= 0.0 {
      var m1, m2 := b1.Mass(), b2.Mass();
      BallBallExchange(sqrt, b1, b2, n, dvn);
      MomentumExchange(m1, m2, dvn, b1.vel, b2.vel, n);
      RelativeNormal(m1, m2, dvn, b1.vel, b2.vel, n);
    } else {
      BallBallApart(sqrt, b1, b2, n, dvn);
    }
  }

  lemma BallBallExchange(sqrt: real -> real, b1: Ball, b2: Ball, n: Vec, dvn: real)
    requires Overlapping(sqrt, b1, b2)
    requires n == CollisionNormal(sqrt, b1, b2) && dvn == Dot(Sub(b2.vel, b1.vel), n)
    requires dvn <= 0.0
    ensures (BallBall(sqrt, b1, b2).0.vel, BallBall(sqrt, b1, b2).1.vel)
         == Kick(b1.vel, b2.vel, b1.Mass(), b2.Mass(), n, dvn)
  {
  }

  lemma BallBallApart(sqrt: real -> real, b1: Ball, b2: Ball, n: Vec, dvn: real)
    requires Overlapping(sqrt, b1, b2)
    requires n == CollisionNormal(sqrt, b1, b2) && dvn == Dot(Sub(b2.vel, b1.vel), n)
    requires dvn > 0.0
    ensures BallBall(sqrt, b1, b2).0.vel == b1.vel && BallBall(sqrt, b1, b2).1.vel == b2.vel
  {
  }

  /** Equal and opposite mass-weighted kicks keep the momentum. */
  lemma MomentumExchange(m1: real, m2: real, dvn: real, v1: Vec, v2: Vec, n: Vec)
    requires m1 + m2 != 0.0
    ensures Add(Scale(m1, Kick(v1, v2, m1, m2, n, dvn).0), Scale(m2, Kick(v1, v2, m1, m2, n, dvn).1))
         == Add(Scale(m1, v1), Scale(m2, v2))
  {
    var impulse := 2.0 * dvn / (m1 + m2);
    assert m1 * (v1.x + impulse * m2 * n.x) + m2 * (v2.x - impulse * m1 * n.x) == m1 * v1.x + m2 * v2.x;
    assert m1 * (v1.y + impulse * m2 * n.y) + m2 * (v2.y - impulse * m1 * n.y) == m1 * v1.y + m2 * v2.y;
  }

  /** The impulse 2 dvn / (m1 + m2) reverses the relative normal velocity. */
  lemma RelativeNormal(m1: real, m2: real, dvn: real, v1: Vec, v2: Vec, n: Vec)
    requires m1 + m2 != 0.0
    requires NormSq(n) == 1.0
    requires dvn == Dot(Sub(v2, v1), n)
    ensures Dot(Sub(Kick(v1, v2, m1, m2, n, dvn).1, Kick(v1, v2, m1, m2, n, dvn).0), n) == -dvn
  {
    var impulse := 2.0 * dvn / (m1 + m2);
    var a, b := impulse * m1, impulse * m2;
    OpposedShifts(v1, v2, n, a, b);
    assert a + b == 2.0 * dvn;
    DotSubScale(Sub(v2, v1), n, a + b);
  }

  /** Taking `a n` from one velocity and adding `b n` to the other takes
      `(a + b) n` from their difference. */
  lemma OpposedShifts(v1: Vec, v2: Vec, n: Vec, a: real, b: real)
    ensures Sub(Sub(v2, Scale(a, n)), Add(v1, Scale(b, n))) == Sub(Sub(v2, v1), Scale(a + b, n))
  {
  }

  lemma DotSubScale(v: Vec, n: Vec, c: real)
    requires NormSq(n) == 1.0
    ensures Dot(Sub(v, Scale(c, n)), n) == Dot(v, n) - c
  {
    assert Dot(Sub(v, Scale(c, n)), n) == Dot(v, n) - c * NormSq(n);
  }
}
