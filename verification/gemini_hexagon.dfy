/** The Gemini hexagon program: equal balls of one fixed radius, a hexagon
    drawn each frame by turning a fixed base hexagon through the current
    angular speed, a wall check that resolves only the first side touched,
    and a ball check that reacts with only the first partner approaching. */
module GeminiHexagon {
  import opened Geometry

  const Center: Vec := Vec(400.0, 300.0)
  const HexRadius: real := 200.0
  const BallRadius: real := 10.0
  const Gravity: real := 0.5
  const Friction: real := 0.98
  const BounceFactor: real := 0.8
  const InitialAngularSpeed: real := 0.02
  const MaxAngularSpeed: real := 0.05
  const MinAngularSpeed: real := 0.0

  /** Every ball has radius `BallRadius` and, implicitly, the same mass. */
  datatype Ball = Ball(pos: Vec, vel: Vec)

  /** Two random signs: the fallback normal is (+-1, +-1), normalised. */
  type Coin = (bool, bool)

  /** One frame of free flight: gravity, then friction, then the move. */
  function Update(b: Ball): (r: Ball)
    ensures r.pos == Add(b.pos, r.vel)
    ensures r.vel.x == Friction * b.vel.x
    ensures r.vel.y == Friction * (b.vel.y + Gravity)
  {
    var m := Integrate(Motion(b.pos, b.vel), Gravity, Friction);
    Ball(m.pos, m.vel)
  }

  /** `n` frames of free flight. */
  function UpdateN(b: Ball, n: nat): Ball
    decreases n
  {
    if n == 0 then b else Update(UpdateN(b, n - 1))
  }

  /** Free flight of a ball is the shared free flight of its motion. */
  lemma {:induction false} UpdateNIsFlight(b: Ball, n: nat)
    ensures Motion(UpdateN(b, n).pos, UpdateN(b, n).vel) == FlyN(Motion(b.pos, b.vel), Gravity, Friction, n)
    decreases n
  {
    if n > 0 {
      UpdateNIsFlight(b, n - 1);
    }
  }

  /** After `n` frames of free flight the horizontal speed is 0.98^n of what
      it was, the falling speed has closed on 24.5 by the same factor, and
      the ball has moved 49 (1 - 0.98^n) times its starting speed beyond
      that falling speed, plus 24.5 a frame downwards. */
  lemma FreeFlight(b: Ball, n: nat)
    ensures var q, w := UpdateN(b, n), Pow(Friction, n);
      && 0.0 < w <= 1.0 && (n > 0 ==> w < 1.0)
      && q.vel.x == w * b.vel.x
      && q.vel.y - 24.5 == w * (b.vel.y - 24.5)
      && q.pos.x == b.pos.x + 49.0 * (1.0 - w) * b.vel.x
      && q.pos.y == b.pos.y + n as real * 24.5 + 49.0 * (1.0 - w) * (b.vel.y - 24.5)
  {
    var q, w, r := UpdateN(b, n), Pow(Friction, n), Reach(Friction, n);
    assert FlownAs(Motion(q.pos, q.vel), Motion(b.pos, b.vel), 24.5, w, r, n as real) by {
      UpdateNIsFlight(b, n);
      FlyNClosedForm(Motion(b.pos, b.vel), Gravity, Friction, n);
      assert Terminal(Gravity, Friction) == 24.5;
    }
    assert r == 49.0 * (1.0 - w) by {
      ReachSum(Friction, n);
    }
    PowBounds(Friction, n);
  }

  // ---------------------------------------------------------------------
  // The hexagon of a frame

  /** Corner i of the unturned hexagon, at angle pi/6 + i * 2 pi / 6. */
  function BaseVertex(t: Trig, i: int): Vec {
    Polar(t, Center, HexRadius, t.pi / 6.0 + i as real * 2.0 * t.pi / 6.0)
  }

  /** `p` turned about `c` through angle `a`. */
  function RotatePoint(t: Trig, p: Vec, c: Vec, a: real): Vec {
    var d := Sub(p, c);
    Vec(c.x + (d.x * t.cos(a) - d.y * t.sin(a)), c.y + (d.x * t.sin(a) + d.y * t.cos(a)))
  }

  /** The polygon a frame uses: the base corners turned through the angular
      speed itself.  Nothing accumulates from frame to frame. */
  function FrameVertices(t: Trig, speed: real): (vs: seq<Vec>)
    ensures |vs| == 6
    ensures forall i :: 0 <= i < 6 ==> vs[i] == RotatePoint(t, BaseVertex(t, i), Center, speed)
  {
    seq(6, i => RotatePoint(t, BaseVertex(t, i), Center, speed))
  }

  lemma RotationAlgebra(dx: real, dy: real, c: real, s: real)
    requires c * c + s * s == 1.0
    ensures (dx * c - dy * s) * (dx * c - dy * s) + (dx * s + dy * c) * (dx * s + dy * c) == dx * dx + dy * dy
  {
    calc {
      (dx * c - dy * s) * (dx * c - dy * s) + (dx * s + dy * c) * (dx * s + dy * c);
      dx * dx * (c * c + s * s) + dy * dy * (c * c + s * s);
    }
  }

  /** Turning about a centre keeps the distance to it. */
  lemma RotatePointKeepsDistance(t: Trig, p: Vec, c: Vec, a: real)
    requires ValidTrig(t)
    ensures NormSq(Sub(RotatePoint(t, p, c, a), c)) == NormSq(Sub(p, c))
  {
    var d := Sub(p, c);
    var co, si := t.cos(a), t.sin(a);
    assert co * co + si * si == 1.0;
    assert Sub(RotatePoint(t, p, c, a), c) == Vec(d.x * co - d.y * si, d.x * si + d.y * co);
    RotationAlgebra(d.x, d.y, co, si);
  }

  /** Every corner of every frame's hexagon lies on the circle of radius
      `HexRadius` about the centre, whatever the speed. */
  lemma FrameVerticesOnCircle(t: Trig, speed: real)
    requires ValidTrig(t)
    ensures forall i :: 0 <= i < 6 ==> NormSq(Sub(FrameVertices(t, speed)[i], Center)) == HexRadius * HexRadius
  {
    forall i | 0 <= i < 6
      ensures NormSq(Sub(FrameVertices(t, speed)[i], Center)) == HexRadius * HexRadius
    {
      PolarDistance(t, Center, HexRadius, t.pi / 6.0 + i as real * 2.0 * t.pi / 6.0);
      RotatePointKeepsDistance(t, BaseVertex(t, i), Center, speed);
    }
  }

  // ---------------------------------------------------------------------
  // The speed slider

  /** The slider callback: a setting 0..100 mapped linearly onto the speeds. */
  function UpdateSpeed(value: real): real {
    MinAngularSpeed + (MaxAngularSpeed - MinAngularSpeed) * (value / 100.0)
  }

  /** The setting the slider is given at start-up for a speed. */
  function SliderSetting(speed: real): real {
    (speed - MinAngularSpeed) / (MaxAngularSpeed - MinAngularSpeed) * 100.0
  }

  /** The two maps are inverse to each other, the full slider range covers
      exactly the speeds from 0 to 0.05, larger settings give larger speeds,
      and the initial speed 0.02 sits at setting 40. */
  lemma SliderFacts(value: real, speed: real, v2: real)
    ensures SliderSetting(UpdateSpeed(value)) == value
    ensures UpdateSpeed(SliderSetting(speed)) == speed
    ensures 0.0 <= value <= 100.0 <==> MinAngularSpeed <= UpdateSpeed(value) <= MaxAngularSpeed
    ensures value <= v2 <==> UpdateSpeed(value) <= UpdateSpeed(v2)
    ensures SliderSetting(InitialAngularSpeed) == 40.0
  {
  }

  // ---------------------------------------------------------------------
  // Closest point of a side

  /** `max(0, min(1, t))`, in the order the program applies them. */
  function ClampT(t: real): (r: real)
    ensures r == Clamp01(t)
  {
    var m := if t < 1.0 then t else 1.0;
    if m > 0.0 then m else 0.0
  }

  /** The projection parameter: 0 for a side of zero length, else clamped. */
  function SideParam(p: Vec, a: Vec, b: Vec): real {
    var d := Sub(b, a);
    var lengthSq := NormSq(d);
    var t := if lengthSq == 0.0 then 0.0 else Dot(Sub(p, a), d) / lengthSq;
    ClampT(t)
  }

  function Closest(p: Vec, a: Vec, b: Vec): Vec {
    Add(a, Scale(SideParam(p, a, b), Sub(b, a)))
  }

  /** The point lies on the side; for a side of zero length it is the side's
      start; otherwise it is the nearest point of the side. */
  lemma ClosestFacts(p: Vec, a: Vec, b: Vec, s: real)
    requires 0.0 <= s <= 1.0
    ensures 0.0 <= SideParam(p, a, b) <= 1.0
    ensures OnSegment(Closest(p, a, b), a, b)
    ensures NormSq(Sub(b, a)) == 0.0 ==> Closest(p, a, b) == a
    ensures NormSq(Sub(b, a)) != 0.0 ==> Closest(p, a, b) == NearestOnSegment(p, a, b)
    ensures NormSq(Sub(b, a)) != 0.0 ==> NormSq(Sub(p, Closest(p, a, b))) <= NormSq(Sub(p, Lerp(a, b, s)))
  {
    LerpClampedOnSegment(a, b, SideParam(p, a, b));
    if NormSq(Sub(b, a)) != 0.0 {
      NearestIsNearest(p, a, b, s);
    } else {
      LerpEnds(a, b);
    }
  }

  // ---------------------------------------------------------------------
  // Normals

  function Signs(c: Coin): Vec {
    Vec(if c.0 then 1.0 else -1.0, if c.1 then 1.0 else -1.0)
  }

  /** Divide by the length when it is positive, as the program does. */
  function Normalize(sqrt: real -> real, v: Vec): Vec {
    var l := Length(sqrt, v);
    if l > 0.0 then DivBy(v, l) else v
  }

  /** A positive length makes the normalised vector a unit vector. */
  lemma NormalizeUnit(sqrt: real -> real, v: Vec)
    requires IsSqrt(sqrt)
    requires v != Vec(0.0, 0.0)
    ensures NormSq(Normalize(sqrt, v)) == 1.0
  {
    LengthFacts(sqrt, v);
    DivByLengthIsUnit(v, Length(sqrt, v));
  }

  /** The wall normal: from the closest point to the centre; if the centre is
      on the side, from the side's start; if it is on that too, random. */
  function WallNormal(sqrt: real -> real, coin: Coin, p: Vec, closest: Vec, start: Vec): Vec {
    var n0 := Sub(p, closest);
    if Length(sqrt, n0) > 0.0 then DivBy(n0, Length(sqrt, n0))
    else
      var n1 := Sub(p, start);
      if Length(sqrt, n1) > 0.0 then DivBy(n1, Length(sqrt, n1))
      else Normalize(sqrt, Signs(coin))
  }

  /** The ball normal: from the other centre to this one, or random. */
  function BallNormal(sqrt: real -> real, coin: Coin, s: Ball, o: Ball): Vec {
    var d := Sub(s.pos, o.pos);
    if Length(sqrt, d) > 0.0 then DivBy(d, Length(sqrt, d)) else Normalize(sqrt, Signs(coin))
  }

  /** Whichever branch is taken, the wall normal is a unit vector. */
  lemma WallNormalIsUnit(sqrt: real -> real, coin: Coin, p: Vec, closest: Vec, start: Vec)
    requires IsSqrt(sqrt)
    ensures NormSq(WallNormal(sqrt, coin, p, closest, start)) == 1.0
  {
    LengthFacts(sqrt, Sub(p, closest));
    LengthFacts(sqrt, Sub(p, start));
    if Length(sqrt, Sub(p, closest)) > 0.0 {
      NormalizeUnit(sqrt, Sub(p, closest));
    } else if Length(sqrt, Sub(p, start)) > 0.0 {
      NormalizeUnit(sqrt, Sub(p, start));
    } else {
      NormalizeUnit(sqrt, Signs(coin));
    }
  }

  /** Whichever branch is taken, the ball normal is a unit vector. */
  lemma BallNormalIsUnit(sqrt: real -> real, coin: Coin, s: Ball, o: Ball)
    requires IsSqrt(sqrt)
    ensures NormSq(BallNormal(sqrt, coin, s, o)) == 1.0
  {
    LengthFacts(sqrt, Sub(s.pos, o.pos));
    if Length(sqrt, Sub(s.pos, o.pos)) > 0.0 {
      NormalizeUnit(sqrt, Sub(s.pos, o.pos));
    } else {
      NormalizeUnit(sqrt, Signs(coin));
    }
  }
}
