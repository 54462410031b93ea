/** The collision checks and the frame of the Gemini hexagon program.  Balls
    are identified by their index in the list; the random fallback normals
    are supplied as coins. */
module GeminiFrame {
  import opened Geometry
  import opened Results
  import opened Search
  import opened GeminiHexagon

  // ---------------------------------------------------------------------
  // Ball against the walls

  /** The centre is nearer than one radius to the closest point of side a-b. */
  predicate TouchesSide(sqrt: real -> real, b: Ball, a: Vec, c: Vec) {
    Length(sqrt, Sub(b.pos, Closest(b.pos, a, c))) < BallRadius
  }

  /** Side i of the polygon `vs`: from corner i to corner (i + 1) mod n. */
  predicate TouchesSideAt(sqrt: real -> real, b: Ball, vs: seq<Vec>, i: nat)
    requires i < |vs|
  {
    TouchesSide(sqrt, b, vs[i], vs[(i + 1) % |vs|])
  }

  /** Reflect, damp by the bounce factor, then move out along the normal by
      the overlap BallRadius - dist. */
  function ResolveWall(sqrt: real -> real, coin: Coin, b: Ball, a: Vec, c: Vec): Ball {
    var closest := Closest(b.pos, a, c);
    var dist := Length(sqrt, Sub(b.pos, closest));
    var n := WallNormal(sqrt, coin, b.pos, closest, a);
    Ball(Add(b.pos, Scale(BallRadius - dist, n)), Scale(BounceFactor, Reflect(b.vel, n)))
  }

  /** The sides touched, as a property of side indices. */
  function Touched(sqrt: real -> real, b: Ball, vs: seq<Vec>): nat -> bool {
    (i: nat) => i < |vs| && TouchesSideAt(sqrt, b, vs, i)
  }

  /** The wall loop: the first side touched, in corner order, is resolved
      and ends the loop with True; if none is touched the result is False. */
  function CheckWallCollisions(sqrt: real -> real, coin: Coin, b: Ball, vs: seq<Vec>): (bool, Ball) {
    match FirstFrom(Touched(sqrt, b, vs), 0, |vs|)
    case None => (false, b)
    case Some(k) => (true, ResolveWall(sqrt, coin, b, vs[k], vs[(k + 1) % |vs|]))
  }

  /** True exactly when some side is touched, the first side in corner
      order being the one resolved; False leaves the ball as it was. */
  lemma CheckWallCollisionsFirstHit(sqrt: real -> real, coin: Coin, b: Ball, vs: seq<Vec>)
    ensures CheckWallCollisions(sqrt, coin, b, vs).0 <==> exists k: nat :: k < |vs| && TouchesSideAt(sqrt, b, vs, k)
    ensures !CheckWallCollisions(sqrt, coin, b, vs).0 ==> CheckWallCollisions(sqrt, coin, b, vs).1 == b
    ensures CheckWallCollisions(sqrt, coin, b, vs).0 ==>
      exists k: nat :: k < |vs| && TouchesSideAt(sqrt, b, vs, k)
        && (forall m: nat :: m < k ==> !TouchesSideAt(sqrt, b, vs, m))
        && CheckWallCollisions(sqrt, coin, b, vs).1 == ResolveWall(sqrt, coin, b, vs[k], vs[(k + 1) % |vs|])
  {
    var p := Touched(sqrt, b, vs);
    FirstFromSpec(p, 0, |vs|);
    match FirstFrom(p, 0, |vs|)
    case None =>
      forall k: nat | k < |vs|
        ensures !TouchesSideAt(sqrt, b, vs, k)
      {
        assert !p(k);
      }
    case Some(k) =>
      assert p(k);
      forall m: nat | m < k
        ensures !TouchesSideAt(sqrt, b, vs, m)
      {
        assert !p(m);
      }
  }

  /** Moving the tip of `d` along the unit vector `n` by r - |d|, where `n`
      is the direction of `d` unless `d` is zero, leaves it at length r. */
  lemma PushedToDistance(sqrt: real -> real, d: Vec, n: Vec, r: real)
    requires IsSqrt(sqrt)
    requires NormSq(n) == 1.0 && 0.0 <= r
    requires Length(sqrt, d) > 0.0 ==> n == DivBy(d, Length(sqrt, d))
    ensures Length(sqrt, Add(d, Scale(r - Length(sqrt, d), n))) == r
  {
    var len := Length(sqrt, d);
    var q := Add(d, Scale(r - len, n));
    assert NormSq(q) == r * r by {
      LengthFacts(sqrt, d);
      if len > 0.0 {
        PushedAlong(d, len, r);
      } else {
        PushedFromZero(d, len, n, r);
      }
    }
    LengthUnique(sqrt, q, r);
  }

  lemma PushedAlong(d: Vec, len: real, r: real)
    requires len != 0.0 && len * len == NormSq(d)
    ensures NormSq(Add(d, Scale(r - len, DivBy(d, len)))) == r * r
  {
    StretchAlong(d, len, r - len);
    SquareOfSum(len, r);
  }

  lemma PushedFromZero(d: Vec, len: real, n: Vec, r: real)
    requires d == Vec(0.0, 0.0) && len == 0.0 && NormSq(n) == 1.0
    ensures NormSq(Add(d, Scale(r - len, n))) == r * r
  {
    assert Add(d, Scale(r - len, n)) == Scale(r, n);
    ScaledUnit(r, n);
  }

  /** `r` times a unit vector has length `r`. */
  lemma ScaledUnit(r: real, n: Vec)
    requires NormSq(n) == 1.0
    ensures NormSq(Scale(r, n)) == r * r
  {
    NormSqScale(r, n);
    MulOne(r * r, NormSq(n));
  }

  lemma MulOne(a: real, b: real)
    requires b == 1.0
    ensures a * b == a
  {
  }

  lemma SquareOfSum(len: real, r: real)
    ensures (len + (r - len)) * (len + (r - len)) == r * r
  {
    assert len + (r - len) == r;
  }

  /** A resolved side: the velocity's normal component changes sign and its
      tangential one keeps it, both damped by 0.8, so the speed becomes 0.8
      times the old one. */
  lemma ResolveWallVelocity(sqrt: real -> real, coin: Coin, b: Ball, a: Vec, c: Vec)
    requires IsSqrt(sqrt)
    ensures
      var n := WallNormal(sqrt, coin, b.pos, Closest(b.pos, a, c), a);
      var r := ResolveWall(sqrt, coin, b, a, c);
      && NormSq(n) == 1.0
      && Dot(r.vel, n) == -BounceFactor * Dot(b.vel, n)
      && Dot(r.vel, Perp(n)) == BounceFactor * Dot(b.vel, Perp(n))
      && NormSq(r.vel) == BounceFactor * BounceFactor * NormSq(b.vel)
  {
    var n := WallNormal(sqrt, coin, b.pos, Closest(b.pos, a, c), a);
    WallNormalIsUnit(sqrt, coin, b.pos, Closest(b.pos, a, c), a);
    ReflectNegatesNormalComponent(b.vel, n);
    DotScale(BounceFactor, Reflect(b.vel, n), n);
    ReflectKeepsTangent(b.vel, n);
    DotScale(BounceFactor, Reflect(b.vel, n), Perp(n));
    DampedReflectSpeed(b.vel, n, BounceFactor);
  }

  /** A resolved side leaves the centre exactly one radius from the closest
      point, whichever normal was chosen. */
  lemma ResolveWallPosition(sqrt: real -> real, coin: Coin, b: Ball, a: Vec, c: Vec)
    requires IsSqrt(sqrt)
    ensures Length(sqrt, Sub(ResolveWall(sqrt, coin, b, a, c).pos, Closest(b.pos, a, c))) == BallRadius
  {
    var closest := Closest(b.pos, a, c);
    var d := Sub(b.pos, closest);
    var n := WallNormal(sqrt, coin, b.pos, closest, a);
    WallNormalIsUnit(sqrt, coin, b.pos, closest, a);
    assert Sub(ResolveWall(sqrt, coin, b, a, c).pos, closest) == Add(d, Scale(BallRadius - Length(sqrt, d), n));
    PushedToDistance(sqrt, d, n, BallRadius);
  }

  // ---------------------------------------------------------------------
  // Ball against ball

  /** Ball `s` and ball `o` overlap and approach each other along the normal. */
  predicate Reacts(sqrt: real -> real, coin: Coin, s: Ball, o: Ball) {
    Length(sqrt, Sub(s.pos, o.pos)) < 2.0 * BallRadius
    && Dot(Sub(s.vel, o.vel), BallNormal(sqrt, coin, s, o)) < 0.0
  }

  /** How much of the impulse each ball of a pair receives.  The program
      adds the whole impulse to one ball and takes the whole of it from the
      other; for two balls of equal mass each should receive half. */
  datatype Share = Whole | Half

  /** The impulse along the normal for relative normal velocity `dot`:
      -(1 + 0.8) dot, or half of it. */
  function Impulse(share: Share, dot: real): real {
    match share
    case Whole => -(1.0 + BounceFactor) * dot
    case Half => -(1.0 + BounceFactor) * dot / 2.0
  }

  /** The reaction: the impulse added to `s` and taken from `o`, then each
      moved half the overlap. */
  function React(sqrt: real -> real, share: Share, coin: Coin, s: Ball, o: Ball): (Ball, Ball) {
    var p := Push(sqrt, coin, s, o);
    var v := Kick(sqrt, share, coin, s, o);
    (Ball(p.0, v.0), Ball(p.1, v.1))
  }

  /** The new centres: each moved half the overlap along the normal. */
  function Push(sqrt: real -> real, coin: Coin, s: Ball, o: Ball): (Vec, Vec) {
    var n := BallNormal(sqrt, coin, s, o);
    var half := (2.0 * BallRadius - Length(sqrt, Sub(s.pos, o.pos))) / 2.0;
    (Add(s.pos, Scale(half, n)), Sub(o.pos, Scale(half, n)))
  }

  /** The new velocities: the impulse added to one and taken from the other. */
  function Kick(sqrt: real -> real, share: Share, coin: Coin, s: Ball, o: Ball): (Vec, Vec) {
    var n := BallNormal(sqrt, coin, s, o);
    var k := Impulse(share, Dot(Sub(s.vel, o.vel), n));
    (Add(s.vel, Scale(k, n)), Sub(o.vel, Scale(k, n)))
  }

  /** A reaction keeps the sum of the two velocities and of the two centres,
      whatever the share. */
  lemma ReactConserves(sqrt: real -> real, share: Share, coin: Coin, s: Ball, o: Ball)
    ensures Add(React(sqrt, share, coin, s, o).0.vel, React(sqrt, share, coin, s, o).1.vel) == Add(s.vel, o.vel)
    ensures Add(React(sqrt, share, coin, s, o).0.pos, React(sqrt, share, coin, s, o).1.pos) == Add(s.pos, o.pos)
  {
  }

  /** The relative normal velocity is reversed and scaled: by 2.6 when each
      ball receives the whole impulse, by the bounce factor 0.8 when each
      receives half. */
  lemma ReactRelativeVelocity(sqrt: real -> real, share: Share, coin: Coin, s: Ball, o: Ball)
    requires IsSqrt(sqrt)
    ensures
      var n := BallNormal(sqrt, coin, s, o);
      var r := React(sqrt, share, coin, s, o);
      var dot := Dot(Sub(s.vel, o.vel), n);
      Dot(Sub(r.0.vel, r.1.vel), n) == if share == Whole then -2.6 * dot else -BounceFactor * dot
  {
    var n := BallNormal(sqrt, coin, s, o);
    BallNormalIsUnit(sqrt, coin, s, o);
    var dot := Dot(Sub(s.vel, o.vel), n);
    var k := Impulse(share, dot);
    var r := React(sqrt, share, coin, s, o);
    assert r.0.vel == Add(s.vel, Scale(k, n)) && r.1.vel == Sub(o.vel, Scale(k, n));
    OpposedImpulses(s.vel, o.vel, k, n);
    DotAddScale(Sub(s.vel, o.vel), n, 2.0 * k);
  }

  /** Adding k n to one velocity and taking it from the other changes the
      sum of their squared lengths by 2 k (dot + k), dot being the relative
      velocity along the unit vector n. */
  lemma PairEnergy(a: Vec, b: Vec, n: Vec, k: real)
    requires NormSq(n) == 1.0
    ensures NormSq(Add(a, Scale(k, n))) + NormSq(Sub(b, Scale(k, n)))
         == NormSq(a) + NormSq(b) + Gain(k, Dot(Sub(a, b), n))
  {
    NormSqAddScale(a, n, k);
    NormSqSubScale(b, n, k);
    DotSub(a, b, n);
    Combine(NormSq(Add(a, Scale(k, n))), NormSq(Sub(b, Scale(k, n))), NormSq(a), NormSq(b),
            Dot(a, n), Dot(b, n), Dot(Sub(a, b), n), k);
  }

  /** What a pair's summed squared speeds gain from impulse k at relative
      normal velocity dot. */
  function Gain(k: real, dot: real): real { 2.0 * k * (dot + k) }

  lemma Combine(x1: real, y1: real, x: real, y: real, p: real, q: real, d: real, k: real)
    requires x1 == x + 2.0 * k * p + k * k
    requires y1 == y - 2.0 * k * q + k * k
    requires d == p - q
    ensures x1 + y1 == x + y + Gain(k, d)
  {
  }

  lemma DotSub(a: Vec, b: Vec, n: Vec)
    ensures Dot(Sub(a, b), n) == Dot(a, n) - Dot(b, n)
  {
  }

  lemma NormSqSubScale(v: Vec, n: Vec, k: real)
    requires NormSq(n) == 1.0
    ensures NormSq(Sub(v, Scale(k, n))) == NormSq(v) - 2.0 * k * Dot(v, n) + k * k
  {
    assert NormSq(Sub(v, Scale(k, n))) == NormSq(v) - 2.0 * k * Dot(v, n) + k * k * NormSq(n);
  }

  lemma NormSqAddScale(v: Vec, n: Vec, k: real)
    requires NormSq(n) == 1.0
    ensures NormSq(Add(v, Scale(k, n))) == NormSq(v) + 2.0 * k * Dot(v, n) + k * k
  {
    assert NormSq(Add(v, Scale(k, n))) == NormSq(v) + 2.0 * k * Dot(v, n) + k * k * NormSq(n);
  }

  /** As written, every reaction of an approaching pair raises the sum of
      their squared speeds: the whole impulse to each ball adds energy
      where the bounce factor should take some away. */
  lemma WholeShareGainsEnergy(sqrt: real -> real, coin: Coin, s: Ball, o: Ball)
    requires IsSqrt(sqrt)
    requires Reacts(sqrt, coin, s, o)
    ensures
      var r := React(sqrt, Whole, coin, s, o);
      NormSq(s.vel) + NormSq(o.vel) < NormSq(r.0.vel) + NormSq(r.1.vel)
  {
    var n := BallNormal(sqrt, coin, s, o);
    BallNormalIsUnit(sqrt, coin, s, o);
    var dot := Dot(Sub(s.vel, o.vel), n);
    var k := Impulse(Whole, dot);
    var r := React(sqrt, Whole, coin, s, o);
    assert r.0.vel == Add(s.vel, Scale(k, n)) && r.1.vel == Sub(o.vel, Scale(k, n));
    PairEnergy(s.vel, o.vel, n, k);
    EnergyGain(dot, k);
  }

  /** An impulse that more than cancels the approach (k > -dot > 0) gains. */
  lemma EnergyGain(dot: real, k: real)
    requires 0.0 < k && 0.0 < dot + k
    ensures 0.0 < Gain(k, dot)
  {
    PositiveProduct(2.0 * k, dot + k);
  }

  /** With half the impulse to each ball, a reaction never raises the sum
      of the squared speeds. */
  lemma HalfShareLosesEnergy(sqrt: real -> real, coin: Coin, s: Ball, o: Ball)
    requires IsSqrt(sqrt)
    ensures
      var r := React(sqrt, Half, coin, s, o);
      NormSq(r.0.vel) + NormSq(r.1.vel) <= NormSq(s.vel) + NormSq(o.vel)
  {
    var n := BallNormal(sqrt, coin, s, o);
    BallNormalIsUnit(sqrt, coin, s, o);
    var dot := Dot(Sub(s.vel, o.vel), n);
    var k := Impulse(Half, dot);
    var r := React(sqrt, Half, coin, s, o);
    assert r.0.vel == Add(s.vel, Scale(k, n)) && r.1.vel == Sub(o.vel, Scale(k, n));
    PairEnergy(s.vel, o.vel, n, k);
    EnergyLoss(dot, k);
  }

  /** 2 k (dot + k) with k = -0.9 dot is -0.18 dot squared. */
  lemma EnergyLoss(dot: real, k: real)
    requires k == -0.9 * dot
    ensures Gain(k, dot) <= 0.0
  {
    assert Gain(k, dot) == -0.18 * (dot * dot);
    ProductNonNeg(dot, dot);
  }

  /** Adding an impulse to one velocity and taking it from the other adds
      it twice to their difference. */
  lemma OpposedImpulses(a: Vec, b: Vec, k: real, n: Vec)
    ensures Sub(Add(a, Scale(k, n)), Sub(b, Scale(k, n))) == Add(Sub(a, b), Scale(2.0 * k, n))
  {
  }

  lemma DotAddScale(v: Vec, n: Vec, k: real)
    requires NormSq(n) == 1.0
    ensures Dot(Add(v, Scale(k, n)), n) == Dot(v, n) + k
  {
    assert Dot(Add(v, Scale(k, n)), n) == Dot(v, n) + k * NormSq(n);
  }

  /** After a reaction the centres are exactly two radii apart, also when
      they had coincided. */
  lemma ReactSeparates(sqrt: real -> real, share: Share, coin: Coin, s: Ball, o: Ball)
    requires IsSqrt(sqrt)
    ensures Length(sqrt, Sub(React(sqrt, share, coin, s, o).0.pos, React(sqrt, share, coin, s, o).1.pos)) == 2.0 * BallRadius
  {
    PushSeparates(sqrt, coin, s, o);
  }

  lemma PushSeparates(sqrt: real -> real, coin: Coin, s: Ball, o: Ball)
    requires IsSqrt(sqrt)
    ensures Length(sqrt, Sub(Push(sqrt, coin, s, o).0, Push(sqrt, coin, s, o).1)) == 2.0 * BallRadius
  {
    var d := Sub(s.pos, o.pos);
    var n := BallNormal(sqrt, coin, s, o);
    var len := Length(sqrt, d);
    var half := (2.0 * BallRadius - len) / 2.0;
    BallNormalIsUnit(sqrt, coin, s, o);
    SpreadApart(s.pos, o.pos, half, n);
    assert 2.0 * half == 2.0 * BallRadius - len;
    PushedToDistance(sqrt, d, n, 2.0 * BallRadius);
  }

  /** Moving two points apart by `h` each along `n` moves their difference
      by 2 h along `n`. */
  lemma SpreadApart(a: Vec, b: Vec, h: real, n: Vec)
    ensures Sub(Add(a, Scale(h, n)), Sub(b, Scale(h, n))) == Add(Sub(a, b), Scale(2.0 * h, n))
  {
  }

  /** The partners ball `k` reacts with, as a property of indices; `coins`
      gives the random signs used for partner j. */
  function Partner(sqrt: real -> real, coins: nat -> Coin, bs: seq<Ball>, k: nat): nat -> bool
    requires k < |bs|
  {
    (j: nat) => j < |bs| && j != k && Reacts(sqrt, coins(j), bs[k], bs[j])
  }

  /** The ball loop for ball `k`: itself skipped, the first other ball in
      list order that reacts is met and ends the loop with True. */
  function CheckBallCollisions(sqrt: real -> real, share: Share, coins: nat -> Coin, bs: seq<Ball>, k: nat): (r: (bool, seq<Ball>))
    requires k < |bs|
    ensures |r.1| == |bs|
  {
    match FirstFrom(Partner(sqrt, coins, bs, k), 0, |bs|)
    case None => (false, bs)
    case Some(j) =>
      var p := React(sqrt, share, coins(j), bs[k], bs[j]);
      (true, bs[k := p.0][j := p.1])
  }

  /** True exactly when some other ball, before or after k in the list,
      reacts; only the first in list order is met; False changes nothing. */
  lemma CheckBallCollisionsFirstPartner(sqrt: real -> real, share: Share, coins: nat -> Coin, bs: seq<Ball>, k: nat)
    requires k < |bs|
    ensures CheckBallCollisions(sqrt, share, coins, bs, k).0 <==>
      exists j: nat :: j < |bs| && j != k && Reacts(sqrt, coins(j), bs[k], bs[j])
    ensures !CheckBallCollisions(sqrt, share, coins, bs, k).0 ==> CheckBallCollisions(sqrt, share, coins, bs, k).1 == bs
    ensures CheckBallCollisions(sqrt, share, coins, bs, k).0 ==>
      exists j: nat :: j < |bs| && j != k && Reacts(sqrt, coins(j), bs[k], bs[j])
        && (forall m: nat :: m < j && m != k ==> !Reacts(sqrt, coins(m), bs[k], bs[m]))
        && CheckBallCollisions(sqrt, share, coins, bs, k).1
             == bs[k := React(sqrt, share, coins(j), bs[k], bs[j]).0][j := React(sqrt, share, coins(j), bs[k], bs[j]).1]
  {
    var p := Partner(sqrt, coins, bs, k);
    FirstFromSpec(p, 0, |bs|);
    match FirstFrom(p, 0, |bs|)
    case None =>
      forall j: nat | j < |bs| && j != k
        ensures !Reacts(sqrt, coins(j), bs[k], bs[j])
      {
        assert !p(j);
      }
    case Some(j) =>
      assert p(j);
      forall m: nat | m < j && m != k
        ensures !Reacts(sqrt, coins(m), bs[k], bs[m])
      {
        assert !p(m);
      }
  }

  function Velocity(b: Ball): Vec { b.vel }

  function Position(b: Ball): Vec { b.pos }

  /** The ball check keeps the number of balls and the sums of all
      velocities and of all centres. */
  lemma CheckBallCollisionsConserves(sqrt: real -> real, share: Share, coins: nat -> Coin, bs: seq<Ball>, k: nat)
    requires k < |bs|
    ensures |CheckBallCollisions(sqrt, share, coins, bs, k).1| == |bs|
    ensures Total(CheckBallCollisions(sqrt, share, coins, bs, k).1, Velocity) == Total(bs, Velocity)
    ensures Total(CheckBallCollisions(sqrt, share, coins, bs, k).1, Position) == Total(bs, Position)
  {
    CheckBallCollisionsFirstPartner(sqrt, share, coins, bs, k);
    if CheckBallCollisions(sqrt, share, coins, bs, k).0 {
      var j: nat :| j < |bs| && j != k && Reacts(sqrt, coins(j), bs[k], bs[j])
        && (forall m: nat :: m < j && m != k ==> !Reacts(sqrt, coins(m), bs[k], bs[m]))
        && CheckBallCollisions(sqrt, share, coins, bs, k).1
             == bs[k := React(sqrt, share, coins(j), bs[k], bs[j]).0][j := React(sqrt, share, coins(j), bs[k], bs[j]).1];
      var p := React(sqrt, share, coins(j), bs[k], bs[j]);
      ReactConserves(sqrt, share, coins(j), bs[k], bs[j]);
      TotalUpdatePair(bs, k, j, p.0, p.1, Velocity);
      TotalUpdatePair(bs, k, j, p.0, p.1, Position);
    }
  }

  // ---------------------------------------------------------------------
  // The frame

  /** Random signs for the whole frame: the wall check of ball k draws
      `wall(k)`, its ball check draws `ball(k)(j)` for partner j. */
  datatype FrameCoins = FrameCoins(wall: nat -> Coin, ball: nat -> nat -> Coin)

  /** Ball k's turn: move it, check it against the walls, then against every
      other ball, before the next ball moves. */
  function BallTurn(sqrt: real -> real, share: Share, coins: FrameCoins, vs: seq<Vec>, bs: seq<Ball>, k: nat): (r: seq<Ball>)
    requires k < |bs|
    ensures |r| == |bs|
  {
    var walled := CheckWallCollisions(sqrt, coins.wall(k), Update(bs[k]), vs).1;
    CheckBallCollisions(sqrt, share, coins.ball(k), bs[k := walled], k).1
  }

  /** The turns of balls k, k+1, ... in list order. */
  function TurnsFrom(sqrt: real -> real, share: Share, coins: FrameCoins, vs: seq<Vec>, bs: seq<Ball>, k: nat): (r: seq<Ball>)
    ensures |r| == |bs|
    decreases |bs| - k
  {
    if k >= |bs| then bs else TurnsFrom(sqrt, share, coins, vs, BallTurn(sqrt, share, coins, vs, bs, k), k + 1)
  }

  /** The program's state between frames: the balls and the angular speed.
      There is no hexagon angle. */
  datatype World = World(balls: seq<Ball>, speed: real)

  /** One frame: the hexagon for the current speed, then each ball's turn.
      The program's reaction is `Whole`; every fact below holds for either
      share. */
  function Animate(t: Trig, sqrt: real -> real, share: Share, coins: FrameCoins, w: World): (r: World)
    ensures |r.balls| == |w.balls|
    ensures r.speed == w.speed
  {
    World(TurnsFrom(sqrt, share, coins, FrameVertices(t, w.speed), w.balls, 0), w.speed)
  }

  /** A ball's turn changes the ball itself and at most one other ball. */
  lemma BallTurnTouchesTwo(sqrt: real -> real, share: Share, coins: FrameCoins, vs: seq<Vec>, bs: seq<Ball>, k: nat)
    requires k < |bs|
    ensures forall m1, m2 :: 0 <= m1 < |bs| && 0 <= m2 < |bs| && m1 != k && m2 != k && m1 != m2 ==>
      BallTurn(sqrt, share, coins, vs, bs, k)[m1] == bs[m1] || BallTurn(sqrt, share, coins, vs, bs, k)[m2] == bs[m2]
  {
    var walled := CheckWallCollisions(sqrt, coins.wall(k), Update(bs[k]), vs).1;
    var bs1 := bs[k := walled];
    var r := BallTurn(sqrt, share, coins, vs, bs, k);
    CheckBallCollisionsFirstPartner(sqrt, share, coins.ball(k), bs1, k);
    if CheckBallCollisions(sqrt, share, coins.ball(k), bs1, k).0 {
      var j: nat :| j < |bs1| && j != k && Reacts(sqrt, coins.ball(k)(j), bs1[k], bs1[j])
        && (forall m: nat :: m < j && m != k ==> !Reacts(sqrt, coins.ball(k)(m), bs1[k], bs1[m]))
        && CheckBallCollisions(sqrt, share, coins.ball(k), bs1, k).1
             == bs1[k := React(sqrt, share, coins.ball(k)(j), bs1[k], bs1[j]).0][j := React(sqrt, share, coins.ball(k)(j), bs1[k], bs1[j]).1];
      assert forall m :: 0 <= m < |bs| && m != k && m != j ==> r[m] == bs[m];
    } else {
      assert forall m :: 0 <= m < |bs| && m != k ==> r[m] == bs[m];
    }
  }

  /** Frames with no slider movement in between, one per entry of `coins`
      (the random signs each frame draws), in order: the speed, and
      therefore the polygon every frame uses, never changes, so the drawn
      hexagon is turned through the same fixed angle every frame. */
  function Frames(t: Trig, sqrt: real -> real, share: Share, coins: seq<FrameCoins>, w: World): World
    decreases |coins|
  {
    if coins == [] then w else Frames(t, sqrt, share, coins[1..], Animate(t, sqrt, share, coins[0], w))
  }

  lemma {:induction false} FramesKeepSpeed(t: Trig, sqrt: real -> real, share: Share, coins: seq<FrameCoins>, w: World)
    ensures Frames(t, sqrt, share, coins, w).speed == w.speed
    ensures |Frames(t, sqrt, share, coins, w).balls| == |w.balls|
    decreases |coins|
  {
    if coins != [] {
      FramesKeepSpeed(t, sqrt, share, coins[1..], Animate(t, sqrt, share, coins[0], w));
    }
  }

  lemma FramesKeepPolygon(t: Trig, sqrt: real -> real, share: Share, coins: seq<FrameCoins>, w: World)
    ensures FrameVertices(t, Frames(t, sqrt, share, coins, w).speed) == FrameVertices(t, w.speed)
  {
    FramesKeepSpeed(t, sqrt, share, coins, w);
  }

  /** Moving the slider sets the speed, and with it the polygon, directly:
      the balls stay, the slider reads back the setting it was moved to, and
      a setting on the scale gives a speed between 0 and 0.05. */
  function SetSlider(w: World, value: real): (r: World)
    ensures r.balls == w.balls
    ensures SliderSetting(r.speed) == value
    ensures 0.0 <= value <= 100.0 <==> MinAngularSpeed <= r.speed <= MaxAngularSpeed
  {
    SliderFacts(value, 0.0, 0.0);
    w.(speed := UpdateSpeed(value))
  }
}
