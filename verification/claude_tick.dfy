/** One frame of the Claude hexagon program, in its fixed order: the hexagon
    takes the slider's speed and turns, every ball flies, every ball meets
    the six walls, and then every unordered pair of balls i < j meets once,
    row by row. */
module ClaudeTick {
  import opened Geometry
  import opened Results
  import opened ClaudeHexagon

  // ---------------------------------------------------------------------
  // The order in which pairs are visited

  /** Row `i` of the pair loop: (i, i+1), ..., (i, n-1). */
  function Row(n: nat, i: nat): (ps: seq<(nat, nat)>)
    ensures |ps| == if i < n then n - i - 1 else 0
    ensures forall k :: 0 <= k < |ps| ==> ps[k] == (i, i + 1 + k)
  {
    if i < n then seq(n - i - 1, k requires 0 <= k => (i, i + 1 + k)) else []
  }

  /** The first `rows` rows of the pair loop, in order. */
  function PairsUpTo(n: nat, rows: nat): seq<(nat, nat)>
    decreases rows
  {
    if rows == 0 then [] else PairsUpTo(n, rows - 1) + Row(n, rows - 1)
  }

  /** Every pair the double loop over `n` balls visits, in visiting order. */
  function Pairs(n: nat): seq<(nat, nat)> {
    PairsUpTo(n, n)
  }

  predicate LexLess(p: (nat, nat), q: (nat, nat)) {
    p.0 < q.0 || (p.0 == q.0 && p.1 < q.1)
  }

  /** Every pair among the first `rows` rows has i < j < n and i < rows. */
  lemma {:induction false} PairsUpToBound(n: nat, rows: nat)
    ensures forall k :: 0 <= k < |PairsUpTo(n, rows)| ==>
      PairsUpTo(n, rows)[k].0 < PairsUpTo(n, rows)[k].1 < n && PairsUpTo(n, rows)[k].0 < rows
    decreases rows
  {
    if rows > 0 {
      PairsUpToBound(n, rows - 1);
    }
  }

  /** The first `rows` rows hold exactly the pairs i < j < n with i < rows. */
  lemma {:induction false} PairsUpToMembers(n: nat, rows: nat)
    ensures forall i: nat, j: nat :: (i, j) in PairsUpTo(n, rows) <==> i < j < n && i < rows
    decreases rows
  {
    PairsUpToBound(n, rows);
    if rows > 0 {
      PairsUpToMembers(n, rows - 1);
      var row := Row(n, rows - 1);
      forall i: nat, j: nat | i < j < n && i == rows - 1
        ensures (i, j) in PairsUpTo(n, rows)
      {
        assert row[j - i - 1] == (i, j);
      }
    }
  }

  /** The pairs come in strictly increasing lexicographic order. */
  lemma {:induction false} PairsUpToSorted(n: nat, rows: nat)
    ensures forall a, b :: 0 <= a < b < |PairsUpTo(n, rows)| ==> LexLess(PairsUpTo(n, rows)[a], PairsUpTo(n, rows)[b])
    decreases rows
  {
    if rows > 0 {
      PairsUpToSorted(n, rows - 1);
      PairsUpToBound(n, rows - 1);
      var front := PairsUpTo(n, rows - 1);
      var ps := PairsUpTo(n, rows);
      forall a, b | 0 <= a < b < |ps|
        ensures LexLess(ps[a], ps[b])
      {
        if a < |front| {
          assert ps[a] == front[a];
        }
      }
    }
  }

  /** Every unordered pair is visited exactly once, as (i, j) with i < j. */
  lemma PairsExactlyOnce(n: nat)
    ensures forall i: nat, j: nat :: (i, j) in Pairs(n) <==> i < j < n
    ensures forall a, b :: 0 <= a < b < |Pairs(n)| ==> Pairs(n)[a] != Pairs(n)[b]
  {
    PairsUpToMembers(n, n);
    PairsUpToSorted(n, n);
  }

  // ---------------------------------------------------------------------
  // Applying the pairs

  predicate InRange(ps: seq<(nat, nat)>, n: nat) {
    forall k :: 0 <= k < |ps| ==> ps[k].0 < ps[k].1 < n
  }

  lemma PairsInRange(n: nat)
    ensures InRange(Pairs(n), n)
  {
    PairsUpToBound(n, n);
  }

  /** How two balls meet; the program's rule is `BallMeet(sqrt)`. */
  type Meet = (Ball, Ball) -> (Ball, Ball)

  function BallMeet(sqrt: real -> real): Meet {
    (b1: Ball, b2: Ball) => BallBall(sqrt, b1, b2)
  }

  /** Balls i and j meet; the rest of the list is untouched. */
  function ApplyPair(meet: Meet, bs: seq<Ball>, i: nat, j: nat): (r: seq<Ball>)
    requires i < j < |bs|
    ensures |r| == |bs|
    ensures (r[i], r[j]) == meet(bs[i], bs[j])
    ensures forall k :: 0 <= k < |bs| && k != i && k != j ==> r[k] == bs[k]
  {
    var p := meet(bs[i], bs[j]);
    bs[i := p.0][j := p.1]
  }

  /** The pairs applied one after the other, in list order. */
  function ResolveAll(meet: Meet, bs: seq<Ball>, ps: seq<(nat, nat)>): (r: seq<Ball>)
    requires InRange(ps, |bs|)
    ensures |r| == |bs|
    decreases |ps|
  {
    if |ps| == 0 then bs
    else
      var prev := ResolveAll(meet, bs, ps[..|ps| - 1]);
      ApplyPair(meet, prev, ps[|ps| - 1].0, ps[|ps| - 1].1)
  }

  /** Appending one pair meets that pair last. */
  lemma ResolveAllSnoc(meet: Meet, bs: seq<Ball>, ps: seq<(nat, nat)>, i: nat, j: nat)
    requires InRange(ps, |bs|) && i < j < |bs|
    ensures InRange(ps + [(i, j)], |bs|)
    ensures ResolveAll(meet, bs, ps + [(i, j)]) == ApplyPair(meet, ResolveAll(meet, bs, ps), i, j)
  {
    assert (ps + [(i, j)])[..|ps|] == ps;
  }

  /** Applying `ps` and then `qs` is applying `ps + qs`. */
  lemma {:induction false} ResolveAllAppend(meet: Meet, bs: seq<Ball>, ps: seq<(nat, nat)>, qs: seq<(nat, nat)>)
    requires InRange(ps, |bs|) && InRange(qs, |bs|)
    ensures InRange(ps + qs, |bs|)
    ensures ResolveAll(meet, bs, ps + qs) == ResolveAll(meet, ResolveAll(meet, bs, ps), qs)
    decreases |qs|
  {
    if |qs| > 0 {
      var front := qs[..|qs| - 1];
      ResolveAllAppend(meet, bs, ps, front);
      assert (ps + qs)[..|ps + qs| - 1] == ps + front;
    } else {
      assert ps + qs == ps;
    }
  }

  /** One row of the inner loop: ball i meets i+1, ..., n-1 in turn. */
  method MeetRow(meet: Meet, bs: seq<Ball>, i: nat) returns (r: seq<Ball>)
    requires i < |bs|
    ensures InRange(Row(|bs|, i), |bs|)
    ensures r == ResolveAll(meet, bs, Row(|bs|, i))
  {
    var n := |bs|;
    ghost var row := Row(n, i);
    r := bs;
    var j: nat := i + 1;
    while j < n
      invariant i + 1 <= j <= n
      invariant InRange(row[..j - i - 1], n)
      invariant r == ResolveAll(meet, bs, row[..j - i - 1])
    {
      assert row[..j - i] == row[..j - i - 1] + [(i, j)];
      ResolveAllSnoc(meet, bs, row[..j - i - 1], i, j);
      r := ApplyPair(meet, r, i, j);
      j := j + 1;
    }
    assert row[..j - i - 1] == row;
  }

  /** The pair phase as the program runs it: for each i, ball i meets every
      later ball in turn, each meeting acting on the balls in place. */
  method ResolvePairs(meet: Meet, bs: seq<Ball>) returns (r: seq<Ball>)
    ensures |r| == |bs|
    ensures InRange(Pairs(|bs|), |bs|)
    ensures r == ResolveAll(meet, bs, Pairs(|bs|))
  {
    var n := |bs|;
    PairsInRange(n);
    r := bs;
    var i: nat := 0;
    while i < n
      invariant 0 <= i <= n
      invariant InRange(PairsUpTo(n, i), n)
      invariant r == ResolveAll(meet, bs, PairsUpTo(n, i))
    {
      r := MeetRow(meet, r, i);
      ResolveAllAppend(meet, bs, PairsUpTo(n, i), Row(n, i));
      i := i + 1;
    }
  }

  // ---------------------------------------------------------------------
  // Totals kept by the pair phase

  function Momentum(b: Ball): Vec { Scale(b.Mass(), b.vel) }

  function Position(b: Ball): Vec { b.pos }

  /** A meeting that keeps the sum of `f` over its two balls keeps the
      total over the whole list. */
  lemma TotalApplyPair(meet: Meet, bs: seq<Ball>, i: nat, j: nat, f: Ball -> Vec)
    requires i < j < |bs|
    requires Add(f(meet(bs[i], bs[j]).0), f(meet(bs[i], bs[j]).1)) == Add(f(bs[i]), f(bs[j]))
    ensures Total(ApplyPair(meet, bs, i, j), f) == Total(bs, f)
  {
    var p := meet(bs[i], bs[j]);
    TotalUpdatePair(bs, i, j, p.0, p.1, f);
  }

  /** A meeting rule that keeps both radii, the sum of the centres and the
      sum of the momenta. */
  ghost predicate Conserving(meet: Meet) {
    forall b1, b2 ::
      && meet(b1, b2).0.radius == b1.radius
      && meet(b1, b2).1.radius == b2.radius
      && Add(meet(b1, b2).0.pos, meet(b1, b2).1.pos) == Add(b1.pos, b2.pos)
      && Add(Momentum(meet(b1, b2).0), Momentum(meet(b1, b2).1)) == Add(Momentum(b1), Momentum(b2))
  }

  /** Every collision keeps the momentum of the pair, whichever branch it
      takes. */
  lemma BallBallKeepsMomentum(sqrt: real -> real, b1: Ball, b2: Ball)
    ensures
      var p := BallBall(sqrt, b1, b2);
      Add(Momentum(p.0), Momentum(p.1)) == Add(Momentum(b1), Momentum(b2))
  {
    var d := Sub(b2.pos, b1.pos);
    var distance := Length(sqrt, d);
    if distance < b1.radius + b2.radius && distance > 0.0 {
      var n := DivBy(d, distance);
      var dvn := Dot(Sub(b2.vel, b1.vel), n);
      if dvn <= 0.0 {
        MomentumExchange(b1.Mass(), b2.Mass(), dvn, b1.vel, b2.vel, n);
      }
    }
  }

  /** The program's ball-ball rule is conserving, for any square root. */
  lemma BallMeetConserving(sqrt: real -> real)
    ensures Conserving(BallMeet(sqrt))
  {
    forall b1, b2
      ensures
        && BallMeet(sqrt)(b1, b2).0.radius == b1.radius
        && BallMeet(sqrt)(b1, b2).1.radius == b2.radius
        && Add(BallMeet(sqrt)(b1, b2).0.pos, BallMeet(sqrt)(b1, b2).1.pos) == Add(b1.pos, b2.pos)
        && Add(Momentum(BallMeet(sqrt)(b1, b2).0), Momentum(BallMeet(sqrt)(b1, b2).1))
             == Add(Momentum(b1), Momentum(b2))
    {
      BallBallKeepsCentreSum(sqrt, b1, b2);
      BallBallKeepsMomentum(sqrt, b1, b2);
    }
  }

  /** A conserving rule applied over any list of pairs keeps the number of
      balls, every radius, the sum of the centres and the total momentum. */
  lemma {:induction false} ResolveAllConserves(meet: Meet, bs: seq<Ball>, ps: seq<(nat, nat)>)
    requires Conserving(meet)
    requires InRange(ps, |bs|)
    ensures forall k :: 0 <= k < |bs| ==> ResolveAll(meet, bs, ps)[k].radius == bs[k].radius
    ensures Total(ResolveAll(meet, bs, ps), Position) == Total(bs, Position)
    ensures Total(ResolveAll(meet, bs, ps), Momentum) == Total(bs, Momentum)
    decreases |ps|
  {
    if |ps| > 0 {
      var front := ps[..|ps| - 1];
      assert InRange(front, |bs|);
      ResolveAllConserves(meet, bs, front);
      var prev := ResolveAll(meet, bs, front);
      var (i, j) := ps[|ps| - 1];
      TotalApplyPair(meet, prev, i, j, Position);
      TotalApplyPair(meet, prev, i, j, Momentum);
    }
  }

  // ---------------------------------------------------------------------
  // The frame

  datatype World = World(hex: Hexagon, balls: seq<Ball>)

  /** The wall phase: each ball in turn against all six sides. */
  function WallPhase(sqrt: real -> real, bs: seq<Ball>, es: seq<Edge>): (r: Result<seq<Ball>>)
    ensures r.Ok? ==> |r.value| == |bs|
    ensures r.Ok? ==> forall k :: 0 <= k < |bs| ==> WallCollide(sqrt, bs[k], es) == Ok(r.value[k])
    decreases |bs|
  {
    if |bs| == 0 then Ok([])
    else
      match WallCollide(sqrt, bs[0], es)
      case Err(msg) => Err(msg)
      case Ok(b) =>
        match WallPhase(sqrt, bs[1..], es)
        case Err(msg) => Err(msg)
        case Ok(rest) => Ok([b] + rest)
  }

  /** Every ball flies one frame under gravity and friction. */
  function Fly(bs: seq<Ball>): (r: seq<Ball>)
    ensures |r| == |bs|
    ensures forall k :: 0 <= k < |bs| ==> r[k] == Update(bs[k])
  {
    seq(|bs|, k requires 0 <= k < |bs| => Update(bs[k]))
  }

  /** One frame with the slider at `slider`. */
  function Tick(t: Trig, sqrt: real -> real, w: World, slider: real): (r: Result<World>)
    ensures r.Ok? ==> r.value.hex == w.hex.(rotationSpeed := slider, angle := w.hex.angle + slider)
    ensures r.Ok? ==> |r.value.balls| == |w.balls|
  {
    var h := Spin(w.hex.(rotationSpeed := slider));
    match WallPhase(sqrt, Fly(w.balls), Edges(t, h))
    case Err(msg) => Err(msg)
    case Ok(walled) =>
      PairsInRange(|walled|);
      Ok(World(h, ResolveAll(BallMeet(sqrt), walled, Pairs(|walled|))))
  }

  /** What a frame does to the balls.  It fails exactly when there is a
      ball and the turned hexagon has a zero-length side.  Otherwise every
      ball keeps its radius; the wall phase leaves each moved ball no
      faster than its flight made it; and the pair phase keeps the total
      momentum and the sum of the centres of the walled balls. */
  lemma TickFacts(t: Trig, sqrt: real -> real, w: World, slider: real)
    requires IsSqrt(sqrt)
    ensures
      var es := Edges(t, Spin(w.hex.(rotationSpeed := slider)));
      Tick(t, sqrt, w, slider).Err? <==>
        |w.balls| > 0 && exists i :: 0 <= i < 6 && es[i].start == es[i].end
    ensures
      var es := Edges(t, Spin(w.hex.(rotationSpeed := slider)));
      var r := Tick(t, sqrt, w, slider);
      var walled := WallPhase(sqrt, Fly(w.balls), es);
      r.Ok? ==>
        && walled.Ok? && |walled.value| == |w.balls|
        && (forall k :: 0 <= k < |w.balls| ==>
              && r.value.balls[k].radius == w.balls[k].radius
              && walled.value[k].radius == w.balls[k].radius
              && NormSq(walled.value[k].vel) <= NormSq(Update(w.balls[k]).vel))
        && Total(r.value.balls, Momentum) == Total(walled.value, Momentum)
        && Total(r.value.balls, Position) == Total(walled.value, Position)
  {
    var es := Edges(t, Spin(w.hex.(rotationSpeed := slider)));
    var flown := Fly(w.balls);
    WallPhaseFails(sqrt, flown, es);
    var walled := WallPhase(sqrt, flown, es);
    if walled.Ok? {
      forall k | 0 <= k < |w.balls|
        ensures walled.value[k].radius == w.balls[k].radius
        ensures NormSq(walled.value[k].vel) <= NormSq(Update(w.balls[k]).vel)
      {
        WallCollideFacts(sqrt, flown[k], es);
      }
      BallMeetConserving(sqrt);
      PairsInRange(|walled.value|);
      ResolveAllConserves(BallMeet(sqrt), walled.value, Pairs(|walled.value|));
    }
  }

  /** The wall phase fails only because of a zero-length side, and then only
      when there is a ball to test against it. */
  lemma {:induction false} WallPhaseFails(sqrt: real -> real, bs: seq<Ball>, es: seq<Edge>)
    requires IsSqrt(sqrt)
    ensures WallPhase(sqrt, bs, es).Err? <==>
              |bs| > 0 && exists i :: 0 <= i < |es| && es[i].start == es[i].end
    decreases |bs|
  {
    if |bs| > 0 {
      WallCollideFacts(sqrt, bs[0], es);
      WallPhaseFails(sqrt, bs[1..], es);
    }
  }

  /** The frames the slider settings drive, one after the other. */
  function Run(t: Trig, sqrt: real -> real, w: World, sliders: seq<real>): Result<World>
    decreases |sliders|
  {
    if |sliders| == 0 then Ok(w)
    else
      match Tick(t, sqrt, w, sliders[0])
      case Err(msg) => Err(msg)
      case Ok(w1) => Run(t, sqrt, w1, sliders[1..])
  }

  function Sum(xs: seq<real>): real
    decreases |xs|
  {
    if |xs| == 0 then 0.0 else xs[0] + Sum(xs[1..])
  }

  /** The angle accumulates: after the frames it has grown by the sum of
      the speeds the slider gave, and the speed is the last one given. */
  lemma {:induction false} RunAngle(t: Trig, sqrt: real -> real, w: World, sliders: seq<real>)
    requires Run(t, sqrt, w, sliders).Ok?
    ensures Run(t, sqrt, w, sliders).value.hex.angle == w.hex.angle + Sum(sliders)
    ensures |sliders| > 0 ==> Run(t, sqrt, w, sliders).value.hex.rotationSpeed == sliders[|sliders| - 1]
    ensures |Run(t, sqrt, w, sliders).value.balls| == |w.balls|
    decreases |sliders|
  {
    if |sliders| > 0 {
      var w1 := Tick(t, sqrt, w, sliders[0]).value;
      RunAngle(t, sqrt, w1, sliders[1..]);
      if |sliders| > 1 {
        assert sliders[1..][|sliders[1..]| - 1] == sliders[|sliders| - 1];
      }
    }
  }

  /** With the slider held still for N frames the angle grows by N times its
      value. */
  lemma {:induction false} SumConstant(n: nat, s: real)
    ensures Sum(seq(n, _ => s)) == n as real * s
    decreases n
  {
    if n > 0 {
      assert seq(n, _ => s)[1..] == seq(n - 1, _ => s);
      SumConstant(n - 1, s);
    }
  }

  /** With the slider held at `s` for `n` frames the hexagon turns by
      n · s and ends turning at speed `s`. */
  lemma SteadySlider(t: Trig, sqrt: real -> real, w: World, n: nat, s: real)
    requires Run(t, sqrt, w, seq(n, _ => s)).Ok?
    ensures Run(t, sqrt, w, seq(n, _ => s)).value.hex.angle == w.hex.angle + n as real * s
    ensures n > 0 ==> Run(t, sqrt, w, seq(n, _ => s)).value.hex.rotationSpeed == s
  {
    RunAngle(t, sqrt, w, seq(n, _ => s));
    SumConstant(n, s);
  }
}
