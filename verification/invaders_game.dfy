/** The space-invaders game state and one turn of the main loop: key
    presses (fire, restart), then, unless the game is over, the player's
    move, both bullet streams, the march, an invader's shot and the
    collision pass. */
module InvadersGame {
  import opened Results
  import opened Search
  import opened PyLists
  import opened SpaceInvaders

  /** The program's module-level variables that change during play. */
  datatype Game = Game(
    playerX: int, invaders: seq<Invader>, bullets: seq<Bullet>, invaderBullets: seq<Bullet>,
    speedX: int, gameOver: bool, score: int)

  /** The keys the loop reacts to; any other key does nothing. */
  datatype Key = Space | RestartKey | OtherKey

  /** What the outside world supplies for a frame: the key presses, the
      arrow keys held, and the two random draws of the invaders' shot. */
  datatype Input = Input(keys: seq<Key>, left: bool, right: bool, roll: real, pick: nat)

  function Start(): (g: Game)
    ensures g.score == 0 && !g.gameOver && g.bullets == [] && g.invaderBullets == []
    ensures g.playerX == 375 && |g.invaders| == 40
  {
    Game(PlayerStartX, CreateInvaders(), [], [], InvaderStartSpeedX, false, 0)
  }

  /** One key press.  Space fires unless the game is over; R restarts a
      finished game and keeps the invaders' current direction. */
  function Press(g: Game, key: Key): (r: Game)
    ensures key == Space && !g.gameOver ==> r == g.(bullets := g.bullets + [PlayerBullet(g.playerX)])
    ensures key == RestartKey && g.gameOver ==>
      r == Start().(speedX := g.speedX)
    ensures (key == OtherKey || (key == Space && g.gameOver) || (key == RestartKey && !g.gameOver)) ==> r == g
  {
    match key
    case Space => if g.gameOver then g else g.(bullets := g.bullets + [PlayerBullet(g.playerX)])
    case RestartKey =>
      if g.gameOver then
        g.(gameOver := false, score := 0, bullets := [], invaderBullets := [],
           invaders := CreateInvaders(), playerX := PlayerStartX)
      else g
    case OtherKey => g
  }

  /** The key presses of a frame, in order. */
  function Presses(g: Game, keys: seq<Key>): Game
    decreases |keys|
  {
    if keys == [] then g else Presses(Press(g, keys[0]), keys[1..])
  }

  /** The arrow keys: left first, then right, each only while the ship's
      left edge is inside the allowed range. */
  function Steer(x: int, left: bool, right: bool): (r: int)
    ensures r - x in {-8, 0, 8}
  {
    var x1 := if left && x > 0 then x - PlayerSpeed else x;
    if right && x1 < ScreenWidth - PlayerWidth then x1 + PlayerSpeed else x1
  }

  /** The play of a frame that is not over, in the program's order; `box`
      is the rect a bullet is tested with (`Spawned` as written). */
  function Play(collide: Collide, box: HitBox, g: Game, input: Input): Game {
    var x := Steer(g.playerX, input.left, input.right);
    var bs := MoveBullets(g.bullets);
    var ibs := MoveInvaderBullets(g.invaderBullets);
    var march := MoveInvaders(g.invaders, g.speedX);
    var ibs' := InvaderShoot(march.0, ibs, input.roll, input.pick);
    var o := CheckCollisions(collide, box, x, march.0, bs, ibs', g.score, false);
    Game(x, o.invaders, o.bullets, o.invaderBullets, march.1, o.gameOver, o.score)
  }

  /** One turn of the main loop: the key presses, then play unless over. */
  function Frame(collide: Collide, box: HitBox, g: Game, input: Input): Game {
    var g1 := Presses(g, input.keys);
    if g1.gameOver then g1 else Play(collide, box, g1, input)
  }

  // ---------------------------------------------------------------------
  // Properties

  /** The ship's left edge stays within [-7, 757]: it moves left only from
      a positive column and right only from a column below 750. */
  lemma SteerBounds(x: int, left: bool, right: bool)
    requires -7 <= x <= 757
    ensures -7 <= Steer(x, left, right) <= 757
  {
  }

  /** From the start column 375, in steps of 8, the ship only ever sits at
      columns 7 mod 8 between -1 and 751. */
  lemma SteerReach(x: int, left: bool, right: bool)
    requires -1 <= x <= 751 && x % 8 == 7
    ensures -1 <= Steer(x, left, right) <= 751 && Steer(x, left, right) % 8 == 7
  {
  }

  /** What the play keeps: the ship's range, a score that is a non-negative
      multiple of ten, an invader speed of 3 either way, a grid of distinct
      invaders whose rects are in step with them and on the grid's rows,
      player bullets whose rects lie in the ship's row, and invader bullets
      whose rects lie where they were fired. */
  predicate Valid(g: Game) {
    && -7 <= g.playerX <= 757
    && g.score >= 0 && g.score % 10 == 0
    && (g.speedX == InvaderStartSpeedX || g.speedX == -InvaderStartSpeedX)
    && AllSynced(g.invaders)
    && Distinct(g.invaders)
    && ShipShots(g.bullets)
    && RowAligned(g.invaders)
    && InvaderShots(g.invaderBullets)
  }

  lemma StartValid()
    ensures Valid(Start())
  {
    GridFacts();
  }

  lemma PressValid(g: Game, key: Key)
    requires Valid(g)
    ensures Valid(Press(g, key))
  {
    GridFacts();
  }

  lemma {:induction false} PressesValid(g: Game, keys: seq<Key>)
    requires Valid(g)
    ensures Valid(Presses(g, keys))
    decreases |keys|
  {
    if keys != [] {
      PressValid(g, keys[0]);
      PressesValid(Press(g, keys[0]), keys[1..]);
    }
  }

  lemma SyncedSub(invs: seq<Invader>, sub: seq<Invader>)
    requires AllSynced(invs)
    requires forall v :: v in sub ==> v in invs
    ensures AllSynced(sub)
  {
    forall k | 0 <= k < |sub| ensures Synced(sub[k]) {
      assert sub[k] in invs;
    }
  }

  lemma ShipShotsSub(bs: seq<Bullet>, sub: seq<Bullet>)
    requires ShipShots(bs)
    requires forall v :: v in sub ==> v in bs
    ensures ShipShots(sub)
  {
    forall k | 0 <= k < |sub| ensures InShipRow(sub[k].rect) {
      assert sub[k] in bs;
    }
  }

  lemma RowAlignedSub(invs: seq<Invader>, sub: seq<Invader>)
    requires RowAligned(invs)
    requires forall v :: v in sub ==> v in invs
    ensures RowAligned(sub)
  {
    forall k | 0 <= k < |sub| ensures sub[k].rect.y % 20 == 10 {
      assert sub[k] in invs;
    }
  }

  lemma InvaderShotsSub(ibs: seq<Bullet>, sub: seq<Bullet>)
    requires InvaderShots(ibs)
    requires forall v :: v in sub ==> v in ibs
    ensures InvaderShots(sub)
  {
    forall k | 0 <= k < |sub| ensures InvaderShotRect(sub[k].rect) {
      assert sub[k] in ibs;
    }
  }

  lemma AddTens(score: int, n: nat, total: int)
    requires score % 10 == 0 && total == score + 10 * n
    ensures total >= score && total % 10 == 0
  {
  }

  /** The score of a frame that is played rises by ten per scoring bullet. */
  lemma PlayScore(collide: Collide, box: HitBox, g: Game, input: Input)
    requires g.score >= 0 && g.score % 10 == 0
    ensures Play(collide, box, g, input).score >= g.score
    ensures Play(collide, box, g, input).score % 10 == 0
  {
    var x := Steer(g.playerX, input.left, input.right);
    var bs := MoveBullets(g.bullets);
    var ibs := MoveInvaderBullets(g.invaderBullets);
    var invs := MoveInvaders(g.invaders, g.speedX).0;
    var ibs' := InvaderShoot(invs, ibs, input.roll, input.pick);
    var o := CheckCollisions(collide, box, x, invs, bs, ibs', g.score, false);
    assert Play(collide, box, g, input).score == o.score;
    AddTens(g.score, |Filter(bs, Scores(collide, box, invs))|, o.score);
  }

  /** A played frame keeps the grid free of repeats and its rects in step. */
  lemma PlayGrid(collide: Collide, box: HitBox, g: Game, input: Input)
    requires AllSynced(g.invaders) && Distinct(g.invaders)
    ensures AllSynced(Play(collide, box, g, input).invaders)
    ensures Distinct(Play(collide, box, g, input).invaders)
  {
    var x := Steer(g.playerX, input.left, input.right);
    var bs := MoveBullets(g.bullets);
    var ibs := MoveInvaderBullets(g.invaderBullets);
    var invs := MoveInvaders(g.invaders, g.speedX).0;
    MarchKeepsFormation(g.invaders, g.speedX);
    var ibs' := InvaderShoot(invs, ibs, input.roll, input.pick);
    var o := CheckCollisions(collide, box, x, invs, bs, ibs', g.score, false);
    CollisionsInvaders(collide, box, x, invs, bs, ibs', g.score, false);
    SyncedSub(invs, o.invaders);
  }

  /** A played frame keeps the player's bullets in the ship's row. */
  lemma PlayShots(collide: Collide, box: HitBox, g: Game, input: Input)
    requires ShipShots(g.bullets)
    ensures ShipShots(Play(collide, box, g, input).bullets)
  {
    var x := Steer(g.playerX, input.left, input.right);
    var bs := MoveBullets(g.bullets);
    var ibs := MoveInvaderBullets(g.invaderBullets);
    var invs := MoveInvaders(g.invaders, g.speedX).0;
    var ibs' := InvaderShoot(invs, ibs, input.roll, input.pick);
    var o := CheckCollisions(collide, box, x, invs, bs, ibs', g.score, false);
    MoveBulletsKeepShipRow(g.bullets);
    ShipShotsSub(bs, o.bullets);
  }

  /** A played frame keeps the grid on its rows and every invader bullet's
      rect where it was fired. */
  lemma PlayInvaderShots(collide: Collide, box: HitBox, g: Game, input: Input)
    requires AllSynced(g.invaders) && RowAligned(g.invaders) && InvaderShots(g.invaderBullets)
    ensures RowAligned(Play(collide, box, g, input).invaders)
    ensures InvaderShots(Play(collide, box, g, input).invaderBullets)
  {
    var x := Steer(g.playerX, input.left, input.right);
    var bs := MoveBullets(g.bullets);
    var ibs := MoveInvaderBullets(g.invaderBullets);
    var invs := MoveInvaders(g.invaders, g.speedX).0;
    MarchKeepsFormation(g.invaders, g.speedX);
    MarchKeepsRows(g.invaders, g.speedX);
    MoveInvaderBulletsKeepRects(g.invaderBullets);
    var ibs' := InvaderShoot(invs, ibs, input.roll, input.pick);
    var o := CheckCollisions(collide, box, x, invs, bs, ibs', g.score, false);
    RowAlignedSub(invs, o.invaders);
    InvaderShotsSub(ibs', o.invaderBullets);
  }

  lemma PlayValid(collide: Collide, box: HitBox, g: Game, input: Input)
    requires Valid(g)
    ensures Valid(Play(collide, box, g, input))
  {
    PlayInvaderShots(collide, box, g, input);
    PlayShots(collide, box, g, input);
    SteerBounds(g.playerX, input.left, input.right);
    MarchSpeed(g.invaders, g.speedX);
    PlayScore(collide, box, g, input);
    PlayGrid(collide, box, g, input);
  }

  /** Every frame keeps the game valid. */
  lemma FrameValid(collide: Collide, box: HitBox, g: Game, input: Input)
    requires Valid(g)
    ensures Valid(Frame(collide, box, g, input))
  {
    PressesValid(g, input.keys);
    var g1 := Presses(g, input.keys);
    if !g1.gameOver {
      PlayValid(collide, box, g1, input);
    }
  }

  /** A frame's key presses leave the score alone or, by restarting, set it
      to zero; without R it is left alone. */
  lemma {:induction false} PressesScore(g: Game, keys: seq<Key>)
    ensures Presses(g, keys).score == g.score || Presses(g, keys).score == 0
    ensures RestartKey !in keys ==> Presses(g, keys).score == g.score
    decreases |keys|
  {
    if keys != [] {
      PressesScore(Press(g, keys[0]), keys[1..]);
      assert keys == [keys[0]] + keys[1..];
    }
  }

  /** Within a frame the score either carries over or restarts at zero, and
      then rises by ten for each player bullet that meets an invader. */
  lemma FrameScore(collide: Collide, box: HitBox, g: Game, input: Input)
    ensures exists n: nat :: Frame(collide, box, g, input).score == Presses(g, input.keys).score + 10 * n
    ensures Presses(g, input.keys).score == g.score || Presses(g, input.keys).score == 0
    ensures RestartKey !in input.keys ==> Frame(collide, box, g, input).score >= g.score
  {
    PressesScore(g, input.keys);
    var g1 := Presses(g, input.keys);
    if g1.gameOver {
      assert Frame(collide, box, g, input).score == g1.score + 10 * 0;
    }
  }

  /** A finished game stands still: without R nothing at all changes. */
  lemma {:induction false} PressesOverStill(g: Game, keys: seq<Key>)
    requires g.gameOver && RestartKey !in keys
    ensures Presses(g, keys) == g
    decreases |keys|
  {
    if keys != [] {
      assert RestartKey !in keys[1..] by {
        assert forall k :: k in keys[1..] ==> k in keys;
      }
      PressesOverStill(g, keys[1..]);
    }
  }

  lemma GameOverFreezes(collide: Collide, box: HitBox, g: Game, input: Input)
    requires g.gameOver && RestartKey !in input.keys
    ensures Frame(collide, box, g, input) == g
  {
    PressesOverStill(g, input.keys);
  }

  /** Once over, a frame ends the game again exactly when a bullet strikes
      the player or an invader reaches the player's row; the restart the
      R key makes is the only way back. */
  lemma FrameOver(collide: Collide, box: HitBox, g: Game, input: Input)
    ensures g.gameOver && !Frame(collide, box, g, input).gameOver ==> RestartKey in input.keys
  {
    if g.gameOver && RestartKey !in input.keys {
      GameOverFreezes(collide, box, g, input);
    }
  }

  /** As written (bullets tested with their spawn rects, `colliderect` as
      `Overlap`), a played frame raises the score only when the march has
      brought some invader down into the player's row. */
  lemma SpawnedPlayScores(g: Game, input: Input)
    requires ShipShots(g.bullets)
    ensures Play(Overlap, Spawned, g, input).score > g.score
      ==> Landed(MoveInvaders(g.invaders, g.speedX).0)
  {
    var x := Steer(g.playerX, input.left, input.right);
    var bs := MoveBullets(g.bullets);
    var ibs := MoveInvaderBullets(g.invaderBullets);
    var invs := MoveInvaders(g.invaders, g.speedX).0;
    var ibs' := InvaderShoot(invs, ibs, input.roll, input.pick);
    MoveBulletsKeepShipRow(g.bullets);
    SpawnedScoringNeedsLanding(x, invs, bs, ibs', g.score, false);
  }

  // ---------------------------------------------------------------------
  // Many frames

  /** The main loop over a sequence of frames. */
  function Run(collide: Collide, box: HitBox, g: Game, inputs: seq<Input>): Game
    decreases |inputs|
  {
    if inputs == [] then g else Run(collide, box, Frame(collide, box, g, inputs[0]), inputs[1..])
  }

  /** Any number of frames keeps the game valid. */
  lemma {:induction false} RunValid(collide: Collide, box: HitBox, g: Game, inputs: seq<Input>)
    requires Valid(g)
    ensures Valid(Run(collide, box, g, inputs))
    decreases |inputs|
  {
    if inputs != [] {
      FrameValid(collide, box, g, inputs[0]);
      RunValid(collide, box, Frame(collide, box, g, inputs[0]), inputs[1..]);
    }
  }

  /** The first frame of a non-empty stretch runs first. */
  lemma RunStep(collide: Collide, box: HitBox, g: Game, inputs: seq<Input>)
    requires inputs != []
    ensures Run(collide, box, g, inputs) == Run(collide, box, Frame(collide, box, g, inputs[0]), inputs[1..])
  {
  }

  /** Running two stretches of frames is running one after the other. */
  lemma {:induction false} RunSplit(collide: Collide, box: HitBox, g: Game, a: seq<Input>, b: seq<Input>)
    ensures Run(collide, box, g, a + b) == Run(collide, box, Run(collide, box, g, a), b)
    decreases |a|
  {
    if a == [] {
      assert a + b == b;
    } else {
      assert (a + b)[0] == a[0] && (a + b)[1..] == a[1..] + b;
      RunSplit(collide, box, Frame(collide, box, g, a[0]), a[1..], b);
    }
  }

  /** A run that opens with frame `a` is that frame, then the rest. */
  lemma RunFirst(collide: Collide, box: HitBox, g: Game, a: Input, g1: Game, rest: seq<Input>, g2: Game)
    requires Frame(collide, box, g, a) == g1
    requires Run(collide, box, g1, rest) == g2
    ensures Run(collide, box, g, [a] + rest) == g2
  {
    assert ([a] + rest)[0] == a && ([a] + rest)[1..] == rest;
  }

  /** A run that opens with frame `a` and closes with frame `z`. */
  lemma RunAround(collide: Collide, box: HitBox, g: Game, a: Input, g1: Game, mid: seq<Input>, g2: Game, z: Input, g3: Game)
    requires Frame(collide, box, g, a) == g1
    requires Run(collide, box, g1, mid) == g2
    requires Frame(collide, box, g2, z) == g3
    ensures Run(collide, box, g, [a] + mid + [z]) == g3
  {
    RunSplit(collide, box, g, [a] + mid, [z]);
    RunFirst(collide, box, g, a, g1, mid, g2);
    RunStep(collide, box, g2, [z]);
    assert [z][1..] == [];
  }

  // ---------------------------------------------------------------------
  // One shot from the start column

  /** A frame in which Space is pressed, the ship holds still and no
      invader fires. */
  const Fire: Input := Input([Space], false, false, 1.0, 0)

  /** A frame without keys in which the ship holds still and no invader
      fires. */
  const Quiet: Input := Input([], false, false, 1.0, 0)

  function Quiets(n: nat): (r: seq<Input>)
    ensures |r| == n && forall i :: 0 <= i < n ==> r[i] == Quiet
  {
    seq(n, _ => Quiet)
  }

  lemma QuietsSnoc(n: nat)
    requires n > 0
    ensures Quiets(n) == Quiets(n - 1) + [Quiet]
  {
  }

  lemma ConsSnoc<T>(a: T, mid: seq<T>, z: T, tail: seq<T>)
    requires tail == mid + [z]
    ensures [a] + tail == [a] + mid + [z]
  {
  }

  /** Space, then `n` quiet frames, split before the last quiet frame. */
  lemma FireThenQuiets(collide: Collide, box: HitBox, g: Game, g1: Game, n: nat, g2: Game, g3: Game)
    requires n > 0
    requires Frame(collide, box, g, Fire) == g1
    requires Run(collide, box, g1, Quiets(n - 1)) == g2
    requires Frame(collide, box, g2, Quiet) == g3
    ensures Run(collide, box, g, [Fire] + Quiets(n)) == g3
  {
    QuietsSnoc(n);
    ConsSnoc(Fire, Quiets(n - 1), Quiet, Quiets(n));
    RunAround(collide, box, g, Fire, g1, Quiets(n - 1), g2, Quiet, g3);
  }

  /** A lone player bullet that stays on screen just climbs. */
  lemma MoveOne(b: Bullet)
    requires b.y >= BulletSpeed
    ensures MoveBullets([b]) == [b.(y := b.y - BulletSpeed)]
  {
    var m := [b][0 := b.(y := b.y - BulletSpeed)];
    assert MoveFrom(m, 1, -BulletSpeed, AboveTop) == m;
  }

  /** The fresh grid moved `d` columns to the right. */
  function Marched(d: int): (r: seq<Invader>)
    ensures |r| == 40
    ensures forall k :: 0 <= k < 40 ==> r[k] == Shift(CreateInvaders()[k], d)
  {
    seq(40, k requires 0 <= k < 40 => Shift(CreateInvaders()[k], d))
  }

  /** The player's bullet fired from the start column, `k` frames on. */
  function Shot(k: nat): (r: Bullet)
    ensures r.x == 397 && r.y == 540 - 10 * k && r.rect == Rect(397, 540, 6, 20)
  {
    PlayerBullet(PlayerStartX).(y := PlayerY - BulletSpeed * k)
  }

  /** The game `k` frames after a shot fired from the start: the grid has
      marched 3 k columns and the bullet has climbed 10 k rows. */
  function Volley(k: nat): Game {
    Game(PlayerStartX, Marched(InvaderStartSpeedX * k), [Shot(k)], [], InvaderStartSpeedX, false, 0)
  }

  /** In frame `k` the bullet, tested with `box`, meets no invader. */
  predicate Clear(box: HitBox, k: nat) {
    forall j :: 0 <= j < 40 ==> !Overlap(Marched(InvaderStartSpeedX * k)[j].rect, box(Shot(k)))
  }

  /** The marched grid stays clear of both edges and of the ship's row, so
      the next step neither turns nor lands. */
  lemma MarchedFacts(d: int)
    requires 0 <= d <= 300
    ensures Marched(0) == CreateInvaders()
    ensures MoveInvaders(Marched(d), InvaderStartSpeedX) == (Marched(d + InvaderStartSpeedX), InvaderStartSpeedX)
    ensures !Landed(Marched(d))
  {
    var g := CreateInvaders();
    var m := Marched(d);
    assert forall k :: 0 <= k < 40 ==> Shift(g[k], 0) == g[k];
    forall k | 0 <= k < 40 ensures !AtEdge(Shift(m[k], InvaderStartSpeedX)) {
      assert k % 8 <= 7;
    }
    assert !Turns(m, InvaderStartSpeedX);
    var r := MoveInvaders(m, InvaderStartSpeedX).0;
    forall k | 0 <= k < 40 ensures r[k] == Marched(d + InvaderStartSpeedX)[k] {
      assert r[k] == Shift(m[k], InvaderStartSpeedX);
    }
    assert r == Marched(d + InvaderStartSpeedX);
    forall k | 0 <= k < 40 ensures m[k].rect.Bottom() < PlayerY {
      assert k / 8 <= 4;
    }
  }

  /** A frame without keys, moves or shots, while no invader bullet is in
      flight, is the march, the climb and the collision pass. */
  lemma QuietFrame(collide: Collide, box: HitBox, g: Game)
    requires !g.gameOver && g.invaderBullets == []
    ensures var march := MoveInvaders(g.invaders, g.speedX);
      var o := CheckCollisions(collide, box, g.playerX, march.0, MoveBullets(g.bullets), [], g.score, false);
      Frame(collide, box, g, Quiet) == Game(g.playerX, o.invaders, o.bullets, o.invaderBullets, march.1, o.gameOver, o.score)
  {
    assert MoveInvaderBullets([]) == [];
  }

  /** A collision pass in which no bullet meets an invader, no invader
      bullet flies and no invader has landed changes nothing. */
  lemma CalmCollisions(collide: Collide, box: HitBox, x: int, invs: seq<Invader>, b: Bullet, score: int)
    requires Target(collide, box, invs, b).None?
    requires !Landed(invs)
    ensures CheckCollisions(collide, box, x, invs, [b], [], score, false) == Outcome(invs, [b], [], score, false)
  {
    assert Filter([b], Scores(collide, box, invs)) == [];
    assert Hit(collide, box, invs, [b]) == [];
  }

  /** A collision pass in which the one bullet meets invader `t` of a grid
      without repeats removes both and scores 10. */
  lemma OneHit(collide: Collide, box: HitBox, x: int, invs: seq<Invader>, b: Bullet, t: nat)
    requires Distinct(invs)
    requires Target(collide, box, invs, b) == Some(t)
    requires !Landed(invs[..t] + invs[t + 1..])
    ensures CheckCollisions(collide, box, x, invs, [b], [], 0, false)
         == Outcome(invs[..t] + invs[t + 1..], [], [], 10, false)
  {
    assert Scores(collide, box, invs)(b);
    assert Filter([b], Scores(collide, box, invs)) == [b];
    assert Hit(collide, box, invs, [b]) == [invs[t]];
    assert invs[t] !in invs[..t];
    RemoveAt(invs, t);
    assert RemoveEach(invs, [invs[t]]) == invs[..t] + invs[t + 1..];
    assert Remove([b], b) == [];
    assert RemoveEach([b], [b]) == [];
    assert FirstFrom(Strikes(collide, box, PlayerRect(x), []), 0, 0) == None;
  }

  /** A quiet frame of a game in that shape, whose bullet stays on screen
      and meets nothing, is the next such game. */
  lemma VolleyStep(box: HitBox, k: nat)
    requires k < 54
    requires Clear(box, k + 1)
    ensures Frame(Overlap, box, Volley(k), Quiet) == Volley(k + 1)
  {
    var g := Volley(k);
    var b := Shot(k + 1);
    MoveOne(Shot(k));
    assert MoveBullets(g.bullets) == [b];
    MarchedFacts(InvaderStartSpeedX * k);
    var invs := Marched(InvaderStartSpeedX * (k + 1));
    assert MoveInvaders(g.invaders, g.speedX) == (invs, InvaderStartSpeedX);
    MarchedFacts(InvaderStartSpeedX * (k + 1));
    assert Target(Overlap, box, invs, b).None? by {
      TargetSpec(Overlap, box, invs, b);
    }
    CalmCollisions(Overlap, box, PlayerStartX, invs, b, 0);
    QuietFrame(Overlap, box, g);
  }

  /** The first frame fires the shot and plays on. */
  lemma FireStep(box: HitBox)
    requires Clear(box, 1)
    ensures Frame(Overlap, box, Start(), Fire) == Volley(1)
  {
    FirePress();
    VolleyStep(box, 0);
    SameFrame(Overlap, box, Start(), Fire, Volley(0), Quiet, Volley(1));
  }

  /** Space at the start puts the shot on the ship's row. */
  lemma FirePress()
    ensures Presses(Start(), Fire.keys) == Volley(0)
  {
    MarchedFacts(0);
    assert Presses(Press(Start(), Space), []) == Press(Start(), Space);
  }

  /** A turn whose key presses lead to a game `g0` that is not over plays
      on exactly as a turn from `g0` with no keys and the same moves and
      draws. */
  lemma SameFrame(collide: Collide, box: HitBox, g: Game, a: Input, g0: Game, b: Input, g1: Game)
    requires Presses(g, a.keys) == g0 && !g0.gameOver
    requires b.keys == [] && a.(keys := []) == b
    requires Frame(collide, box, g0, b) == g1
    ensures Frame(collide, box, g, a) == g1
  {
    PlayIgnoresKeys(collide, box, g0, a, b);
  }

  /** The play of a frame does not look at the keys pressed. */
  lemma PlayIgnoresKeys(collide: Collide, box: HitBox, g: Game, a: Input, b: Input)
    requires a.(keys := []) == b.(keys := [])
    ensures Play(collide, box, g, a) == Play(collide, box, g, b)
  {
  }

  /** Quiet frames carry the game along, from frame `k` to frame `m`,
      while the bullet meets nothing. */
  lemma {:induction false} VolleyRun(box: HitBox, k: nat, m: nat)
    requires k <= m <= 54
    requires forall i :: k < i <= m ==> Clear(box, i)
    ensures Run(Overlap, box, Volley(k), Quiets(m - k)) == Volley(m)
    decreases m - k
  {
    var q := Quiets(m - k);
    if k == m {
      assert q == [];
    } else {
      assert q[0] == Quiet && q[1..] == Quiets(m - (k + 1));
      RunStep(Overlap, box, Volley(k), q);
      VolleyStep(box, k);
      VolleyRun(box, k + 1, m);
    }
  }

  /** While the bullet is below the grid's bottom row (at row 240 or
      lower), it meets nothing. */
  lemma BelowGrid(box: HitBox, k: nat)
    requires box(Shot(k)).y >= 240
    ensures Clear(box, k)
  {
    var m := Marched(InvaderStartSpeedX * k);
    forall j | 0 <= j < 40 ensures m[j].rect.Bottom() <= 240 {
      assert j / 8 <= 4;
    }
  }

  /** As written, the shot fired from the start column climbs through the
      grid: 48 frames on it is drawn across the invader of row 0 and column
      4, now at (394, 50), yet it is still in play and the score is 0. */
  lemma SpawnedPassesThrough()
    ensures Run(Overlap, Spawned, Start(), [Fire] + Quiets(47)) == Volley(48)
    ensures Volley(48).invaders[4].rect == Rect(394, 50, 40, 30)
    ensures Drawn(Volley(48).bullets[0]) == Rect(397, 60, 6, 20)
    ensures Overlap(Volley(48).invaders[4].rect, Drawn(Volley(48).bullets[0]))
  {
    forall i | 0 < i <= 48 ensures Clear(Spawned, i) {
      BelowGrid(Spawned, i);
    }
    FireStep(Spawned);
    VolleyRun(Spawned, 1, 48);
    RunFirst(Overlap, Spawned, Start(), Fire, Volley(1), Quiets(48 - 1), Volley(48));
  }

  /** Tested where it is drawn, the 31st frame's bullet, at (397, 230),
      meets the invader of row 4 and column 5, at (393, 210), and no
      earlier one. */
  lemma DrawnTarget()
    ensures Target(Overlap, Drawn, Marched(93), Shot(31)) == Some(37)
  {
    forall j | 0 <= j < 37 ensures !Overlap(Marched(93)[j].rect, Drawn(Shot(31))) {
      MissedBefore(j);
    }
    MetAt37();
    TargetIs(Overlap, Drawn, Marched(93), Shot(31), 37);
  }

  /** The target is the invader the bullet meets with none before it. */
  lemma TargetIs(collide: Collide, box: HitBox, invs: seq<Invader>, b: Bullet, t: nat)
    requires t < |invs| && collide(invs[t].rect, box(b))
    requires forall m :: 0 <= m < t ==> !collide(invs[m].rect, box(b))
    ensures Target(collide, box, invs, b) == Some(t)
  {
    TargetSpec(collide, box, invs, b);
  }

  /** Every invader before index 37 lies left of or above the drawn shot. */
  lemma MissedBefore(j: nat)
    requires j < 37
    ensures !Overlap(Marched(93)[j].rect, Drawn(Shot(31)))
  {
    var row, col := j / 8, j % 8;
    assert j == 8 * row + col && row <= 4 && col <= 7;
    assert Marched(93)[j].rect == Rect(143 + 50 * col, 50 + 40 * row, 40, 30);
    if row == 4 {
      assert col <= 4;
    }
  }

  /** Invader 37, at (393, 210), covers the drawn shot at (397, 230). */
  lemma MetAt37()
    ensures Overlap(Marched(93)[37].rect, Drawn(Shot(31)))
  {
    assert Marched(93)[37].rect == Rect(393, 210, 40, 30);
    assert Drawn(Shot(31)) == Rect(397, 230, 6, 20);
  }

  /** With that invader gone, the 31st frame leaves the rest of the grid,
      no bullet and a score of 10. */
  lemma DrawnLastFrame()
    ensures Frame(Overlap, Drawn, Volley(30), Quiet)
         == Game(PlayerStartX, Marched(93)[..37] + Marched(93)[38..], [], [], InvaderStartSpeedX, false, 10)
  {
    var g := Volley(30);
    MoveOne(Shot(30));
    assert MoveBullets(g.bullets) == [Shot(31)];
    MarchedFacts(90);
    var invs := Marched(93);
    assert MoveInvaders(g.invaders, g.speedX) == (invs, InvaderStartSpeedX);
    DrawnTarget();
    MarchedDistinct(90);
    RestStaysUp();
    OneHit(Overlap, Drawn, PlayerStartX, invs, Shot(31), 37);
    QuietFrame(Overlap, Drawn, g);
  }

  /** A march keeps the fresh grid free of repeats. */
  lemma MarchedDistinct(d: int)
    requires 0 <= d <= 300
    ensures Distinct(Marched(d + InvaderStartSpeedX))
  {
    MarchedFacts(d);
    GridFacts();
    MarchKeepsFormation(Marched(d), InvaderStartSpeedX);
  }

  /** Without invader 37 the grid of frame 31 is still above the ship. */
  lemma RestStaysUp()
    ensures !Landed(Marched(93)[..37] + Marched(93)[38..])
  {
    var invs := Marched(93);
    var rest := invs[..37] + invs[38..];
    forall j | 0 <= j < 39 ensures rest[j].rect.Bottom() < PlayerY {
      var i := if j < 37 then j else j + 1;
      assert rest[j] == invs[i];
      GridCell(i);
    }
  }

  /** Tested where it is drawn, the shot meets nothing while it is 240 or
      more down the screen, which it is for its first 30 frames. */
  lemma DrawnClear(m: nat)
    requires m <= 30
    ensures forall i :: 0 < i <= m ==> Clear(Drawn, i)
  {
    forall i | 0 < i <= m ensures Clear(Drawn, i) {
      BelowGrid(Drawn, i);
    }
  }

  /** Tested where it is drawn, the same shot destroys that invader in
      frame 31: the score is 10, the bullet and the invader are gone, and
      the game goes on. */
  lemma DrawnHits()
    ensures Run(Overlap, Drawn, Start(), [Fire] + Quiets(30))
         == Game(PlayerStartX, Marched(93)[..37] + Marched(93)[38..], [], [], InvaderStartSpeedX, false, 10)
  {
    DrawnClear(30);
    FireStep(Drawn);
    VolleyRun(Drawn, 1, 30);
    DrawnLastFrame();
    FireThenQuiets(Overlap, Drawn, Start(), Volley(1), 30, Volley(30),
                   Game(PlayerStartX, Marched(93)[..37] + Marched(93)[38..], [], [], InvaderStartSpeedX, false, 10));
  }
}
