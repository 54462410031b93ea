/** The rules of the space-invaders game on integer screen coordinates:
    the invader grid, its march and reversal, the two bullet streams, and
    the collision pass.  A `pygame.Rect` is a plain record, the overlap
    test `colliderect` is the parameter `collide`, and the rect a bullet is
    tested with is the parameter `box`: `Spawned` as the program does it,
    `Drawn` where the bullet is drawn. */
module SpaceInvaders {
  import opened Results
  import opened Search
  import opened PyLists

  const ScreenWidth: int := 800
  const ScreenHeight: int := 600

  const PlayerWidth: int := 50
  const PlayerHeight: int := 40
  const PlayerSpeed: int := 8
  /** 800 // 2 - 50 // 2: the player's starting and restart column. */
  const PlayerStartX: int := ScreenWidth / 2 - PlayerWidth / 2
  const PlayerY: int := ScreenHeight - PlayerHeight - 20

  const InvaderWidth: int := 40
  const InvaderHeight: int := 30
  const InvaderRows: int := 5
  const InvaderCols: int := 8
  const InvaderPadding: int := 10
  const InvaderStartSpeedX: int := 3
  const InvaderSpeedY: int := 20
  /** The palette has five colours; an invader stores its palette index. */
  const PaletteSize: int := 5

  const BulletWidth: int := 6
  const BulletHeight: int := 20
  const BulletSpeed: int := 10

  const InvaderBulletWidth: int := 4
  const InvaderBulletHeight: int := 15
  const InvaderBulletSpeed: int := 5

  datatype Rect = Rect(x: int, y: int, w: int, h: int) {
    function Left(): int { x }
    function Right(): int { x + w }
    function Bottom(): int { y + h }
  }

  /** An invader: its position, palette index and collision rect. */
  datatype Invader = Invader(x: int, y: int, color: int, rect: Rect)

  /** A bullet of either stream: its position and the rect it was spawned
      with, which moving never updates. */
  datatype Bullet = Bullet(x: int, y: int, rect: Rect)

  type Collide = (Rect, Rect) -> bool

  /** `colliderect` for rects of positive size: the open areas meet. */
  predicate Overlap(a: Rect, b: Rect) {
    a.x < b.x + b.w && b.x < a.x + a.w && a.y < b.y + b.h && b.y < a.y + a.h
  }

  /** The rect the collision pass tests a bullet with. */
  type HitBox = Bullet -> Rect

  /** As written: the rect stored when the bullet was fired. */
  function Spawned(b: Bullet): Rect { b.rect }

  /** The rect the bullet is drawn in, at its current position. */
  function Drawn(b: Bullet): Rect { Rect(b.x, b.y, b.rect.w, b.rect.h) }

  /** The rect sits on the invader's own position at the invader size. */
  predicate Synced(inv: Invader) {
    inv.rect == Rect(inv.x, inv.y, InvaderWidth, InvaderHeight)
  }

  predicate AllSynced(invs: seq<Invader>) {
    forall k :: 0 <= k < |invs| ==> Synced(invs[k])
  }

  // ---------------------------------------------------------------------
  // The grid

  function GridInvader(row: int, col: int): Invader {
    var x := 50 + col * (InvaderWidth + InvaderPadding);
    var y := 50 + row * (InvaderHeight + InvaderPadding);
    Invader(x, y, row % PaletteSize, Rect(x, y, InvaderWidth, InvaderHeight))
  }

  /** Rows outside, columns inside, as the program's nested loops run. */
  function CreateInvaders(): (r: seq<Invader>)
    ensures |r| == 40
    ensures forall k :: 0 <= k < |r| ==>
      && r[k].x == 50 + 50 * (k % 8)
      && r[k].y == 50 + 40 * (k / 8)
      && r[k].color == (k / 8) % 5
      && r[k].rect == Rect(r[k].x, r[k].y, 40, 30)
  {
    seq(InvaderRows * InvaderCols, k requires 0 <= k => GridInvader(k / InvaderCols, k % InvaderCols))
  }

  /** The invader of row `row` and column `col` sits at
      (50 + 50 col, 50 + 40 row) in colour `row mod 5`. */
  lemma GridLayout(row: int, col: int)
    requires 0 <= row < InvaderRows && 0 <= col < InvaderCols
    ensures var inv := CreateInvaders()[row * InvaderCols + col];
      && inv.x == 50 + 50 * col && inv.y == 50 + 40 * row
      && inv.color == row % 5 && inv.rect == Rect(inv.x, inv.y, 40, 30)
  {
    var k := row * InvaderCols + col;
    assert k / 8 == row && k % 8 == col;
  }

  /** The fresh grid has no two equal invaders, every rect in step with its
      invader, every invader clear of both side edges and above the player. */
  lemma GridFacts()
    ensures Distinct(CreateInvaders())
    ensures AllSynced(CreateInvaders())
    ensures RowAligned(CreateInvaders())
    ensures forall k :: 0 <= k < 40 ==>
      && 0 < CreateInvaders()[k].rect.Left()
      && CreateInvaders()[k].rect.Right() < ScreenWidth
      && CreateInvaders()[k].rect.Bottom() < PlayerY
  {
    var g := CreateInvaders();
    forall i, j | 0 <= i < j < |g| ensures g[i] != g[j] {
      GridCell(i);
      GridCell(j);
      assert g[i].x != g[j].x || g[i].y != g[j].y;
    }
    forall k | 0 <= k < 40
      ensures Synced(g[k]) && g[k].rect.y % 20 == 10
      ensures 0 < g[k].rect.Left() && g[k].rect.Right() < ScreenWidth && g[k].rect.Bottom() < PlayerY
    {
      GridCell(k);
    }
  }

  /** Grid index `k` is row k / 8, column k mod 8 of the five rows. */
  lemma GridCell(k: int)
    requires 0 <= k < 40
    ensures 0 <= k / 8 <= 4 && 0 <= k % 8 <= 7 && k == 8 * (k / 8) + k % 8
    ensures (50 + 40 * (k / 8)) % 20 == 10
  {
    var r := k / 8;
    assert 50 + 40 * r == 20 * (2 * r + 2) + 10;
  }

  // ---------------------------------------------------------------------
  // The march

  function Shift(inv: Invader, dx: int): Invader {
    var x := inv.x + dx;
    inv.(x := x, rect := inv.rect.(x := x))
  }

  function Lower(inv: Invader): Invader {
    var y := inv.y + InvaderSpeedY;
    inv.(y := y, rect := inv.rect.(y := y))
  }

  predicate AtEdge(inv: Invader) {
    inv.rect.Right() >= ScreenWidth || inv.rect.Left() <= 0
  }

  /** Some invader, once shifted, touches or crosses a side edge. */
  predicate Turns(invs: seq<Invader>, speedX: int) {
    exists k :: 0 <= k < |invs| && AtEdge(Shift(invs[k], speedX))
  }

  /** Every invader steps sideways; if any then meets an edge, the speed
      flips and every invader drops one row.  An empty grid does nothing. */
  function MoveInvaders(invs: seq<Invader>, speedX: int): (r: (seq<Invader>, int))
    ensures |r.0| == |invs|
    ensures invs == [] ==> r == (invs, speedX)
    ensures r.1 == (if Turns(invs, speedX) then -speedX else speedX)
    ensures forall k :: 0 <= k < |invs| ==>
      && r.0[k].x == invs[k].x + speedX
      && r.0[k].rect.x == r.0[k].x
      && r.0[k].y == invs[k].y + (if Turns(invs, speedX) then InvaderSpeedY else 0)
      && r.0[k].rect.y == (if Turns(invs, speedX) then r.0[k].y else invs[k].rect.y)
      && r.0[k].color == invs[k].color
      && r.0[k].rect.w == invs[k].rect.w && r.0[k].rect.h == invs[k].rect.h
  {
    if invs == [] then (invs, speedX)
    else
      var moved := seq(|invs|, k requires 0 <= k < |invs| => Shift(invs[k], speedX));
      if Turns(invs, speedX) then
        (seq(|moved|, k requires 0 <= k < |moved| => Lower(moved[k])), -speedX)
      else (moved, speedX)
  }

  /** The march moves the whole formation rigidly: every pairwise offset is
      kept, rects stay in step, and distinct invaders stay distinct. */
  lemma MarchKeepsFormation(invs: seq<Invader>, speedX: int)
    requires AllSynced(invs)
    ensures var r := MoveInvaders(invs, speedX).0;
      && AllSynced(r)
      && (forall i, j :: 0 <= i < |invs| && 0 <= j < |invs| ==>
            r[i].x - r[j].x == invs[i].x - invs[j].x && r[i].y - r[j].y == invs[i].y - invs[j].y)
      && (Distinct(invs) ==> Distinct(r))
  {
  }

  /** The speed only ever changes sign. */
  lemma MarchSpeed(invs: seq<Invader>, speedX: int)
    ensures MoveInvaders(invs, speedX).1 == speedX || MoveInvaders(invs, speedX).1 == -speedX
  {
  }

  // ---------------------------------------------------------------------
  // Bullets

  /** The player's bullets leave above the top edge. */
  predicate AboveTop(y: int) { y < 0 }

  /** The invaders' bullets leave below the bottom edge. */
  predicate BelowBottom(y: int) { y > ScreenHeight }

  /** The loop `for b in bs: move b; if gone: bs.remove(b)` over Python's
      index-based list iterator, from index `i` on.  A removal shifts the
      rest of the list down, so the iterator passes over the next bullet. */
  function MoveFrom(bs: seq<Bullet>, i: nat, dy: int, gone: int -> bool): (r: seq<Bullet>)
    ensures |r| <= |bs|
    decreases |bs| - i
  {
    if i >= |bs| then bs
    else
      var b := bs[i].(y := bs[i].y + dy);
      var moved := bs[i := b];
      assert moved[i] == b;
      if gone(b.y) then MoveFrom(Remove(moved, b), i + 1, dy, gone)
      else MoveFrom(moved, i + 1, dy, gone)
  }

  function MoveBullets(bs: seq<Bullet>): seq<Bullet> {
    MoveFrom(bs, 0, -BulletSpeed, AboveTop)
  }

  function MoveInvaderBullets(bs: seq<Bullet>): seq<Bullet> {
    MoveFrom(bs, 0, InvaderBulletSpeed, BelowBottom)
  }

  /** The same pass read off the original list: a bullet that leaves is
      dropped and the one after it is kept unmoved this frame. */
  function Pass(bs: seq<Bullet>, dy: int, gone: int -> bool): (r: seq<Bullet>)
    ensures |r| <= |bs|
    decreases |bs|
  {
    if bs == [] then []
    else
      var b := bs[0].(y := bs[0].y + dy);
      if !gone(b.y) then [b] + Pass(bs[1..], dy, gone)
      else if |bs| == 1 then []
      else [bs[1]] + Pass(bs[2..], dy, gone)
  }

  /** No two bullets share a spawn rect: true whenever no two were fired
      from the same spot. */
  predicate DistinctRects(bs: seq<Bullet>) {
    forall i, j :: 0 <= i < j < |bs| ==> bs[i].rect != bs[j].rect
  }

  lemma DistinctRectsReplace(s: seq<Bullet>, i: nat, b: Bullet)
    requires DistinctRects(s)
    requires i < |s| && b.rect == s[i].rect
    ensures DistinctRects(s[i := b])
  {
  }

  lemma DistinctRectsDrop(s: seq<Bullet>, i: nat)
    requires DistinctRects(s)
    requires i < |s|
    ensures DistinctRects(s[..i] + s[i + 1..])
  {
    var t := s[..i] + s[i + 1..];
    forall a, c | 0 <= a < c < |t| ensures t[a].rect != t[c].rect {
      var a' := if a < i then a else a + 1;
      var c' := if c < i then c else c + 1;
      assert t[a] == s[a'] && t[c] == s[c'];
    }
  }

  /** The bullet at the iterator stays: the list is the handled prefix
      with the moved bullet appended, followed by the rest. */
  lemma StayStep(pre: seq<Bullet>, rest: seq<Bullet>, b: Bullet)
    requires DistinctRects(pre + rest)
    requires rest != [] && b.rect == rest[0].rect
    ensures (pre + rest)[|pre| := b] == (pre + [b]) + rest[1..]
    ensures DistinctRects((pre + [b]) + rest[1..])
  {
    var s := pre + rest;
    assert s[|pre|] == rest[0];
    assert s[|pre| := b] == (pre + [b]) + rest[1..];
    DistinctRectsReplace(s, |pre|, b);
  }

  /** The bullet at the iterator leaves: removing it by value removes that
      very position, since no handled bullet shares its spawn rect. */
  lemma LeaveStep(pre: seq<Bullet>, rest: seq<Bullet>, b: Bullet)
    requires DistinctRects(pre + rest)
    requires rest != [] && b.rect == rest[0].rect
    ensures b in (pre + rest)[|pre| := b]
    ensures Remove((pre + rest)[|pre| := b], b) == pre + rest[1..]
    ensures DistinctRects(pre + rest[1..])
  {
    var s := pre + rest;
    var i := |pre|;
    assert s[i] == rest[0];
    var moved := s[i := b];
    DistinctRectsReplace(s, i, b);
    assert b !in moved[..i] by {
      forall a | 0 <= a < i ensures moved[a] != b {
        assert moved[a].rect == s[a].rect != s[i].rect;
      }
    }
    RemoveAt(moved, i);
    assert moved[..i] == pre && moved[i + 1..] == rest[1..];
    DistinctRectsDrop(moved, i);
  }

  lemma SkipOne<T>(pre: seq<T>, rest: seq<T>)
    requires |rest| >= 2
    ensures pre + rest[1..] == (pre + [rest[1]]) + rest[2..]
  {
  }

  /** One turn of the loop on a bullet that leaves. */
  lemma MoveFromLeaveTurn(s: seq<Bullet>, i: nat, dy: int, gone: int -> bool, b: Bullet)
    requires i < |s| && b == s[i].(y := s[i].y + dy) && gone(b.y)
    ensures b in s[i := b]
    ensures MoveFrom(s, i, dy, gone) == MoveFrom(Remove(s[i := b], b), i + 1, dy, gone)
  {
    assert s[i := b][i] == b;
  }

  /** One turn of the loop on a bullet that stays. */
  lemma MoveFromStayTurn(s: seq<Bullet>, i: nat, dy: int, gone: int -> bool, b: Bullet)
    requires i < |s| && b == s[i].(y := s[i].y + dy) && !gone(b.y)
    ensures MoveFrom(s, i, dy, gone) == MoveFrom(s[i := b], i + 1, dy, gone)
  {
  }

  /** With the first `|pre|` bullets already handled, the loop finishes by
      appending the pass over the rest. */
  lemma {:induction false} MoveFromIsPass(pre: seq<Bullet>, rest: seq<Bullet>, dy: int, gone: int -> bool)
    requires DistinctRects(pre + rest)
    ensures MoveFrom(pre + rest, |pre|, dy, gone) == pre + Pass(rest, dy, gone)
    decreases |rest|, 1
  {
    if rest == [] {
      assert pre + rest == pre;
    } else {
      var s := pre + rest;
      assert s[|pre|] == rest[0];
      var b := s[|pre|].(y := s[|pre|].y + dy);
      if gone(b.y) {
        MoveFromLeaves(pre, rest, dy, gone, b);
      } else {
        MoveFromStays(pre, rest, dy, gone, b);
      }
    }
  }

  lemma {:induction false} MoveFromStays(pre: seq<Bullet>, rest: seq<Bullet>, dy: int, gone: int -> bool, b: Bullet)
    requires DistinctRects(pre + rest)
    requires rest != [] && b == rest[0].(y := rest[0].y + dy) && !gone(b.y)
    ensures MoveFrom(pre + rest, |pre|, dy, gone) == pre + Pass(rest, dy, gone)
    decreases |rest|, 0
  {
    var s := pre + rest;
    assert s[|pre|] == rest[0];
    StayStep(pre, rest, b);
    MoveFromStayTurn(s, |pre|, dy, gone, b);
    MoveFromIsPass(pre + [b], rest[1..], dy, gone);
    assert Pass(rest, dy, gone) == [b] + Pass(rest[1..], dy, gone);
    AppendAssoc(pre, [b], Pass(rest[1..], dy, gone));
  }

  lemma {:induction false} MoveFromLeaves(pre: seq<Bullet>, rest: seq<Bullet>, dy: int, gone: int -> bool, b: Bullet)
    requires DistinctRects(pre + rest)
    requires rest != [] && b == rest[0].(y := rest[0].y + dy) && gone(b.y)
    ensures MoveFrom(pre + rest, |pre|, dy, gone) == pre + Pass(rest, dy, gone)
    decreases |rest|, 0
  {
    var s := pre + rest;
    assert s[|pre|] == rest[0];
    LeaveStep(pre, rest, b);
    MoveFromLeaveTurn(s, |pre|, dy, gone, b);
    if |rest| == 1 {
      assert pre + rest[1..] == pre;
    } else {
      SkipOne(pre, rest);
      MoveFromIsPass(pre + [rest[1]], rest[2..], dy, gone);
      AppendAssoc(pre, [rest[1]], Pass(rest[2..], dy, gone));
    }
  }

  /** For bullets with distinct spawn rects, the iterator loop is the pass
      over the list: every bullet that leaves is dropped, and the bullet
      right after one that leaves is skipped for the frame. */
  lemma MoveBulletsIsPass(bs: seq<Bullet>)
    requires DistinctRects(bs)
    ensures MoveBullets(bs) == Pass(bs, -BulletSpeed, AboveTop)
    ensures MoveInvaderBullets(bs) == Pass(bs, InvaderBulletSpeed, BelowBottom)
  {
    assert [] + bs == bs;
    MoveFromIsPass([], bs, -BulletSpeed, AboveTop);
    MoveFromIsPass([], bs, InvaderBulletSpeed, BelowBottom);
  }

  /** When nobody leaves the screen, every bullet moves by `dy` and keeps its
      place and spawn rect. */
  lemma {:induction false} PassNoneGone(bs: seq<Bullet>, dy: int, gone: int -> bool)
    requires forall k :: 0 <= k < |bs| ==> !gone(bs[k].y + dy)
    ensures |Pass(bs, dy, gone)| == |bs|
    ensures forall k :: 0 <= k < |bs| ==> Pass(bs, dy, gone)[k] == bs[k].(y := bs[k].y + dy)
    decreases |bs|
  {
    if bs != [] {
      assert !gone(bs[0].y + dy);
      PassNoneGone(bs[1..], dy, gone);
      var r := Pass(bs, dy, gone);
      forall k | 1 <= k < |bs| ensures r[k] == bs[k].(y := bs[k].y + dy) {
        assert r[k] == Pass(bs[1..], dy, gone)[k - 1];
        assert bs[1..][k - 1] == bs[k];
      }
    }
  }

  /** Two player bullets, the first about to leave: the second is not
      moved in this frame. */
  lemma PassSkipsExample()
    ensures MoveBullets([Bullet(100, 5, Rect(100, 540, 6, 20)), Bullet(200, 300, Rect(200, 540, 6, 20))])
         == [Bullet(200, 300, Rect(200, 540, 6, 20))]
  {
    var bs := [Bullet(100, 5, Rect(100, 540, 6, 20)), Bullet(200, 300, Rect(200, 540, 6, 20))];
    var b := bs[0].(y := -5);
    assert bs[0 := b] == [b, bs[1]];
    assert Remove([b, bs[1]], b) == [bs[1]];
  }

  // ---------------------------------------------------------------------
  // Collisions

  /** Invader `k` is met by bullet `b`. */
  function MetBy(collide: Collide, box: HitBox, invs: seq<Invader>, b: Bullet): nat -> bool {
    (k: nat) => k < |invs| && collide(invs[k].rect, box(b))
  }

  /** The first invader, in list order, that the bullet meets. */
  function Target(collide: Collide, box: HitBox, invs: seq<Invader>, b: Bullet): (r: Option<nat>)
    ensures r.Some? ==> r.value < |invs| && collide(invs[r.value].rect, box(b))
  {
    FirstFrom(MetBy(collide, box, invs, b), 0, |invs|)
  }

  /** A bullet finds a target exactly when it meets some invader, and the
      target is the first one it meets. */
  lemma TargetSpec(collide: Collide, box: HitBox, invs: seq<Invader>, b: Bullet)
    ensures Target(collide, box, invs, b).Some? <==> exists k :: 0 <= k < |invs| && collide(invs[k].rect, box(b))
    ensures Target(collide, box, invs, b).Some? ==>
      forall m :: 0 <= m < Target(collide, box, invs, b).value ==> !collide(invs[m].rect, box(b))
  {
    var p := MetBy(collide, box, invs, b);
    FirstFromSpec(p, 0, |invs|);
    if Target(collide, box, invs, b).None? {
      forall k | 0 <= k < |invs| ensures !collide(invs[k].rect, box(b)) {
        assert !p(k);
      }
    } else {
      var t := Target(collide, box, invs, b).value;
      forall m | 0 <= m < t ensures !collide(invs[m].rect, box(b)) {
        assert !p(m);
      }
    }
  }

  /** The bullet scores: it meets some invader. */
  function Scores(collide: Collide, box: HitBox, invs: seq<Invader>): Bullet -> bool {
    b => Target(collide, box, invs, b).Some?
  }

  /** The invaders hit, one entry per scoring bullet, in bullet order; an
      invader hit by two bullets appears twice. */
  function Hit(collide: Collide, box: HitBox, invs: seq<Invader>, bs: seq<Bullet>): (r: seq<Invader>)
    ensures |r| == |Filter(bs, Scores(collide, box, invs))|
    ensures forall v :: v in r ==> v in invs
  {
    if bs == [] then []
    else
      assert bs == [bs[0]] + bs[1..];
      match Target(collide, box, invs, bs[0])
      case None => Hit(collide, box, invs, bs[1..])
      case Some(k) => [invs[k]] + Hit(collide, box, invs, bs[1..])
  }

  /** An invader is hit exactly when it is the target of some bullet. */
  lemma {:induction false} HitSpec(collide: Collide, box: HitBox, invs: seq<Invader>, bs: seq<Bullet>, v: Invader)
    ensures v in Hit(collide, box, invs, bs) <==>
      exists j :: 0 <= j < |bs| && Target(collide, box, invs, bs[j]).Some?
        && invs[Target(collide, box, invs, bs[j]).value] == v
    decreases |bs|
  {
    if bs != [] {
      HitSpec(collide, box, invs, bs[1..], v);
      assert forall j :: 1 <= j < |bs| ==> bs[1..][j - 1] == bs[j];
      if exists j :: 0 <= j < |bs| && Target(collide, box, invs, bs[j]).Some? && invs[Target(collide, box, invs, bs[j]).value] == v {
        var j :| 0 <= j < |bs| && Target(collide, box, invs, bs[j]).Some? && invs[Target(collide, box, invs, bs[j]).value] == v;
        if j > 0 {
          assert bs[1..][j - 1] == bs[j];
        }
      }
    }
  }

  /** The player's collision rect. */
  function PlayerRect(playerX: int): Rect {
    Rect(playerX, PlayerY, PlayerWidth, PlayerHeight)
  }

  /** Invader bullet `k` meets the player. */
  function Strikes(collide: Collide, box: HitBox, player: Rect, ibs: seq<Bullet>): nat -> bool {
    (k: nat) => k < |ibs| && collide(player, box(ibs[k]))
  }

  /** Some invader's rect reaches the player's row. */
  predicate Landed(invs: seq<Invader>) {
    exists k :: 0 <= k < |invs| && invs[k].rect.Bottom() >= PlayerY
  }

  datatype Outcome = Outcome(
    invaders: seq<Invader>, bullets: seq<Bullet>, invaderBullets: seq<Bullet>,
    score: int, gameOver: bool)

  /** The collision pass.  Each player bullet scores 10 against the first
      invader it meets; scoring bullets and the invaders they hit are then
      removed value by value.  The first invader bullet that meets the player
      is removed and ends the game, and so does an invader reaching the
      player's row. */
  function CheckCollisions(collide: Collide, box: HitBox, playerX: int, invs: seq<Invader>, bs: seq<Bullet>,
                           ibs: seq<Bullet>, score: int, gameOver: bool): (r: Outcome)
    ensures r.score == score + 10 * |Filter(bs, Scores(collide, box, invs))|
    ensures |r.invaders| <= |invs| && |r.bullets| <= |bs| && |r.invaderBullets| <= |ibs|
    ensures forall v :: v in r.invaders ==> v in invs
    ensures forall v :: v in r.bullets ==> v in bs
    ensures forall v :: v in r.invaderBullets ==> v in ibs
    ensures gameOver ==> r.gameOver
  {
    var scored := Filter(bs, Scores(collide, box, invs));
    var bs' := RemoveEach(bs, scored);
    var invs' := RemoveEach(invs, Hit(collide, box, invs, bs));
    var struck := FirstFrom(Strikes(collide, box, PlayerRect(playerX), ibs), 0, |ibs|);
    var ibs' := if struck.Some? then Remove(ibs, ibs[struck.value]) else ibs;
    Outcome(invs', bs', ibs', score + 10 * |scored|, gameOver || struck.Some? || Landed(invs'))
  }

  /** The bullets left are exactly the non-scoring ones, in their order. */
  lemma CollisionsBullets(collide: Collide, box: HitBox, playerX: int, invs: seq<Invader>, bs: seq<Bullet>,
                          ibs: seq<Bullet>, score: int, gameOver: bool)
    ensures CheckCollisions(collide, box, playerX, invs, bs, ibs, score, gameOver).bullets
         == Reject(bs, Scores(collide, box, invs))
  {
    RemoveEachOwnFilter(bs, Scores(collide, box, invs));
  }

  /** On a grid without repeats, the invaders left are exactly those no
      bullet targeted, in their order; each hit invader goes once. */
  lemma CollisionsInvaders(collide: Collide, box: HitBox, playerX: int, invs: seq<Invader>, bs: seq<Bullet>,
                           ibs: seq<Bullet>, score: int, gameOver: bool)
    requires Distinct(invs)
    ensures CheckCollisions(collide, box, playerX, invs, bs, ibs, score, gameOver).invaders
         == Without(invs, Hit(collide, box, invs, bs))
    ensures Distinct(CheckCollisions(collide, box, playerX, invs, bs, ibs, score, gameOver).invaders)
  {
    RemoveEachDistinct(invs, Hit(collide, box, invs, bs));
    WithoutDistinct(invs, Hit(collide, box, invs, bs));
  }

  /** The game ends in this pass exactly when it had ended, an invader
      bullet meets the player, or a surviving invader reaches the player's
      row; the first bullet that meets the player is removed, by position. */
  lemma CollisionsPlayer(collide: Collide, box: HitBox, playerX: int, invs: seq<Invader>, bs: seq<Bullet>,
                         ibs: seq<Bullet>, score: int, gameOver: bool)
    ensures var r := CheckCollisions(collide, box, playerX, invs, bs, ibs, score, gameOver);
      r.gameOver <==> (gameOver || Landed(r.invaders)
        || exists k :: 0 <= k < |ibs| && collide(PlayerRect(playerX), box(ibs[k])))
    ensures var r := CheckCollisions(collide, box, playerX, invs, bs, ibs, score, gameOver);
      (forall k :: 0 <= k < |ibs| ==> !collide(PlayerRect(playerX), box(ibs[k]))) ==> r.invaderBullets == ibs
    ensures var r := CheckCollisions(collide, box, playerX, invs, bs, ibs, score, gameOver);
      forall k :: 0 <= k < |ibs| && collide(PlayerRect(playerX), box(ibs[k]))
        && (forall m :: 0 <= m < k ==> !collide(PlayerRect(playerX), box(ibs[m])))
        ==> r.invaderBullets == ibs[..k] + ibs[k + 1..]
  {
    var player := PlayerRect(playerX);
    var p := Strikes(collide, box, player, ibs);
    FirstFromSpec(p, 0, |ibs|);
    var struck := FirstFrom(p, 0, |ibs|);
    if struck.None? {
      forall k | 0 <= k < |ibs| ensures !collide(player, box(ibs[k])) {
        assert !p(k);
      }
    } else {
      var t := struck.value;
      assert collide(player, box(ibs[t]));
      forall m | 0 <= m < t ensures !collide(player, box(ibs[m])) {
        assert !p(m);
      }
      assert ibs[t] !in ibs[..t];
      RemoveAt(ibs, t);
    }
  }

  /** A bullet scores exactly when it meets some invader, and the score
      rises by ten for each such bullet. */
  lemma ScoringSpec(collide: Collide, box: HitBox, invs: seq<Invader>, bs: seq<Bullet>, b: Bullet)
    ensures b in Filter(bs, Scores(collide, box, invs)) <==>
      b in bs && exists k :: 0 <= k < |invs| && collide(invs[k].rect, box(b))
  {
    TargetSpec(collide, box, invs, b);
  }

  // ---------------------------------------------------------------------
  // Where a bullet is tested

  /** Moving a bullet changes its position only: whatever held of every
      rect before the loop holds of every rect after it. */
  lemma {:induction false} MoveFromKeepsRects(bs: seq<Bullet>, i: nat, dy: int, gone: int -> bool, p: Rect -> bool)
    requires forall k :: 0 <= k < |bs| ==> p(bs[k].rect)
    ensures forall k :: 0 <= k < |MoveFrom(bs, i, dy, gone)| ==> p(MoveFrom(bs, i, dy, gone)[k].rect)
    decreases |bs| - i
  {
    if i < |bs| {
      var b := bs[i].(y := bs[i].y + dy);
      var moved := bs[i := b];
      assert forall k :: 0 <= k < |moved| ==> p(moved[k].rect);
      if gone(b.y) {
        assert moved[i] == b;
        var s := Remove(moved, b);
        forall k | 0 <= k < |s| ensures p(s[k].rect) {
          assert s[k] in moved;
        }
        MoveFromKeepsRects(s, i + 1, dy, gone, p);
      } else {
        MoveFromKeepsRects(moved, i + 1, dy, gone, p);
      }
    }
  }

  /** The rect of a bullet fired from the ship: in the ship's top row. */
  predicate InShipRow(r: Rect) {
    r.y == PlayerY && r.h == BulletHeight
  }

  predicate ShipShots(bs: seq<Bullet>) {
    forall k :: 0 <= k < |bs| ==> InShipRow(bs[k].rect)
  }

  /** However far the player's bullets fly, their rects stay in the ship's
      row. */
  lemma MoveBulletsKeepShipRow(bs: seq<Bullet>)
    requires ShipShots(bs)
    ensures ShipShots(MoveBullets(bs))
  {
    MoveFromKeepsRects(bs, 0, -BulletSpeed, AboveTop, InShipRow);
  }

  /** As written, a player's bullet tested with its spawn rect meets only
      an invader whose rect already reaches down into the player's row. */
  lemma {:induction false} SpawnedScoresOnlyLanded(invs: seq<Invader>, b: Bullet)
    requires InShipRow(b.rect)
    requires Scores(Overlap, Spawned, invs)(b)
    ensures Landed(invs)
  {
    var k := Target(Overlap, Spawned, invs, b).value;
    assert Overlap(invs[k].rect, b.rect);
    assert invs[k].rect.Bottom() >= PlayerY;
  }

  /** As written, the collision pass scores only once some invader has
      reached the player's row, which is the condition that ends the game. */
  lemma SpawnedScoringNeedsLanding(playerX: int, invs: seq<Invader>, bs: seq<Bullet>,
                                   ibs: seq<Bullet>, score: int, gameOver: bool)
    requires ShipShots(bs)
    ensures CheckCollisions(Overlap, Spawned, playerX, invs, bs, ibs, score, gameOver).score > score
      ==> Landed(invs)
  {
    var scored := Filter(bs, Scores(Overlap, Spawned, invs));
    if scored != [] {
      assert scored[0] in scored;
      var j :| 0 <= j < |bs| && bs[j] == scored[0];
      SpawnedScoresOnlyLanded(invs, bs[j]);
    }
  }

  /** Every invader's rect top sits on a multiple of 20 plus 10: the grid
      starts at rows 50 + 40 r and only ever drops by 20. */
  predicate RowAligned(invs: seq<Invader>) {
    forall k :: 0 <= k < |invs| ==> invs[k].rect.y % 20 == 10
  }

  /** The rect of a bullet an invader fired: 4 by 15, its top on the
      firing invader's bottom edge, so on a multiple of 20. */
  predicate InvaderShotRect(r: Rect) {
    r.w == InvaderBulletWidth && r.h == InvaderBulletHeight && r.y % 20 == 0
  }

  predicate InvaderShots(ibs: seq<Bullet>) {
    forall k :: 0 <= k < |ibs| ==> InvaderShotRect(ibs[k].rect)
  }

  /** However far the invaders' bullets fall, their rects stay where they
      were fired. */
  lemma MoveInvaderBulletsKeepRects(ibs: seq<Bullet>)
    requires InvaderShots(ibs)
    ensures InvaderShots(MoveInvaderBullets(ibs))
  {
    MoveFromKeepsRects(ibs, 0, InvaderBulletSpeed, BelowBottom, InvaderShotRect);
  }

  /** A march keeps the grid's rows aligned, turning or not. */
  lemma MarchKeepsRows(invs: seq<Invader>, speedX: int)
    requires AllSynced(invs) && RowAligned(invs)
    ensures RowAligned(MoveInvaders(invs, speedX).0)
  {
  }

  /** As written, an invader's bullet meets the player only when its rect
      top is at or below the player's row: the bullet was fired by an
      invader whose bottom edge had already reached the player. */
  lemma {:induction false} SpawnedStrikesOnlyLanded(playerX: int, b: Bullet)
    requires InvaderShotRect(b.rect)
    requires Overlap(PlayerRect(playerX), Spawned(b))
    ensures b.rect.y >= PlayerY
  {
    assert b.rect.y > PlayerY - InvaderBulletHeight;
  }

  /** The spawn point of an invader's bullet: centred under it. */
  function InvaderBullet(inv: Invader): (r: Bullet)
    ensures r.x == inv.x + 18 && r.y == inv.y + 30
    ensures r.rect == Rect(r.x, r.y, 4, 15)
  {
    var x := inv.x + InvaderWidth / 2 - InvaderBulletWidth / 2;
    var y := inv.y + InvaderHeight;
    Bullet(x, y, Rect(x, y, InvaderBulletWidth, InvaderBulletHeight))
  }

  /** The spawn point of the player's bullet: centred on the ship's top. */
  function PlayerBullet(playerX: int): (r: Bullet)
    ensures r.x == playerX + 22 && r.y == PlayerY && PlayerY == 540
    ensures r.rect == Rect(r.x, r.y, 6, 20)
  {
    var x := playerX + PlayerWidth / 2 - BulletWidth / 2;
    Bullet(x, PlayerY, Rect(x, PlayerY, BulletWidth, BulletHeight))
  }

  /** The shot of a frame: with probability 1% (`roll < 0.01`) the invader
      `pick` chooses fires; an empty grid never fires. */
  function InvaderShoot(invs: seq<Invader>, ibs: seq<Bullet>, roll: real, pick: nat): (r: seq<Bullet>)
    ensures invs == [] || roll >= 0.01 ==> r == ibs
    ensures invs != [] && roll < 0.01 ==>
      exists k :: 0 <= k < |invs| && r == ibs + [InvaderBullet(invs[k])]
    ensures AllSynced(invs) && RowAligned(invs) && InvaderShots(ibs) ==> InvaderShots(r)
  {
    if invs == [] then ibs
    else if roll < 0.01 then
      var k := pick % |invs|;
      ibs + [InvaderBullet(invs[k])]
    else ibs
  }
}
