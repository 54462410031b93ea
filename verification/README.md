# Five small programs, modelled in Dafny

This project models the logic of five small programs and proves what they
do:

- the **Claude hexagon**: balls with gravity, friction and a mass
  proportional to their radius bounce inside a hexagon that a slider
  spins. There is a wall pass with push-out and damped reflection, and a
  pass over every pair of balls with separation and an impulse exchange;
- the **Gemini hexagon**: equal balls in a hexagon redrawn every frame by
  turning a fixed base hexagon. Each ball resolves only the first side it
  touches and reacts only with the first partner approaching it;
- **space invaders**: the 5 × 8 invader grid, its march and reversal, the
  two bullet streams with Python's remove-while-iterating loop, the
  collision pass, the invaders' random shot, key presses, restart and the
  main loop;
- the **ASCII car**: nine art lines shifted right by a clamped column and
  joined by newlines, and the counter that drives the car across an
  80-column terminal and wraps around;
- the **Collatz sequence**: the loop that collects the orbit of `n` until
  it reaches 1, and the step count and maximum the program reports.

Floating-point arithmetic is modelled with exact `real`s. `math.sqrt` is a
parameter `sqrt` with the property `IsSqrt`. `cos`, `sin` and `pi` are a
`Trig` record whose only assumed law is cos² + sin² = 1. pygame's
`colliderect` is a parameter `collide`, and every random draw is a
parameter.

Two choices in the model are parameters so that the code as written and
its corrected form share one definition:

- the invaders' collision pass takes a `box` that gives the rect a bullet
  is tested with. `Spawned` is the rect the bullet was fired with, as the
  game does; `Drawn` is the rect where the bullet is drawn;
- the Gemini reaction takes a `Share` of the impulse for each ball.
  `Whole` is the program's choice; `Half` is the equal-mass exchange.

Every general fact about the games holds for both choices.

Modules:

- `Results`: `Option`, `Result`.
- `Search`: the first index with a property.
- `Geometry`: vectors, projection, reflection and the sqrt/trig parameters.
- `PyLists`: Python's `list.remove`, filters.
- `ClaudeHexagon`, `ClaudeTick`: the Claude program's rules and frame.
- `GeminiHexagon`, `GeminiFrame`: the Gemini program's rules and frame.
- `SpaceInvaders`, `InvadersGame`: the game's rules and main loop.
- `CarArt`: the car.
- `Collatz`: the Collatz program.

## Model

| member | source | states |
|---|---|---|
| ClaudeHexagon.Update | hexagon-animation/claude/sonnet4-20250616.py:42-52 | gravity 0.3 is added to the vertical speed before both components are scaled by friction 0.98; the ball then moves by the new velocity; the radius is kept |
| ClaudeHexagon.UpdateNIsFlight | hexagon-animation/claude/sonnet4-20250616.py:42-52 | n calls of `update` are n frames of the free flight of the ball's position and velocity, with gravity 0.3 and friction 0.98, and the radius is kept |
| ClaudeHexagon.FreeFlight | hexagon-animation/claude/sonnet4-20250616.py:42-52 | after n calls of `update`: 0.98^n lies in (0, 1], below 1 once n > 0; the horizontal speed is 0.98^n times the start; the falling speed closes on 14.7 = 0.98·0.3/0.02 by the same factor; x has moved 49(1 - 0.98^n)·vx and y has moved 14.7·n + 49(1 - 0.98^n)·(vy - 14.7) |
| ClaudeHexagon.SpinNAngle | hexagon-animation/claude/sonnet4-20250616.py:67-68 | `Spin` is the hexagon's `update`: after n of them the angle has grown by n times the rotation speed, and nothing else about the hexagon has changed |
| ClaudeHexagon.Vertices | hexagon-animation/claude/sonnet4-20250616.py:70-77 | six vertices; vertex i lies at angle `angle + i·pi/3` on the circle of the hexagon's radius |
| ClaudeHexagon.VerticesOnCircle | hexagon-animation/claude/sonnet4-20250616.py:70-77 | every vertex is exactly one radius from the centre |
| ClaudeHexagon.Edges | hexagon-animation/claude/sonnet4-20250616.py:79-86 | six edges; edge i runs from vertex i to vertex (i + 1) mod 6 |
| ClaudeHexagon.EdgesCloseTheLoop | hexagon-animation/claude/sonnet4-20250616.py:79-86 | each edge ends where the next one starts, and the last edge closes at vertex 0 |
| ClaudeHexagon.PointToLine | hexagon-animation/claude/sonnet4-20250616.py:93-120 | the result is an error exactly for a zero-length segment, where the function returns a bare float that its caller cannot unpack; otherwise the closest point is the clamped projection and the distance is its length |
| ClaudeHexagon.PointToLineFailsOnlyForAPoint | hexagon-animation/claude/sonnet4-20250616.py:103-104 | the error case happens exactly when both ends of the segment coincide |
| ClaudeHexagon.WallStepFails | hexagon-animation/claude/sonnet4-20250616.py:127-131 | checking one side fails exactly when that side has zero length, because its distance call then returns a bare float |
| ClaudeHexagon.PointToLineNearest | hexagon-animation/claude/sonnet4-20250616.py:106-120 | the closest point lies on the segment, and no point of the segment is nearer to the ball |
| ClaudeHexagon.WallStep | hexagon-animation/claude/sonnet4-20250616.py:127-154 | one side fails exactly for a zero-length side; it keeps the radius, and a side not hit leaves the ball unchanged |
| ClaudeHexagon.WallHitEffect | hexagon-animation/claude/sonnet4-20250616.py:131-154 | on a hit the normal is a unit vector and the ball ends exactly one radius from the closest point; the normal velocity is reversed and the tangential velocity kept, both damped by 0.8, so the speed is scaled by 0.8 |
| ClaudeHexagon.WallPushed | hexagon-animation/claude/sonnet4-20250616.py:133-145 | dividing the offset by its length gives a unit normal, and pushing the centre out by radius minus distance along it leaves the centre exactly one radius from the closest point |
| ClaudeHexagon.WallReflected | hexagon-animation/claude/sonnet4-20250616.py:147-154 | reflecting across a unit normal and damping by 0.8 reverses the normal component, keeps the tangential one, both scaled by 0.8, and scales the speed by exactly 0.8 |
| ClaudeHexagon.WallCollideFacts | hexagon-animation/claude/sonnet4-20250616.py:123-154 | `WallCollide`, the wall loop, fails exactly when some edge has zero length; otherwise it keeps the radius and never increases the speed |
| ClaudeHexagon.BallBall | hexagon-animation/claude/sonnet4-20250616.py:157-163 | radii are kept, and two balls that do not overlap, or share a centre, are left alone |
| ClaudeHexagon.BallBallKeepsCentreSum | hexagon-animation/claude/sonnet4-20250616.py:168-173 | separation moves the two centres by opposite amounts, so their sum is kept |
| ClaudeHexagon.BallBallSeparates | hexagon-animation/claude/sonnet4-20250616.py:163-173 | after separation two overlapping balls are exactly touching: their centres are r1 + r2 apart |
| ClaudeHexagon.BallBallApart | hexagon-animation/claude/sonnet4-20250616.py:182-184 | balls already moving apart along the normal keep their velocities |
| ClaudeHexagon.BallBallImpulse | hexagon-animation/claude/sonnet4-20250616.py:175-193 | balls moving apart keep their velocities; otherwise total momentum is kept and the relative normal velocity is reversed exactly |
| ClaudeHexagon.MomentumExchange | hexagon-animation/claude/sonnet4-20250616.py:186-193 | with `Mass` the radius over 10, an impulse 2·dvn/(m1 + m2) given to each ball in proportion to the other's mass keeps m1·v1 + m2·v2 |
| ClaudeHexagon.RelativeNormal | hexagon-animation/claude/sonnet4-20250616.py:186-193 | the same impulse negates the relative velocity along a unit normal: the exchange is elastic |
| ClaudeTick.Row | hexagon-animation/claude/sonnet4-20250616.py:302-304 | the inner loop for i visits the pairs (i, j) for j = i + 1 to n - 1, in order |
| ClaudeTick.PairsUpToMembers | hexagon-animation/claude/sonnet4-20250616.py:302-304 | the first `rows` rows hold exactly the pairs i < j < n with i < rows |
| ClaudeTick.PairsUpToSorted | hexagon-animation/claude/sonnet4-20250616.py:302-304 | the pairs come in strictly increasing lexicographic order |
| ClaudeTick.PairsExactlyOnce | hexagon-animation/claude/sonnet4-20250616.py:302-304 | the nested loops visit every pair i < j < n, and each pair only once |
| ClaudeTick.ApplyPair | hexagon-animation/claude/sonnet4-20250616.py:304 | a meeting replaces balls i and j by its result and leaves every other ball in place |
| ClaudeTick.ResolveAll | hexagon-animation/claude/sonnet4-20250616.py:302-304 | the pair pass applies the pairs one after the other and keeps the number of balls |
| ClaudeTick.ResolveAllAppend | hexagon-animation/claude/sonnet4-20250616.py:302-304 | resolving two runs of pairs one after the other is resolving their concatenation |
| ClaudeTick.MeetRow | hexagon-animation/claude/sonnet4-20250616.py:303-304 | the inner loop resolves row i of the pair list |
| ClaudeTick.ResolvePairs | hexagon-animation/claude/sonnet4-20250616.py:302-304 | the nested loops resolve every pair in lexicographic order, and the ball count is kept |
| ClaudeTick.BallBallKeepsMomentum | hexagon-animation/claude/sonnet4-20250616.py:157-193 | one ball-ball check keeps the pair's total momentum in every branch |
| ClaudeTick.BallMeetConserving | hexagon-animation/claude/sonnet4-20250616.py:157-193 | the ball-ball check keeps radii, the sum of the centres and the total momentum |
| ClaudeTick.ResolveAllConserves | hexagon-animation/claude/sonnet4-20250616.py:302-304 | the whole pair pass keeps every radius, the sum of all centres and the total momentum |
| ClaudeTick.WallPhase | hexagon-animation/claude/sonnet4-20250616.py:298-299 | each ball becomes the result of its own wall loop, and the count is kept |
| ClaudeTick.WallPhaseFails | hexagon-animation/claude/sonnet4-20250616.py:298-299 | the wall pass fails exactly when there is a ball and some edge has zero length |
| ClaudeTick.Fly | hexagon-animation/claude/sonnet4-20250616.py:294-295 | every ball makes one frame of its own free flight, in place, and the count is kept |
| ClaudeTick.Tick | hexagon-animation/claude/sonnet4-20250616.py:289-304 | a frame gives the hexagon the slider's speed and turns it by that speed, and the ball count is kept |
| ClaudeTick.TickFacts | hexagon-animation/claude/sonnet4-20250616.py:289-304 | a frame fails exactly when there is a ball and some side of the hexagon, turned by the slider's speed, has zero length; otherwise the wall pass keeps every radius and never leaves a ball faster than free flight made it, and the pair pass after it keeps every radius, the sum of the centres and the total momentum |
| ClaudeTick.RunAngle | hexagon-animation/claude/sonnet4-20250616.py:289-291 | after a `Run` of frames the angle is the start angle plus the sum of the slider values, the speed is the last slider value, and the ball count is kept |
| ClaudeTick.SteadySlider | hexagon-animation/claude/sonnet4-20250616.py:289-291 | with the slider held at s for n frames, the angle grows by n·s and the rotation speed is s |
| GeminiHexagon.Update | hexagon-animation/gemini-diffusion/20250613/main.py:71-82 | gravity 0.5 is added to the vertical speed before friction 0.98 scales both components; the ball then moves by the new velocity |
| GeminiHexagon.UpdateNIsFlight | hexagon-animation/gemini-diffusion/20250613/main.py:71-82 | n calls of `update` are n frames of the free flight of the ball's position and velocity, with gravity 0.5 and friction 0.98 |
| GeminiHexagon.FreeFlight | hexagon-animation/gemini-diffusion/20250613/main.py:71-82 | after n calls of `update`: 0.98^n lies in (0, 1], below 1 once n > 0; the horizontal speed is 0.98^n times the start; the falling speed closes on 24.5 = 0.98·0.5/0.02 by the same factor; x has moved 49(1 - 0.98^n)·vx and y has moved 24.5·n + 49(1 - 0.98^n)·(vy - 24.5) |
| GeminiHexagon.FrameVertices | hexagon-animation/gemini-diffusion/20250613/main.py:254-257 | six corners; corner i is base corner i (at angle pi/6 + i·pi/3) turned about the centre through the angular speed |
| GeminiHexagon.RotatePointKeepsDistance | hexagon-animation/gemini-diffusion/20250613/main.py:41-49 | `RotatePoint`: turning a point keeps its distance from the centre |
| GeminiHexagon.FrameVerticesOnCircle | hexagon-animation/gemini-diffusion/20250613/main.py:30-38 | every corner of every frame's polygon is 200 from the centre (400, 300) |
| GeminiHexagon.SliderFacts | hexagon-animation/gemini-diffusion/20250613/main.py:243-246 | `UpdateSpeed`, the slider map, and the start-up setting are inverse; settings 0 to 100 give exactly the speeds 0 to 0.05; the map is monotone; the initial speed 0.02 sits at setting 40 |
| GeminiHexagon.ClampT | hexagon-animation/gemini-diffusion/20250613/main.py:110 | `max(0, min(1, t))` is the clamp of t to [0, 1] |
| GeminiHexagon.ClosestFacts | hexagon-animation/gemini-diffusion/20250613/main.py:101-114 | `Closest`: the closest point lies on the side; it is the side's start for a zero-length side; otherwise no point of the side is nearer |
| GeminiHexagon.NormalizeUnit | hexagon-animation/gemini-diffusion/20250613/main.py:140-145 | a non-zero vector divided by its length is a unit vector |
| GeminiHexagon.WallNormalIsUnit | hexagon-animation/gemini-diffusion/20250613/main.py:121-145 | all three branches of `WallNormal` give a unit vector, including the random (±1, ±1) fallback |
| GeminiHexagon.BallNormalIsUnit | hexagon-animation/gemini-diffusion/20250613/main.py:173-188 | both branches of `BallNormal` give a unit vector |
| GeminiFrame.CheckWallCollisionsFirstHit | hexagon-animation/gemini-diffusion/20250613/main.py:87-162 | `CheckWallCollisions` returns True exactly when some side is touched; then the first touched side in corner order is resolved; False leaves the ball unchanged |
| GeminiFrame.ResolveWallVelocity | hexagon-animation/gemini-diffusion/20250613/main.py:147-154 | `ResolveWall`: the normal velocity is reversed and the tangential velocity kept, both scaled by 0.8; the speed squared is scaled by 0.64 |
| GeminiFrame.ResolveWallPosition | hexagon-animation/gemini-diffusion/20250613/main.py:156-159 | the push-out leaves the ball exactly one radius from the closest point |
| GeminiFrame.ReactConserves | hexagon-animation/gemini-diffusion/20250613/main.py:197-214 | `React` keeps the sum of the two velocities and the sum of the two centres |
| GeminiFrame.ReactRelativeVelocity | hexagon-animation/gemini-diffusion/20250613/main.py:197-207 | the relative normal velocity is reversed and scaled by 2.6 when each ball receives the whole impulse, and by the bounce factor 0.8 when each receives half |
| GeminiFrame.WholeShareGainsEnergy | hexagon-animation/gemini-diffusion/20250613/main.py:197-207 | as written, every reaction of two approaching balls raises the sum of their squared speeds |
| GeminiFrame.HalfShareLosesEnergy | hexagon-animation/gemini-diffusion/20250613/main.py:197-207 | with half the impulse to each ball, a reaction never raises the sum of the squared speeds |
| GeminiFrame.ReactSeparates | hexagon-animation/gemini-diffusion/20250613/main.py:209-214 | after a reaction the two centres are exactly 20 apart, so the balls just touch |
| GeminiFrame.CheckBallCollisions | hexagon-animation/gemini-diffusion/20250613/main.py:164-227 | the ball loop for one ball keeps the number of balls |
| GeminiFrame.CheckBallCollisionsFirstPartner | hexagon-animation/gemini-diffusion/20250613/main.py:164-227 | True exactly when some other ball is close and approaching; then only the first such ball in list order reacts; False leaves the list unchanged |
| GeminiFrame.CheckBallCollisionsConserves | hexagon-animation/gemini-diffusion/20250613/main.py:164-227 | the ball check keeps the count, the sum of all velocities and the sum of all centres |
| GeminiFrame.BallTurnTouchesTwo | hexagon-animation/gemini-diffusion/20250613/main.py:264-267 | one ball's turn changes at most one ball besides itself |
| GeminiFrame.BallTurn | hexagon-animation/gemini-diffusion/20250613/main.py:264-267 | one ball's turn (move, walls, other balls) keeps the number of balls |
| GeminiFrame.Animate | hexagon-animation/gemini-diffusion/20250613/main.py:249-267 | a frame keeps the ball count and the angular speed |
| GeminiFrame.FramesKeepSpeed | hexagon-animation/gemini-diffusion/20250613/main.py:249-270 | any number of `Frames` keeps the angular speed and the ball count |
| GeminiFrame.FramesKeepPolygon | hexagon-animation/gemini-diffusion/20250613/main.py:254-257 | every frame draws the same polygon, because the turn does not accumulate |
| GeminiFrame.SetSlider | hexagon-animation/gemini-diffusion/20250613/main.py:243-246 | moving the slider to v keeps the balls, the slider then reads back v, and the speed lies in [0, 0.05] exactly when v lies in [0, 100] |
| SpaceInvaders.CreateInvaders | space-invader-game/gemini-diffusion/20250613/main.py:80-98 | forty invaders, row-major; invader k at (50 + 50·(k mod 8), 50 + 40·(k div 8)), colour (k div 8) mod 5, with a 40 × 30 rect at its position |
| SpaceInvaders.GridLayout | space-invader-game/gemini-diffusion/20250613/main.py:84-88 | the invader of row r and column c sits at (50 + 50c, 50 + 40r) in colour r mod 5 |
| SpaceInvaders.GridFacts | space-invader-game/gemini-diffusion/20250613/main.py:80-98 | the fresh grid has no repeats, every rect matches its invader, and every invader is clear of both side edges and above the player |
| SpaceInvaders.MoveInvaders | space-invader-game/gemini-diffusion/20250613/main.py:152-170 | every invader moves by the speed; if any then meets a side edge, every invader drops 20 and the speed flips; an empty grid does nothing |
| SpaceInvaders.MarchKeepsFormation | space-invader-game/gemini-diffusion/20250613/main.py:152-170 | the march moves the grid rigidly: pairwise offsets are kept, rects stay matched, distinct invaders stay distinct |
| SpaceInvaders.MarchSpeed | space-invader-game/gemini-diffusion/20250613/main.py:166-167 | the march only ever changes the sign of the speed |
| SpaceInvaders.MarchKeepsRows | space-invader-game/gemini-diffusion/20250613/main.py:152-170 | a march keeps every invader's rect top at 10 mod 20, whether the grid turns or not |
| SpaceInvaders.MoveFrom | space-invader-game/gemini-diffusion/20250613/main.py:136-149 | the remove-while-iterating loop never lengthens the list |
| SpaceInvaders.Pass | space-invader-game/gemini-diffusion/20250613/main.py:136-149 | the simpler pass that drops a leaving bullet and skips the next never lengthens the list |
| SpaceInvaders.MoveBulletsIsPass | space-invader-game/gemini-diffusion/20250613/main.py:136-149 | `MoveBullets`: for bullets with distinct spawn rects, the remove-while-iterating loop drops every bullet that leaves and skips the bullet after it for that frame |
| SpaceInvaders.PassNoneGone | space-invader-game/gemini-diffusion/20250613/main.py:136-149 | when no bullet leaves, every bullet moves by the stream's speed and keeps its place |
| SpaceInvaders.PassSkipsExample | space-invader-game/gemini-diffusion/20250613/main.py:136-141 | with two player bullets, the first about to leave, the second is not moved in that frame |
| SpaceInvaders.Target | space-invader-game/gemini-diffusion/20250613/main.py:180-186 | a bullet's target is an invader it meets |
| SpaceInvaders.TargetSpec | space-invader-game/gemini-diffusion/20250613/main.py:180-186 | a bullet has a target exactly when it meets some invader, and the target is the first one it meets |
| SpaceInvaders.Hit | space-invader-game/gemini-diffusion/20250613/main.py:178-186 | one hit invader per scoring bullet, each from the grid |
| SpaceInvaders.HitSpec | space-invader-game/gemini-diffusion/20250613/main.py:178-186 | an invader is hit exactly when it is some bullet's target |
| SpaceInvaders.ScoringSpec | space-invader-game/gemini-diffusion/20250613/main.py:180-186 | a bullet scores exactly when it meets some invader |
| SpaceInvaders.CheckCollisions | space-invader-game/gemini-diffusion/20250613/main.py:173-212 | the score rises by 10 per scoring bullet; no list grows; survivors come from the grid; a game that was over stays over |
| SpaceInvaders.CollisionsBullets | space-invader-game/gemini-diffusion/20250613/main.py:188-190 | the bullets left are exactly the non-scoring ones, in their order |
| SpaceInvaders.CollisionsInvaders | space-invader-game/gemini-diffusion/20250613/main.py:191-193 | on a grid without repeats, the invaders left are exactly those no bullet targeted, in their order, still without repeats |
| SpaceInvaders.CollisionsPlayer | space-invader-game/gemini-diffusion/20250613/main.py:195-212 | the game is over exactly when it was already over, an invader bullet meets the player, or a surviving invader reaches the player's row; the first bullet to meet the player is removed, and no other |
| SpaceInvaders.MoveFromKeepsRects | space-invader-game/gemini-diffusion/20250613/main.py:136-149 | the bullet loop moves positions only: whatever holds of every rect before it holds of every rect after it |
| SpaceInvaders.MoveBulletsKeepShipRow | space-invader-game/gemini-diffusion/20250613/main.py:136-141 | however far the player's bullets climb, their rects stay in the ship's row, at 540 and 20 high |
| SpaceInvaders.MoveInvaderBulletsKeepRects | space-invader-game/gemini-diffusion/20250613/main.py:143-149 | `MoveInvaderBullets` keeps every invader bullet's rect 4 × 15 with its top at a multiple of 20, wherever the bullet has fallen |
| SpaceInvaders.SpawnedScoresOnlyLanded | space-invader-game/gemini-diffusion/20250613/main.py:180-186 | as written, a player's bullet meets an invader only when that invader's rect reaches down to the ship's row |
| SpaceInvaders.SpawnedScoringNeedsLanding | space-invader-game/gemini-diffusion/20250613/main.py:173-212 | as written, the collision pass scores only when some invader has reached the ship's row |
| SpaceInvaders.InvaderBullet | space-invader-game/gemini-diffusion/20250613/main.py:223-235 | an invader's bullet starts 18 right of and 30 below the invader's corner, with a 4 × 15 rect |
| SpaceInvaders.PlayerBullet | space-invader-game/gemini-diffusion/20250613/main.py:270-280 | the player's bullet starts 22 right of the ship at row 540, with a 6 × 20 rect |
| SpaceInvaders.InvaderShoot | space-invader-game/gemini-diffusion/20250613/main.py:215-236 | an empty grid or a draw of 0.01 or more adds nothing; otherwise exactly one bullet is added, fired by some invader of the grid; on a grid whose rect tops sit at 10 mod 20, every invader bullet keeps a 4 × 15 rect with its top at a multiple of 20 |
| SpaceInvaders.SpawnedStrikesOnlyLanded | space-invader-game/gemini-diffusion/20250613/main.py:195-202 | as written, an invader's bullet meets the player only if its rect top is at or below the player's row 540, that is, only if the invader that fired it had reached the ship |
| PyLists.Remove | space-invader-game/gemini-diffusion/20250613/main.py:189-190 | `list.remove` takes out exactly one copy of the value |
| PyLists.RemoveAt | space-invader-game/gemini-diffusion/20250613/main.py:204-206 | when no earlier element equals element k, removing its value removes position k |
| PyLists.RemoveEachOwnFilter | space-invader-game/gemini-diffusion/20250613/main.py:188-190 | removing a list's own matching elements value by value leaves exactly the non-matching ones, in order |
| PyLists.RemoveEachDistinct | space-invader-game/gemini-diffusion/20250613/main.py:191-193 | on a list without repeats, the removal loop keeps exactly the elements not named, in order |
| PyLists.WithoutDistinct | space-invader-game/gemini-diffusion/20250613/main.py:191-193 | dropping elements keeps a list free of repeats |
| InvadersGame.Start | space-invader-game/gemini-diffusion/20250613/main.py:29-65 | the game starts with score 0, not over, no bullets, the ship at column 375 and forty invaders |
| InvadersGame.Press | space-invader-game/gemini-diffusion/20250613/main.py:268-287 | Space fires from the ship unless the game is over; R restarts a finished game but keeps the invaders' direction; any other press changes nothing |
| InvadersGame.Steer | space-invader-game/gemini-diffusion/20250613/main.py:289-295 | the arrow keys move the ship by -8, 0 or 8 |
| InvadersGame.SteerBounds | space-invader-game/gemini-diffusion/20250613/main.py:292-295 | the ship's left edge stays within [-7, 757] |
| InvadersGame.SteerReach | space-invader-game/gemini-diffusion/20250613/main.py:292-295 | from column 375 the ship only ever sits at columns that are 7 mod 8, between -1 and 751 |
| InvadersGame.StartValid | space-invader-game/gemini-diffusion/20250613/main.py:29-65 | the start state satisfies the game invariant |
| InvadersGame.PressValid | space-invader-game/gemini-diffusion/20250613/main.py:268-287 | a key press keeps the game invariant |
| InvadersGame.PressesValid | space-invader-game/gemini-diffusion/20250613/main.py:265-287 | `Presses`: a frame's key presses keep the game invariant |
| InvadersGame.PlayScore | space-invader-game/gemini-diffusion/20250613/main.py:297-308 | a played frame never lowers the score, and the score stays a multiple of ten |
| InvadersGame.PlayGrid | space-invader-game/gemini-diffusion/20250613/main.py:301-308 | a played frame keeps the grid free of repeats, with every rect matching its invader |
| InvadersGame.PlayValid | space-invader-game/gemini-diffusion/20250613/main.py:289-308 | `Play`: a played frame keeps the game invariant |
| InvadersGame.PlayShots | space-invader-game/gemini-diffusion/20250613/main.py:297-308 | a played frame keeps every player bullet's rect in the ship's row |
| InvadersGame.PlayInvaderShots | space-invader-game/gemini-diffusion/20250613/main.py:297-308 | a played frame keeps the grid's rect tops at 10 mod 20 and every invader bullet's rect 4 × 15 with its top at a multiple of 20 |
| InvadersGame.SpawnedPlayScores | space-invader-game/gemini-diffusion/20250613/main.py:297-308 | as written, a played frame raises the score only when the marched grid has reached the ship's row |
| InvadersGame.FrameValid | space-invader-game/gemini-diffusion/20250613/main.py:264-308 | `Frame`: every turn of the main loop keeps the game invariant |
| InvadersGame.PressesScore | space-invader-game/gemini-diffusion/20250613/main.py:281-287 | key presses keep the score or reset it to zero, and keep it when R is not pressed |
| InvadersGame.FrameScore | space-invader-game/gemini-diffusion/20250613/main.py:264-308 | in a turn the score is kept or reset by R, then rises by a multiple of ten |
| InvadersGame.PressesOverStill | space-invader-game/gemini-diffusion/20250613/main.py:268-287 | in a finished game, presses other than R change nothing |
| InvadersGame.GameOverFreezes | space-invader-game/gemini-diffusion/20250613/main.py:289-308 | a finished game stands still until R is pressed |
| InvadersGame.FrameOver | space-invader-game/gemini-diffusion/20250613/main.py:281-289 | pressing R is the only way out of a finished game |
| InvadersGame.RunValid | space-invader-game/gemini-diffusion/20250613/main.py:262-308 | every `Run` of the main loop, over any inputs, keeps the game invariant |
| InvadersGame.RunSplit | space-invader-game/gemini-diffusion/20250613/main.py:262-308 | running the inputs a and then b is running a + b |
| InvadersGame.FireStep | space-invader-game/gemini-diffusion/20250613/main.py:262-308 | from the start, a frame with Space pressed fires from column 397 and moves the shot 10 up, while the grid marches 3 right |
| InvadersGame.VolleyStep | space-invader-game/gemini-diffusion/20250613/main.py:262-308 | while the lone shot meets no invader, each quiet frame moves it 10 up and marches the grid 3 right, with nothing else changing |
| InvadersGame.VolleyRun | space-invader-game/gemini-diffusion/20250613/main.py:262-308 | the same holds across any run of quiet frames in which the shot meets no invader |
| InvadersGame.BelowGrid | space-invader-game/gemini-diffusion/20250613/main.py:152-186 | a shot tested 240 or more down the screen meets no invader of the marching grid, which has not yet turned |
| InvadersGame.SpawnedPassesThrough | space-invader-game/gemini-diffusion/20250613/main.py:124-141 | as written, the shot fired from the start column is drawn at (397, 60) across the invader at (394, 50, 40, 30) 48 frames later, yet it is still flying and nothing has been hit |
| InvadersGame.DrawnTarget | space-invader-game/gemini-diffusion/20250613/main.py:180-186 | tested where it is drawn, the shot's target in frame 31 is invader 37, at (393, 210) |
| InvadersGame.DrawnLastFrame | space-invader-game/gemini-diffusion/20250613/main.py:173-212 | that frame removes the shot and invader 37, scores 10 and the game goes on |
| InvadersGame.DrawnHits | space-invader-game/gemini-diffusion/20250613/main.py:262-308 | tested where it is drawn, the same shot scores 10 in frame 31: the shot and invader 37 go, and the game goes on |
| CarArt.SplitJoin | cat-pixel-art/gemini-diffusion/20250613/main.py:41 | `Split` after `Join`: splitting newline-joined lines that contain no newline gives the lines back |
| CarArt.Split | cat-pixel-art/gemini-diffusion/20250613/main.py:63 | splitting a string on newlines gives at least one line, as Python's `split` does |
| CarArt.OutputX | cat-pixel-art/gemini-diffusion/20250613/main.py:26-33 | the column is 0 for negative positions, 67 for positions that would pass column 80, and the position itself otherwise; it never exceeds 67 |
| CarArt.DrawCarLines | cat-pixel-art/gemini-diffusion/20250613/main.py:8-41 | `DrawCar`: the picture has nine lines, and line i is the clamped column's worth of spaces followed by art line i |
| CarArt.MeasuredWidth | cat-pixel-art/gemini-diffusion/20250613/main.py:63 | the width the main loop measures from the first line of the picture at column 0 is 13 |
| CarArt.DrawCarOverhangs | cat-pixel-art/gemini-diffusion/20250613/main.py:23-31 | for every position past 67, line 1 of the picture is 81 characters wide |
| CarArt.DrawCarFittedFits | cat-pixel-art/gemini-diffusion/20250613/main.py:23-33 | clamping with the widest line, 14, keeps every line of every picture within 80 columns |
| CarArt.Step | cat-pixel-art/gemini-diffusion/20250613/main.py:57-66 | one frame moves the car one column right or sends it back to -13 |
| CarArt.StepRange | cat-pixel-art/gemini-diffusion/20250613/main.py:57-66 | the counter stays within [-13, 80] |
| CarArt.StepsCycle | cat-pixel-art/gemini-diffusion/20250613/main.py:57-66 | n frames on, the counter is n columns further round a cycle of 94 |
| CarArt.CounterFromStart | cat-pixel-art/gemini-diffusion/20250613/main.py:45-66 | starting at 0, the counter stays within range forever and repeats every 94 frames |
| Collatz.Next | collatz_sequence/sonnet4-20250616.cpp:13-17 | an even value is halved exactly and an odd value goes to 3n + 1, for negative values too |
| Collatz.CollatzSequence | collatz_sequence/sonnet4-20250616.cpp:8-22 | a sequence is returned exactly when the orbit reaches 1 within the step budget; it is then the orbit up to and including the first 1 |
| Collatz.SequenceShape | collatz_sequence/sonnet4-20250616.cpp:8-22 | the sequence starts at n, each value is the step of the one before, and it is [1] exactly when n is 1 |
| Collatz.SequenceUnique | collatz_sequence/sonnet4-20250616.cpp:8-22 | every budget that reaches 1 gives the same sequence |
| Collatz.NonPositiveNeverReturns | collatz_sequence/sonnet4-20250616.cpp:11-18 | from 0 or below the loop never reaches 1 |
| Collatz.Report | collatz_sequence/sonnet4-20250616.cpp:43-44 | the step count is the length minus one, and the maximum is an element of the sequence and at least every element |
| Collatz.ReportFacts | collatz_sequence/sonnet4-20250616.cpp:43-44 | for a Collatz sequence the step count is the number of steps from n to 1, and the maximum is at least n |

## Left out

- Floating point: every quantity is an exact `real`, so rounding is not modelled. `math.sqrt` is the parameter `sqrt`, described only by `IsSqrt` (a non-negative root). `cos`, `sin` and `pi` form the `Trig` record; the one law assumed is cos² + sin² = 1.
- Drawing, windows, fonts, sleeping, clearing the screen and terminal output are not modelled. Tk's `after` scheduling and pygame's event queue become sequences of frames and of key presses.
- The Claude program's `Button` and `Slider` widgets and the add-ball button are not modelled. The slider's value is an input to each frame.
- Random starting positions, velocities and colours are not modelled. States are taken as given.
- The Gemini random fallback normal is a pair of booleans per ball and per frame (`FrameCoins`).
- The invaders' shot roll and shooter are inputs to each frame.
- Colours are not modelled: balls carry none, and an invader carries only its palette index.
- `pygame.Rect.colliderect` is the parameter `collide`, because its code is not part of this model. The findings use `Overlap`, the test for rects of positive size that pygame documents.
- A bullet's width and height fields are constants and are dropped; its `rect` is kept as spawned.
- Collatz.CollatzSequence: the source loops without a bound. The model takes a step budget `fuel` and reports `None` when it runs out, so it states nothing about orbits longer than the budget.
- Collatz.Next: C++ `int` is 32 bits, and `n * 3 + 1` overflows for n above 715827882. The model uses unbounded integers, so it does not model that overflow.
- SpaceInvaders.MoveBulletsIsPass: the loop is modelled exactly for every list (`MoveFrom`), but it is related to the simpler pass only when no two bullets share a spawn rect.
- SpaceInvaders.CollisionsInvaders: proved for a grid without repeats, which the game keeps (`InvadersGame.PlayGrid`). For a grid with repeats, `CheckCollisions` is still modelled exactly.
- The Claude program's global `balls` list and hexagon, and the games' module-level variables, are records passed from frame to frame.
- The game's quit event and the `running` flag are not modelled; the model describes single frames.

## Findings

| source | as written | input that shows it | evidently intended | confidence | as-written member | corrected member |
|---|---|---|---|---|---|---|
| cat-pixel-art/gemini-diffusion/20250613/main.py:23-31 | the right-hand clamp measures the car by its first art line, 13 wide, but seven of the nine lines are 14 wide | `draw_car(100)`: the clamp puts the car at column 67, and line 1 is then 67 + 14 = 81 characters on an 80-column screen | clamp with the widest line, so the car stays within 80 columns | high (not executed) | CarArt.DrawCarOverhangs | CarArt.DrawCarFittedFits |
| space-invader-game/gemini-diffusion/20250613/main.py:136-141 | the bullet loops change only `bullet["y"]`, and the collision pass tests `bullet["rect"]`, which stays where the bullet was fired | the ship fires from its start column 375; 48 frames later the bullet is drawn at (397, 60), across the row-0 invader at (394, 50, 40, 30), but its rect is still (397, 540, 6, 20) and nothing is hit | test each bullet where it is drawn: the same shot then hits invader 37, at (393, 210), in frame 31 and scores 10 | high (not executed) | InvadersGame.SpawnedPassesThrough | InvadersGame.DrawnHits |
| hexagon-animation/gemini-diffusion/20250613/main.py:197-207 | the impulse -(1 + 0.8) times the relative normal velocity is added in full to one ball and taken in full from the other, though the comment says equal mass | any two overlapping balls that approach each other: the relative normal velocity is reversed and multiplied by 2.6, and the sum of the squared speeds rises | give each ball half the impulse, so the approach speed is reversed and scaled by the bounce factor 0.8 | high (not executed) | GeminiFrame.WholeShareGainsEnergy | GeminiFrame.HalfShareLosesEnergy |
