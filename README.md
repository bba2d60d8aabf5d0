# Flappy pillar game — a verified model of the game core

The repository holds two versions of a browser game in the Flappy Bird style.
A bird sits at a fixed column (x = 50) of a 360 × 640 canvas. Gravity pulls it
down and a click or tap makes it jump. Pillar pairs with a gap between them
spawn at the right edge on a timer and scroll left. The bird scores a point
for each pillar it clears and the game ends when it touches a pillar or
leaves the canvas vertically.

- `game.js` is the current game. It has three difficulty tiers (speed, gap and
  spawn interval as functions of the score), a square hitbox of radius 20
  (40 pixels wide), and a collision test with an in-gap guard.
- `birthday-flappy-game/game.js` is the earlier game. Its speed is fixed at 2,
  its gap at 200 and its interval at 2000 ms. It uses a hitbox of radius 25
  (the full 50-pixel sprite) and a collision test without the guard.

The model has four modules, one per file:

- `Arena` (`arena.dfy`): canvas and physics constants, the pillar record,
  pillar creation and both collision tests.
- `GameRules` (`game_rules.dfy`): one frame of either game as functions of the
  session state.
  - `Pass` is the back-to-front pillar loop: move, collide, score, splice.
    `Advance`/`Survivors` is an independent reference for it: move and score
    everything, then drop what is off-screen.
  - `Sweep` is the loop as written, index by index over the array.
  - `Step` is the whole frame: spawn on the timer, gravity, the pass, and the
    bounds check.
  - Each version supplies its own `Rules`: its speed, gap and interval laws
    and its hitbox.
- `Flappy` (`flappy.dfy`): `game.js`. It holds the difficulty table and a
  `GameSession` class whose fields are the module-level variables of the
  script. Its methods update those fields in place. `Tick` runs the pillar
  loop as a `while` loop and is proved to produce `Step` of the old state.
- `BirthdayFlappy` (`birthday_flappy.dfy`): the earlier script, in the same form.

Conventions:

- `Date.now()` becomes the `now` parameter and `Math.random()` the parameter
  `r` in [0, 1).
- `startGame` calls `loop()` at once, so `Start` is the reset followed by one
  `Tick`. It takes two clock readings: the reset time and the frame time.
- Lengths are exact reals. `2 * 1.25`, `280 * 0.92` and the other products
  are exact in the model.

The in-gap guard of `game.js` never changes the verdict: `Arena.NaiveCollides`
proves the unguarded test equal to the guarded one at the same radius, and
`BirthdayFlappy.GuardIrrelevant` lifts this to a whole frame. The collision
test of `game.js` is more forgiving only through its smaller radius, which
the script's own comment at game.js:178-179 names as the intent
(`Arena.ForgivingRadius`).

## Model

| member | source | states |
|---|---|---|
| Arena.Scale | game.js:129 | `Math.random() * d` with the random number in [0, 1) lies in [0, d) for a positive d |
| Arena.NewPillar | game.js:126-137 | a new pillar is at the right edge (x = 360), not yet scored, with a gap of exactly the current gap size; when there is room, its top height lies in [100, 640 − 100 − gap) |
| Arena.GuardedCollides | game.js:178-209 | a hit happens exactly when the bird's square overlaps the pillar horizontally and touches the top or bottom span; a bird wholly inside the gap is never hit |
| Arena.NaiveCollides | birthday-flappy-game/game.js:130-151 | the unguarded test hits only on horizontal overlap, never hits a bird inside the gap, and always agrees with the guarded test at the same radius |
| Arena.ForgivingRadius | game.js:178-180 | a smaller hitbox collides with nothing a larger one would miss, and a larger one inside the gap implies the smaller one is too |
| Arena.CollisionExamples | game.js:186-207 | radius 20 with a gap of [200, 480]: a bird at y = 300 passes and a bird at y = 190 touches the top pillar |
| GameRules.Shift | game.js:158 | `pillar.x -= pillarSpeed` moves the pillar left by exactly the speed and changes nothing else |
| GameRules.Scores | game.js:212 | defines the scoring test `!pillar.passed && birdX > pillar.x + pillarWidth`; what it guarantees (a point only once, and only after the bird has cleared the pillar) is proved by `GameRules.Mark`, `GameRules.PassScore` and `GameRules.PassEvolves` |
| GameRules.Mark | game.js:212-213 | the flag is raised exactly when it was already up or the bird is right of the pillar; nothing else changes |
| GameRules.OnScreen | game.js:219 | a pillar is kept exactly when its left edge is at −60 or further right; one that has left the canvas has always been scored, or is scored on this visit |
| GameRules.Pass | game.js:155-222 | the pillar loop never grows the array and raises the score by at most the number of pillars |
| GameRules.Advance | game.js:155-222 | the reference pass keeps every pillar, never collides, and raises the score by at most the number of pillars |
| GameRules.PassScore | game.js:211-216 | each pillar is scored at most once: the score plus the number of unscored pillars is unchanged by the loop, and a spliced pillar has always been scored |
| GameRules.PassPrunes | game.js:218-221 | after a loop without a collision, every pillar left is on-screen and not touching the bird |
| GameRules.PassSameHits | birthday-flappy-game/game.js:137-151 | the loop depends on the collision test only through its verdicts: guarded and naive tests at equal radius give the same outcome |
| GameRules.PassStopsAtHit | game.js:203-207 | a collision stops the loop at some index k: the pillar there has moved and is hit, and every lower index is unchanged |
| GameRules.PassEvolves | game.js:155-222 | every pillar left by the loop comes from one before it with the same top and bottom, not further right, a won point kept, and a new point only once the bird is past it |
| GameRules.PassIsAdvanceThenPrune | game.js:155-222 | a loop without a collision equals the reference: move and score every pillar, then drop exactly those wholly off-screen |
| GameRules.AdvanceAt | game.js:156-216 | in the reference, pillar i keeps its gap, moves by the speed of the score reached after the higher indices were scored, and is flagged exactly when it was before or the bird is now right of it |
| GameRules.Sweep | game.js:156-222 | the for loop as written over the first k slots raises the score by at most k and removes at most k pillars |
| GameRules.SweepIsPass | game.js:156-222 | the index-by-index loop over the first k array slots, with in-place edits and splices, does what the pass over them does and leaves slots k and up alone |
| GameRules.SweepWhole | game.js:156-222 | the loop as written over the whole array is the pass |
| GameRules.SweepVisit | game.js:157-221 | one visit without a collision: pillar i is moved, flagged if just cleared, and kept or spliced out |
| GameRules.Initial | game.js:110-116 | the reset: bird at 300 at rest, score 0, no pillars, running, spawn timer set to the clock reading |
| GameRules.Spawns | game.js:146 | defines the spawn timer test `now - lastPillarTime > pillarInterval`; what it guarantees (at most one pillar per frame, appended last, with the timer reset to `now`) is proved by `GameRules.StepSpawn` |
| GameRules.Step | game.js:139-247 | one frame: nothing changes when not running; otherwise gravity is added to the velocity and the new velocity to the height; the game runs on only with the bird in [0, 640]; the score never falls; at most one pillar is added; the timer is reset exactly when a pillar spawns |
| GameRules.StepBySweep | game.js:139-247 | a running frame spawns on the timer, applies gravity, runs the loop as written, and keeps running only without a collision and with the bird in [0, 640] |
| GameRules.StepScore | game.js:211-216 | the score never falls; score plus unscored pillars grows only by the one pillar a spawn adds |
| GameRules.StepEnds | game.js:240-244 | a frame changes nothing when not running; a bird outside [0, 640] ends the game; a game still running has the bird in bounds and every pillar on-screen and clear of the bird |
| GameRules.StepSpawn | game.js:144-149 | at most one pillar spawns per frame, exactly when the interval has run out; the timer then becomes `now` and the new pillar is last, moved once; otherwise the timer is unchanged and no pillar is added |
| GameRules.FirstStep | game.js:104-124 | the first frame after a start gives the exact state: bird at 300.6 falling at 0.6, score 0, still running, and a single pillar exactly when the interval has already run out |
| GameRules.JumpThenStep | game.js:151-153 | gravity is added to the velocity before the velocity moves the bird, so the frame after a jump lifts the bird by exactly 7.4 |
| Flappy.Difficulty | game.js:85-102 | the tier table: speed 2, gap 280, interval 2000 below 10 points; 2.5, 257.6, 1850 from 10; 3, 238, 1700 from 20; every tier leaves room to place a pillar |
| Flappy.DifficultyMonotone | game.js:85-102 | as the score grows the speed never drops and neither the gap nor the interval grows |
| Flappy.StepKeepsWellFormed | game.js:126-137 | every pillar has one of the three tier gaps, a top height of at least 100 and a bottom edge at y < 540, stays left of the spawn edge, and is flagged only when cleared |
| Flappy.StepKeepsSpawnGap | game.js:126-137 | each pillar keeps its own gap: after a frame, every pillar evolved, with the same top and bottom, either from a pillar that was there before or from the one pillar `NewPillar(TierGap(score), r)` spawned in that frame, and only when the game is running and the timer has run out; a later tier change never resizes a pillar |
| Flappy.LowerIndicesMoveAtNewSpeed | game.js:211-216 | because the tier is recomputed inside the loop, a point won at a higher index makes lower indices move at the new speed in the same frame (2.5 instead of 2 when going from 9 to 10) |
| Flappy.FirstFrame | game.js:104-124 | first frame of a game: bird at 300.6, velocity 0.6, score 0, running, and one pillar with the base gap at x = 358 exactly when more than 2000 ms have passed |
| Flappy.GameSession.constructor | game.js:31-44 | the variables start as declared: bird at 300 at rest, score 0, no pillars, not running, base tier |
| Flappy.GameSession.UpdateDifficulty | game.js:85-102 | the speed, gap and interval fields become the tier of the current score |
| Flappy.GameSession.CreatePillar | game.js:126-137 | appends exactly one new pillar with the current gap and leaves the others untouched |
| Flappy.GameSession.EndGame | game.js:279-280 | the game stops running |
| Flappy.GameSession.Jump | game.js:250-252 | while running the velocity becomes exactly −8 whatever it was; otherwise nothing changes |
| Flappy.GameSession.VisitPillar | game.js:157-221 | one loop body at index i either stops the game at a collision or advances the loop as the sweep specifies, keeping the tier fields equal to the tier of the score |
| Flappy.GameSession.MovePillars | game.js:155-222 | the back-to-front loop leaves the array and score the sweep specifies, and the game runs on exactly when it met no pillar |
| Flappy.GameSession.Tick | game.js:139-247 | one frame turns the session into `Step` of the old session and keeps every pillar well formed and the tier fields in step with the score |
| Flappy.GameSession.Start | game.js:104-124 | starting resets the session and runs its first frame, giving `Step` of the initial state, with the base tier restored |
| Flappy.GameSession.Restart | game.js:290-300 | restarting from any state, ended or not, gives exactly what a fresh start gives |
| BirthdayFlappy.StepKeepsWellFormed | birthday-flappy-game/game.js:78-89 | every pillar keeps the gap 200 and a top height in [100, 340), stays left of the spawn edge, and is flagged only when cleared |
| BirthdayFlappy.AdvanceIsMoved | birthday-flappy-game/game.js:108-110 | with a fixed speed the visiting order does not matter: the reference moves every pillar by exactly 2 and flags those now cleared |
| BirthdayFlappy.PassIsMovedThenPruned | birthday-flappy-game/game.js:107-163 | a frame without a collision leaves every pillar moved by 2, flagged if cleared, minus those wholly off-screen |
| BirthdayFlappy.GuardIrrelevant | birthday-flappy-game/game.js:130-151 | a whole frame with the unguarded test equals the frame with the guarded test at the same radius |
| BirthdayFlappy.FirstFrame | birthday-flappy-game/game.js:59-76 | first frame of a game: bird at 300.6, velocity 0.6, score 0, running, and one pillar with gap 200 at x = 358 exactly when more than 2000 ms have passed |
| BirthdayFlappy.GameSession.constructor | birthday-flappy-game/game.js:7-18 | the variables start as declared: bird at 300 at rest, score 0, no pillars, not running |
| BirthdayFlappy.GameSession.CreatePillar | birthday-flappy-game/game.js:78-89 | appends exactly one new pillar with gap 200 and leaves the others untouched |
| BirthdayFlappy.GameSession.EndGame | birthday-flappy-game/game.js:212-213 | the game stops running |
| BirthdayFlappy.GameSession.Jump | birthday-flappy-game/game.js:190-192 | while running the velocity becomes exactly −8; otherwise nothing changes |
| BirthdayFlappy.GameSession.VisitPillar | birthday-flappy-game/game.js:109-162 | one loop body at index i either stops the game at a collision or advances the loop as the sweep specifies |
| BirthdayFlappy.GameSession.MovePillars | birthday-flappy-game/game.js:107-163 | the back-to-front loop leaves the array and score the sweep specifies, and the game runs on exactly when it met no pillar |
| BirthdayFlappy.GameSession.Tick | birthday-flappy-game/game.js:91-188 | one frame turns the session into `Step` of the old session with the fixed rules and keeps every pillar well formed |
| BirthdayFlappy.GameSession.Start | birthday-flappy-game/game.js:59-76 | starting resets the session and runs its first frame, giving `Step` of the initial state |
| BirthdayFlappy.GameSession.Restart | birthday-flappy-game/game.js:223-232 | restarting from any state gives exactly what a fresh start gives |

## Left out

- Drawing: the canvas, the pillar and bird images with their fallback circle, and the score text. These are output only.
- Audio: background music, bounce and retry sounds, and the resume-on-ended listener. These are side effects with no game state.
- The DOM: menu, retry screen, canvas visibility, and the resizing to the window (`resizeCanvas`, orientation change).
- The end message picked by `Math.random()` from three texts. It is display only and does not affect the state.
- Scheduling by `requestAnimationFrame` and the click/touch listeners. Each frame is one call of `Tick`; each click or tap is one call of `Jump`.
- IEEE-754 rounding of the JavaScript numbers. The model uses exact reals.
- The bird's x coordinate. The scripts only ever set it to 50, so it is the constant `BirdX`.
- Object identity of pillar records. Each pillar is a value in a sequence field, since the scripts never alias a pillar outside the array. The loop's in-place edits become updates of the sequence at index i.
- Two game loops running at once. This happens when a start is triggered while a game is already running, and the model runs one frame at a time.
- `Restart`: `restartGame` reads the clock and then `startGame` reads it again and overwrites the first value. The model takes the second reading as `now`.
