/** The current game (game.js): the difficulty tiers and the session object
    whose fields the start, jump, tick and end operations update in place. */
module Flappy {
  import opened Arena
  import opened GameRules

  const BaseSpeed: real := 2.0
  const BaseGap: real := 280.0
  const BirdRadius: real := 20.0     // smaller than the 25 of the 50x50 sprite
  const Box: Hitbox := Hitbox(BirdRadius, true)

  /** The parameters of one difficulty tier. */
  datatype Tier = Tier(speed: real, gap: real, interval: int)

  /** The tier for a score: base speed, gap and spawn interval below 10
      points, 25% faster with an 8% smaller gap from 10, 50% faster with a 15%
      smaller gap from 20. Every tier leaves room to place a pillar. */
  function Difficulty(score: nat): (t: Tier)
    ensures score < 10 ==> t == Tier(2.0, 280.0, 2000)
    ensures 10 <= score < 20 ==> t == Tier(2.5, 257.6, 1850)
    ensures 20 <= score ==> t == Tier(3.0, 238.0, 1700)
    ensures 0.0 < t.speed && MinHeight < Height - MinHeight - t.gap
  {
    if score >= 20 then Tier(BaseSpeed * 1.5, BaseGap * 0.85, 1700)
    else if score >= 10 then Tier(BaseSpeed * 1.25, BaseGap * 0.92, 1850)
    else Tier(BaseSpeed, BaseGap, 2000)
  }

  /** As the score grows the pillars never slow down, and neither the gap nor
      the spawn interval ever widens. */
  lemma DifficultyMonotone(a: nat, b: nat)
    requires a <= b
    ensures Difficulty(a).speed <= Difficulty(b).speed
    ensures Difficulty(b).gap <= Difficulty(a).gap
    ensures Difficulty(b).interval <= Difficulty(a).interval
  {
  }

  function TierSpeed(score: nat): real { Difficulty(score).speed }
  function TierGap(score: nat): real { Difficulty(score).gap }
  function TierInterval(score: nat): int { Difficulty(score).interval }

  const Tiered: Rules := Rules(TierSpeed, TierGap, TierInterval, Box)

  predicate IsTierGap(g: real) {
    g == Difficulty(0).gap || g == Difficulty(10).gap || g == Difficulty(20).gap
  }

  /** What holds of every pillar on the canvas: its gap is the gap of some
      tier, it was placed in the spawn range, it has not come back right of
      the spawn edge, and it is flagged only once the bird is right of it. */
  predicate WellFormed(p: Pillar) {
    && IsTierGap(p.bottomY - p.topHeight)
    && MinHeight <= p.topHeight && p.bottomY < Height - MinHeight
    && p.x <= Width
    && (p.passed ==> BirdX > p.x + PillarWidth)
  }

  /** A tick keeps every pillar well formed: a spawned pillar gets the gap of
      the current tier, one of the three tier gaps. */
  lemma StepKeepsWellFormed(s: State, now: int, r: real)
    requires 0.0 <= r < 1.0
    requires forall p | p in s.pillars :: WellFormed(p)
    ensures forall q | q in Step(Tiered, s, now, r).pillars :: WellFormed(q)
  {
    if s.running {
      var ps := if Spawns(Tiered, s, now) then s.pillars + [NewPillar(TierGap(s.score), r)] else s.pillars;
      assert forall p | p in ps :: WellFormed(p);
      var birdY := s.birdY + s.velocity + Gravity;
      assert forall n: nat :: Tiered.speed(n) >= 0.0 by {
        forall n: nat ensures Tiered.speed(n) >= 0.0 {
          assert Tiered.speed(n) == Difficulty(n).speed;
        }
      }
      PassEvolves(ps, s.score, Tiered.speed, Tiered.box, birdY);
      assert var t := Pass(ps, s.score, Tiered.speed, Tiered.box, birdY);
        forall q | q in t.pillars :: exists p | p in ps :: Evolved(p, q);
      var t := Pass(ps, s.score, Tiered.speed, Tiered.box, birdY);
      assert Step(Tiered, s, now, r).pillars == t.pillars;
      forall q | q in t.pillars
        ensures WellFormed(q)
      {
        var p :| p in ps && Evolved(p, q);
      }
    }
  }

  /** Each pillar keeps its own gap: after a tick every pillar has evolved
      (same top and bottom) from one that was there before or from the pillar
      spawned in this tick with the gap of the current tier. A pillar keeps
      that gap for its whole life, even when the tier changes later. */
  lemma StepKeepsSpawnGap(s: State, now: int, r: real)
    requires 0.0 <= r < 1.0
    ensures var born := if s.running && Spawns(Tiered, s, now) then [NewPillar(TierGap(s.score), r)] else [];
            forall q | q in Step(Tiered, s, now, r).pillars :: exists p | p in s.pillars + born :: Evolved(p, q)
  {
    if s.running {
      var ps := if Spawns(Tiered, s, now) then s.pillars + [NewPillar(TierGap(s.score), r)] else s.pillars;
      var birdY := s.birdY + s.velocity + Gravity;
      assert forall n: nat :: Tiered.speed(n) >= 0.0 by {
        forall n: nat ensures Tiered.speed(n) >= 0.0 {
          assert Tiered.speed(n) == Difficulty(n).speed;
        }
      }
      PassEvolves(ps, s.score, Tiered.speed, Tiered.box, birdY);
      assert var t := Pass(ps, s.score, Tiered.speed, Tiered.box, birdY);
        forall q | q in t.pillars :: exists p | p in ps :: Evolved(p, q);
      var t := Pass(ps, s.score, Tiered.speed, Tiered.box, birdY);
      assert Step(Tiered, s, now, r).pillars == t.pillars;
      var born := if Spawns(Tiered, s, now) then [NewPillar(TierGap(s.score), r)] else [];
      assert ps == s.pillars + born;
    } else {
      forall q | q in s.pillars
        ensures exists p | p in s.pillars :: Evolved(p, q)
      {
        assert Evolved(q, q);
      }
    }
  }

  /** Because the tier is recomputed inside the pillar loop, a point won at a
      higher index speeds up the pillars at lower indices in the same tick:
      here the last pillar is scored (9 -> 10) and the first then moves by
      2.5 instead of 2. */
  lemma LowerIndicesMoveAtNewSpeed()
    ensures Pass([Pillar(200.0, 200.0, 480.0, false), Pillar(-15.0, 200.0, 480.0, false)],
                 9, TierSpeed, Box, 300.0)
         == Outcome([Pillar(197.5, 200.0, 480.0, false), Pillar(-17.0, 200.0, 480.0, true)], 10, false)
  {
  }

  /** The first frame of a game: the bird at 300.6 falling at 0.6, no point,
      still running, and a single pillar (moved once at base speed, with the
      base gap) exactly when more than 2000 ms passed since the start. */
  lemma FirstFrame(now: int, tickNow: int, r: real)
    requires 0.0 <= r < 1.0
    ensures Step(Tiered, Initial(now), tickNow, r)
         == State(300.6, 0.6, 0,
                  if tickNow - now > 2000 then [NewPillar(BaseGap, r).(x := 358.0)] else [],
                  true, if tickNow - now > 2000 then tickNow else now)
  {
    FirstStep(Tiered, now, tickNow, r);
  }

  /** The session: module-level variables of the game, reassigned in place. */
  class GameSession {
    var birdY: real
    var velocity: real
    var score: nat
    var pillars: seq<Pillar>
    var running: bool
    var pillarSpeed: real
    var pillarGap: real
    var pillarInterval: int
    var lastPillarTime: int

    /** The difficulty fields always hold the tier of the current score, and
        every pillar is well formed. */
    ghost predicate Valid()
      reads this
    {
      && Tier(pillarSpeed, pillarGap, pillarInterval) == Difficulty(score)
      && forall p | p in pillars :: WellFormed(p)
    }

    function Snapshot(): State
      reads this
    {
      State(birdY, velocity, score, pillars, running, lastPillarTime)
    }

    /** The values the variables are declared with, before any game starts. */
    constructor ()
      ensures Valid()
      ensures Snapshot() == State(StartY, 0.0, 0, [], false, 0)
      ensures Tier(pillarSpeed, pillarGap, pillarInterval) == Difficulty(0)
    {
      birdY, velocity, score, pillars := StartY, 0.0, 0, [];
      running := false;
      pillarSpeed, pillarGap, pillarInterval := BaseSpeed, BaseGap, 2000;
      lastPillarTime := 0;
    }

    /** updateDifficulty */
    method UpdateDifficulty()
      modifies this`pillarSpeed, this`pillarGap, this`pillarInterval
      ensures Tier(pillarSpeed, pillarGap, pillarInterval) == Difficulty(score)
    {
      if score >= 20 {
        pillarSpeed := BaseSpeed * 1.5;
        pillarGap := BaseGap * 0.85;
        pillarInterval := 1700;
      } else if score >= 10 {
        pillarSpeed := BaseSpeed * 1.25;
        pillarGap := BaseGap * 0.92;
        pillarInterval := 1850;
      } else {
        pillarSpeed := BaseSpeed;
        pillarGap := BaseGap;
        pillarInterval := 2000;
      }
    }

    /** createPillar: appends one pillar with the current gap; the pillars
        already there are untouched. */
    method CreatePillar(r: real)
      requires 0.0 <= r < 1.0
      modifies this`pillars
      ensures pillars == old(pillars) + [NewPillar(pillarGap, r)]
    {
      pillars := pillars + [NewPillar(pillarGap, r)];
    }

    /** endGame (state part). */
    method EndGame()
      modifies this`running
      ensures !running
    {
      running := false;
    }

    /** handleJump (velocity part): ignored unless running; otherwise the
        velocity becomes the jump velocity whatever it was. */
    method Jump()
      modifies this`velocity
      ensures velocity == if running then JumpVelocity else old(velocity)
    {
      if !running {
        return;
      }
      velocity := JumpVelocity;
    }

    /** One pass of the pillar loop's body, at index i: move the pillar at
        the current tier's speed; on a collision end the game and report the
        hit; otherwise score it if the bird has just cleared it (recomputing
        the tier at once) and splice it out if it has left the canvas. */
    method VisitPillar(i: nat) returns (hit: bool)
      requires i < |pillars| && running
      requires Tier(pillarSpeed, pillarGap, pillarInterval) == Difficulty(score)
      modifies this`pillars, this`score, this`running, this`pillarSpeed, this`pillarGap, this`pillarInterval
      ensures Tier(pillarSpeed, pillarGap, pillarInterval) == Difficulty(score)
      ensures running == !hit && i <= |pillars|
      ensures hit ==>
                Outcome(pillars, score, true) == Sweep(old(pillars), i + 1, old(score), Tiered.speed, Box, birdY)
      ensures !hit ==>
                Sweep(pillars, i, score, Tiered.speed, Box, birdY) == Sweep(old(pillars), i + 1, old(score), Tiered.speed, Box, birdY)
    {
      ghost var before, scoreBefore := pillars, score;
      var pillar := pillars[i];
      assert pillarSpeed == Tiered.speed(score);
      pillar := pillar.(x := pillar.x - pillarSpeed);
      pillars := pillars[i := pillar];
      if GuardedCollides(BirdRadius, birdY, pillar) {
        EndGame();
        return true;
      }
      if !pillar.passed && BirdX > pillar.x + PillarWidth {
        pillar := pillar.(passed := true);
        pillars := pillars[i := pillar];
        score := score + 1;
        UpdateDifficulty();
      }
      assert pillars == before[i := pillar];
      if pillar.x + PillarWidth < 0.0 {
        pillars := pillars[..i] + pillars[i + 1..];
        assert pillars == before[..i] + before[i + 1..];
      }
      SweepVisit(before, i, scoreBefore, Tiered.speed, Box, birdY, pillars, score);
      return false;
    }

    /** The pillar loop of loop(), back to front, stopping at the first
        collision: it leaves the pillars and the score the sweep specifies,
        and `hit` tells whether it stopped at a collision. */
    method MovePillars() returns (hit: bool)
      requires running && Tier(pillarSpeed, pillarGap, pillarInterval) == Difficulty(score)
      modifies this`pillars, this`score, this`running, this`pillarSpeed, this`pillarGap, this`pillarInterval
      ensures Tier(pillarSpeed, pillarGap, pillarInterval) == Difficulty(score)
      ensures Outcome(pillars, score, hit)
           == Sweep(old(pillars), |old(pillars)|, old(score), Tiered.speed, Box, birdY)
      ensures running == !hit
    {
      ghost var target := Sweep(pillars, |pillars|, score, Tiered.speed, Box, birdY);
      var i := |pillars| - 1;
      while i >= 0
        invariant -1 <= i < |pillars|
        invariant running
        invariant Tier(pillarSpeed, pillarGap, pillarInterval) == Difficulty(score)
        invariant Sweep(pillars, i + 1, score, Tiered.speed, Box, birdY) == target
        decreases i
      {
        hit := VisitPillar(i);
        if hit {
          return;
        }
        i := i - 1;
      }
      return false;
    }

    /** loop: one frame at clock time `now` with random number r: spawn a
        pillar when the interval has elapsed, apply gravity, run the pillar
        loop, and end the game if the bird left the canvas. */
    method Tick(now: int, r: real)
      requires Valid() && 0.0 <= r < 1.0
      modifies this
      ensures Valid()
      ensures Snapshot() == Step(Tiered, old(Snapshot()), now, r)
    {
      if !running {
        return;
      }
      ghost var s := Snapshot();
      ghost var spawn := Spawns(Tiered, s, now);
      assert spawn == (now - lastPillarTime > pillarInterval);

      if now - lastPillarTime > pillarInterval {
        CreatePillar(r);
        lastPillarTime := now;
      }

      velocity := velocity + Gravity;
      birdY := birdY + velocity;

      assert pillars == if spawn then s.pillars + [NewPillar(Tiered.gap(s.score), r)] else s.pillars;
      assert birdY == s.birdY + (s.velocity + Gravity);
      var hit := MovePillars();
      ghost var t := Step(Tiered, s, now, r);
      StepBySweep(Tiered, s, now, r);
      StepKeepsWellFormed(s, now, r);
      assert pillars == t.pillars && score == t.score && lastPillarTime == t.lastPillarTime;
      assert forall q | q in pillars :: WellFormed(q);
      if hit {
        return;
      }
      if birdY > Height || birdY < 0.0 {
        EndGame();
      }
    }

    /** startGame (state part): reset the session, recompute the tier, and
        run the first frame straight away (as `startGame` calls `loop()`). */
    method Start(now: int, tickNow: int, r: real)
      requires 0.0 <= r < 1.0
      modifies this
      ensures Valid()
      ensures Snapshot() == Step(Tiered, Initial(now), tickNow, r)
    {
      birdY, velocity, score, pillars := StartY, 0.0, 0, [];
      lastPillarTime := now;
      running := true;
      UpdateDifficulty();
      assert Snapshot() == Initial(now);
      Tick(tickNow, r);
    }

    /** restartGame (state part): the same reset, then startGame. */
    method Restart(now: int, tickNow: int, r: real)
      requires 0.0 <= r < 1.0
      modifies this
      ensures Valid()
      ensures Snapshot() == Step(Tiered, Initial(now), tickNow, r)
    {
      birdY, velocity, score, pillars := StartY, 0.0, 0, [];
      lastPillarTime := now;
      Start(now, tickNow, r);
    }
  }
}
