/** The earlier game (birthday-flappy-game/game.js): fixed speed, gap and
    spawn interval, a hitbox of radius 25 checked without the in-gap guard,
    and the session object whose fields start, click, tick and end update. */
module BirthdayFlappy {
  import opened Arena
  import opened GameRules

  const PillarSpeed: real := 2.0
  const PillarGap: real := 200.0
  const PillarInterval: int := 2000   // milliseconds
  const BirdRadius: real := 25.0      // half of the 50x50 sprite
  const Box: Hitbox := Hitbox(BirdRadius, false)

  function FixedSpeed(score: nat): real { PillarSpeed }
  function FixedGap(score: nat): real { PillarGap }
  function FixedInterval(score: nat): int { PillarInterval }

  /** The parameters never depend on the score. */
  const Fixed: Rules := Rules(FixedSpeed, FixedGap, FixedInterval, Box)

  /** What holds of every pillar on the canvas: the fixed gap, a top height
      in the spawn range [100, 340), never right of the spawn edge, and
      flagged only once the bird is right of it. */
  predicate WellFormed(p: Pillar) {
    && p.bottomY - p.topHeight == PillarGap
    && MinHeight <= p.topHeight < Height - MinHeight - PillarGap
    && p.x <= Width
    && (p.passed ==> BirdX > p.x + PillarWidth)
  }

  /** A tick keeps every pillar well formed. */
  lemma StepKeepsWellFormed(s: State, now: int, r: real)
    requires 0.0 <= r < 1.0
    requires forall p | p in s.pillars :: WellFormed(p)
    ensures forall q | q in Step(Fixed, s, now, r).pillars :: WellFormed(q)
  {
    if s.running {
      var ps := if Spawns(Fixed, s, now) then s.pillars + [NewPillar(PillarGap, r)] else s.pillars;
      assert forall p | p in ps :: WellFormed(p);
      var birdY := s.birdY + s.velocity + Gravity;
      assert forall n: nat :: Fixed.speed(n) >= 0.0;
      PassEvolves(ps, s.score, Fixed.speed, Fixed.box, birdY);
      assert var t := Pass(ps, s.score, Fixed.speed, Fixed.box, birdY);
        forall q | q in t.pillars :: exists p | p in ps :: Evolved(p, q);
      var t := Pass(ps, s.score, Fixed.speed, Fixed.box, birdY);
      assert Step(Fixed, s, now, r).pillars == t.pillars;
      forall q | q in t.pillars
        ensures WellFormed(q)
      {
        var p :| p in ps && Evolved(p, q);
      }
    }
  }

  /** Every pillar moved by the fixed speed and scored if cleared. */
  function Moved(ps: seq<Pillar>): (m: seq<Pillar>)
    ensures |m| == |ps|
  {
    seq(|ps|, i requires 0 <= i < |ps| => Mark(Shift(ps[i], PillarSpeed)))
  }

  /** With a speed that does not depend on the score, the order of the visits
      does not matter: the reference pass moves every pillar by exactly 2 and
      flags exactly those the bird has now cleared. */
  lemma AdvanceIsMoved(ps: seq<Pillar>, score: nat)
    ensures Advance(ps, score, FixedSpeed).pillars == Moved(ps)
  {
    var a := Advance(ps, score, FixedSpeed).pillars;
    forall i | 0 <= i < |ps|
      ensures a[i] == Moved(ps)[i]
    {
      AdvanceAt(ps, score, FixedSpeed, i);
    }
  }

  /** A frame that meets no pillar leaves the pillars moved by 2, flagged when
      cleared, and thinned of those wholly off-screen. */
  lemma PassIsMovedThenPruned(ps: seq<Pillar>, score: nat, birdY: real)
    ensures var r := Pass(ps, score, FixedSpeed, Box, birdY);
              !r.hit ==> r.pillars == Survivors(Moved(ps))
  {
    PassIsAdvanceThenPrune(ps, score, FixedSpeed, Box, birdY);
    AdvanceIsMoved(ps, score);
  }

  /** Leaving out the in-gap guard changes nothing: the frame is the same as
      with the guarded test at the same radius. */
  lemma GuardIrrelevant(s: State, now: int, r: real)
    requires 0.0 <= r < 1.0
    ensures Step(Fixed, s, now, r) == Step(Fixed.(box := Hitbox(BirdRadius, true)), s, now, r)
  {
    if s.running {
      var ps := if Spawns(Fixed, s, now) then s.pillars + [NewPillar(PillarGap, r)] else s.pillars;
      PassSameHits(ps, s.score, FixedSpeed, Box, Hitbox(BirdRadius, true), s.birdY + (s.velocity + Gravity));
    }
  }

  /** The first frame of a game: the bird at 300.6 falling at 0.6, no point,
      still running, and a single pillar (moved once, with the 200 gap)
      exactly when more than 2000 ms passed since the start. */
  lemma FirstFrame(now: int, tickNow: int, r: real)
    requires 0.0 <= r < 1.0
    ensures Step(Fixed, Initial(now), tickNow, r)
         == State(300.6, 0.6, 0,
                  if tickNow - now > 2000 then [NewPillar(PillarGap, r).(x := 358.0)] else [],
                  true, if tickNow - now > 2000 then tickNow else now)
  {
    FirstStep(Fixed, now, tickNow, r);
  }

  /** The session: module-level variables of the game, reassigned in place.
      Speed, gap and interval are never reassigned and are constants here. */
  class GameSession {
    var birdY: real
    var velocity: real
    var score: nat
    var pillars: seq<Pillar>
    var running: bool
    var lastPillarTime: int

    ghost predicate Valid()
      reads this
    {
      forall p | p in pillars :: WellFormed(p)
    }

    function Snapshot(): State
      reads this
    {
      State(birdY, velocity, score, pillars, running, lastPillarTime)
    }

    /** The values the variables are declared with, before any game starts. */
    constructor ()
      ensures Valid()
      ensures Snapshot() == State(StartY, 0.0, 0, [], false, 0)
    {
      birdY, velocity, score, pillars := StartY, 0.0, 0, [];
      running := false;
      lastPillarTime := 0;
    }

    /** createPillar: appends one pillar with the fixed gap; the pillars
        already there are untouched. */
    method CreatePillar(r: real)
      requires 0.0 <= r < 1.0
      modifies this`pillars
      ensures pillars == old(pillars) + [NewPillar(PillarGap, r)]
    {
      pillars := pillars + [NewPillar(PillarGap, r)];
    }

    /** endGame (state part). */
    method EndGame()
      modifies this`running
      ensures !running
    {
      running := false;
    }

    /** The click handler (velocity part): ignored unless running; otherwise
        the velocity becomes the jump velocity whatever it was. */
    method Jump()
      modifies this`velocity
      ensures velocity == if running then JumpVelocity else old(velocity)
    {
      if !running {
        return;
      }
      velocity := JumpVelocity;
    }

    /** One pass of the pillar loop's body, at index i: move the pillar by
        the fixed speed; on a collision end the game and report the hit;
        otherwise score it if the bird has just cleared it and splice it out
        if it has left the canvas. */
    method VisitPillar(i: nat) returns (hit: bool)
      requires i < |pillars| && running
      modifies this`pillars, this`score, this`running
      ensures running == !hit && i <= |pillars|
      ensures hit ==>
                Outcome(pillars, score, true) == Sweep(old(pillars), i + 1, old(score), Fixed.speed, Box, birdY)
      ensures !hit ==>
                Sweep(pillars, i, score, Fixed.speed, Box, birdY) == Sweep(old(pillars), i + 1, old(score), Fixed.speed, Box, birdY)
    {
      ghost var before, scoreBefore := pillars, score;
      var pillar := pillars[i];
      pillar := pillar.(x := pillar.x - PillarSpeed);
      pillars := pillars[i := pillar];
      if NaiveCollides(BirdRadius, birdY, pillar) {
        EndGame();
        return true;
      }
      if !pillar.passed && BirdX > pillar.x + PillarWidth {
        pillar := pillar.(passed := true);
        pillars := pillars[i := pillar];
        score := score + 1;
      }
      assert pillars == before[i := pillar];
      if pillar.x + PillarWidth < 0.0 {
        pillars := pillars[..i] + pillars[i + 1..];
        assert pillars == before[..i] + before[i + 1..];
      }
      SweepVisit(before, i, scoreBefore, Fixed.speed, Box, birdY, pillars, score);
      return false;
    }

    /** The pillar loop of loop(), back to front, stopping at the first
        collision: it leaves the pillars and the score the sweep specifies,
        and `hit` tells whether it stopped at a collision. */
    method MovePillars() returns (hit: bool)
      requires running
      modifies this`pillars, this`score, this`running
      ensures Outcome(pillars, score, hit)
           == Sweep(old(pillars), |old(pillars)|, old(score), Fixed.speed, Box, birdY)
      ensures running == !hit
    {
      ghost var target := Sweep(pillars, |pillars|, score, Fixed.speed, Box, birdY);
      var i := |pillars| - 1;
      while i >= 0
        invariant -1 <= i < |pillars|
        invariant running
        invariant Sweep(pillars, i + 1, score, Fixed.speed, Box, birdY) == target
        decreases i
      {
        hit := VisitPillar(i);
        if hit {
          return;
        }
        i := i - 1;
      }
      return false;
    }

    /** loop: one frame at clock time `now` with random number r: spawn a
        pillar when the interval has elapsed, apply gravity, run the pillar
        loop, and end the game if the bird left the canvas. */
    method Tick(now: int, r: real)
      requires Valid() && 0.0 <= r < 1.0
      modifies this
      ensures Valid()
      ensures Snapshot() == Step(Fixed, old(Snapshot()), now, r)
    {
      if !running {
        return;
      }
      ghost var s := Snapshot();

      if now - lastPillarTime > PillarInterval {
        CreatePillar(r);
        lastPillarTime := now;
      }

      velocity := velocity + Gravity;
      birdY := birdY + velocity;

      assert pillars == if Spawns(Fixed, s, now) then s.pillars + [NewPillar(PillarGap, r)] else s.pillars;
      assert birdY == s.birdY + (s.velocity + Gravity);
      var hit := MovePillars();
      ghost var t := Step(Fixed, s, now, r);
      StepBySweep(Fixed, s, now, r);
      StepKeepsWellFormed(s, now, r);
      assert pillars == t.pillars && score == t.score && lastPillarTime == t.lastPillarTime;
      assert forall q | q in pillars :: WellFormed(q);
      if hit {
        return;
      }
      if birdY > Height || birdY < 0.0 {
        EndGame();
      }
    }

    /** startGame (state part): reset the session and run the first frame
        straight away (as `startGame` calls `loop()`). */
    method Start(now: int, tickNow: int, r: real)
      requires 0.0 <= r < 1.0
      modifies this
      ensures Valid()
      ensures Snapshot() == Step(Fixed, Initial(now), tickNow, r)
    {
      birdY, velocity, score, pillars := StartY, 0.0, 0, [];
      lastPillarTime := now;
      running := true;
      assert Snapshot() == Initial(now);
      Tick(tickNow, r);
    }

    /** restartGame (state part): the same reset, then startGame. */
    method Restart(now: int, tickNow: int, r: real)
      requires 0.0 <= r < 1.0
      modifies this
      ensures Valid()
      ensures Snapshot() == Step(Fixed, Initial(now), tickNow, r)
    {
      birdY, velocity, score, pillars := StartY, 0.0, 0, [];
      lastPillarTime := now;
      Start(now, tickNow, r);
    }
  }
}
