/** The per-frame rules both versions of the game share: the back-to-front
    pass over the pillars (advance, collide, score, prune) and the whole tick
    built around it, as functions of the session state. Each version supplies
    its own speed, gap and spawn interval laws and its own bird hitbox. */
module GameRules {
  import opened Arena

  /** The bird's collision square: its half side, and whether the in-gap guard
      is applied before the span tests. */
  datatype Hitbox = Hitbox(radius: real, guarded: bool)

  predicate Hits(box: Hitbox, birdY: real, p: Pillar) {
    if box.guarded then GuardedCollides(box.radius, birdY, p)
    else NaiveCollides(box.radius, birdY, p)
  }

  function Last(ps: seq<Pillar>): Pillar
    requires |ps| > 0
  {
    ps[|ps| - 1]
  }

  function Front(ps: seq<Pillar>): seq<Pillar>
    requires |ps| > 0
  {
    ps[..|ps| - 1]
  }

  /** `pillar.x -= pillarSpeed` */
  function Shift(p: Pillar, speed: real): (q: Pillar)
    ensures q.x == p.x - speed
    ensures q.topHeight == p.topHeight && q.bottomY == p.bottomY && q.passed == p.passed
  {
    p.(x := p.x - speed)
  }

  /** The bird has cleared the trailing edge of a pillar not yet scored:
      with the bird at x = 50, its left edge is left of -10. */
  predicate Scores(p: Pillar) {
    !p.passed && BirdX > p.x + PillarWidth
  }

  /** `pillar.passed = true` once scored: the flag is raised exactly when it
      was up already or the bird is right of the pillar; nothing else changes. */
  function Mark(p: Pillar): (q: Pillar)
    ensures q.passed == (p.passed || BirdX > p.x + PillarWidth)
    ensures q == p.(passed := q.passed)
  {
    if Scores(p) then p.(passed := true) else p
  }

  /** Not yet wholly left of the canvas. A pillar that has left it is also
      wholly left of the bird, so it has been or is being scored. */
  function OnScreen(p: Pillar): (b: bool)
    ensures b <==> p.x >= -PillarWidth
    ensures !b ==> p.passed || Scores(p)
  {
    p.x + PillarWidth >= 0.0
  }

  /** Number of pillars whose point is still to be won. */
  function Unpassed(ps: seq<Pillar>): (n: nat)
    ensures n <= |ps|
  {
    if |ps| == 0 then 0 else Unpassed(Front(ps)) + (if Last(ps).passed then 0 else 1)
  }

  /** What the pillar loop leaves behind: the pillar array, the score, and
      whether it stopped on a collision. */
  datatype Outcome = Outcome(pillars: seq<Pillar>, score: nat, hit: bool)

  /** The pillar loop, visiting the last pillar first. Each visit moves the
      pillar by the speed of the score current at that moment (a point won at
      a higher index speeds up every lower index), stops the whole loop on a
      collision with that pillar left moved and all lower indices untouched,
      scores it once, and splices it out when it is wholly off-screen. */
  function Pass(ps: seq<Pillar>, score: nat, speed: nat -> real, box: Hitbox, birdY: real): (r: Outcome)
    ensures |r.pillars| <= |ps|
    ensures score <= r.score <= score + |ps|
    decreases |ps|
  {
    if |ps| == 0 then Outcome([], score, false)
    else
      var moved := Shift(Last(ps), speed(score));
      if Hits(box, birdY, moved) then Outcome(Front(ps) + [moved], score, true)
      else
        var kept := Mark(moved);
        var rest := Pass(Front(ps), if Scores(moved) then score + 1 else score, speed, box, birdY);
        Outcome(rest.pillars + (if OnScreen(kept) then [kept] else []), rest.score, rest.hit)
  }

  /** Reference for a pass that meets no pillar: every pillar moved and scored
      in the same order, none removed. */
  function Advance(ps: seq<Pillar>, score: nat, speed: nat -> real): (r: Outcome)
    ensures |r.pillars| == |ps| && !r.hit
    ensures score <= r.score <= score + |ps|
    decreases |ps|
  {
    if |ps| == 0 then Outcome([], score, false)
    else
      var moved := Shift(Last(ps), speed(score));
      var rest := Advance(Front(ps), if Scores(moved) then score + 1 else score, speed);
      Outcome(rest.pillars + [Mark(moved)], rest.score, false)
  }

  /** The pillars that are not wholly off-screen, in order. */
  function Survivors(ps: seq<Pillar>): (r: seq<Pillar>)
    ensures |r| <= |ps|
    decreases |ps|
  {
    if |ps| == 0 then []
    else Survivors(Front(ps)) + (if OnScreen(Last(ps)) then [Last(ps)] else [])
  }

  /** A pillar q is what p may have become after some ticks: same gap, not
      further right, a point won never taken back and won only once cleared. */
  predicate Evolved(p: Pillar, q: Pillar) {
    && q.topHeight == p.topHeight && q.bottomY == p.bottomY
    && q.x <= p.x
    && (p.passed ==> q.passed)
    && (q.passed && !p.passed ==> BirdX > q.x + PillarWidth)
  }

  lemma {:induction false} UnpassedConcat(a: seq<Pillar>, b: seq<Pillar>)
    ensures Unpassed(a + b) == Unpassed(a) + Unpassed(b)
    decreases |b|
  {
    if |b| == 0 {
      assert a + b == a;
    } else {
      assert Front(a + b) == a + Front(b);
      assert Last(a + b) == Last(b);
      UnpassedConcat(a, Front(b));
    }
  }

  lemma UnpassedOne(p: Pillar)
    ensures Unpassed([p]) == if p.passed then 0 else 1
  {
  }

  /** Each pillar is scored at most once: the score plus the number of
      unscored pillars is the same before and after the pass, so the score
      rises by exactly the number of flags the pass flipped. A pillar spliced
      out has always been scored first, since the bird lies right of it. */
  lemma {:induction false} PassScore(ps: seq<Pillar>, score: nat, speed: nat -> real, box: Hitbox, birdY: real)
    ensures var r := Pass(ps, score, speed, box, birdY);
              r.score + Unpassed(r.pillars) == score + Unpassed(ps)
    decreases |ps|
  {
    if |ps| > 0 {
      var moved := Shift(Last(ps), speed(score));
      assert ps == Front(ps) + [Last(ps)];
      UnpassedConcat(Front(ps), [Last(ps)]);
      UnpassedOne(Last(ps));
      UnpassedOne(moved);
      if Hits(box, birdY, moved) {
        UnpassedConcat(Front(ps), [moved]);
      } else {
        var kept := Mark(moved);
        var next := if Scores(moved) then score + 1 else score;
        PassScore(Front(ps), next, speed, box, birdY);
        var rest := Pass(Front(ps), next, speed, box, birdY);
        UnpassedOne(kept);
        UnpassedConcat(rest.pillars, if OnScreen(kept) then [kept] else []);
      }
    }
  }

  /** A pass that meets no pillar leaves only on-screen pillars, none of
      which the bird touches. */
  lemma {:induction false} PassPrunes(ps: seq<Pillar>, score: nat, speed: nat -> real, box: Hitbox, birdY: real)
    ensures var r := Pass(ps, score, speed, box, birdY);
              !r.hit ==> forall q | q in r.pillars :: OnScreen(q) && !Hits(box, birdY, q)
    decreases |ps|
  {
    if |ps| > 0 {
      var moved := Shift(Last(ps), speed(score));
      if !Hits(box, birdY, moved) {
        PassPrunes(Front(ps), if Scores(moved) then score + 1 else score, speed, box, birdY);
      }
    }
  }

  /** Two hitboxes that agree on every pillar give the same pass: the whole
      loop depends on the collision test only through its verdicts. */
  lemma {:induction false} PassSameHits(ps: seq<Pillar>, score: nat, speed: nat -> real, b1: Hitbox, b2: Hitbox, birdY: real)
    requires b1.radius == b2.radius
    ensures Pass(ps, score, speed, b1, birdY) == Pass(ps, score, speed, b2, birdY)
    decreases |ps|
  {
    if |ps| > 0 {
      var moved := Shift(Last(ps), speed(score));
      assert Hits(b1, birdY, moved) == Hits(b2, birdY, moved);
      PassSameHits(Front(ps), if Scores(moved) then score + 1 else score, speed, b1, b2, birdY);
    }
  }

  /** The pass r stopped at index k: lower indices untouched, the pillar at
      k moved by the speed of r's score and hit. */
  predicate StoppedAt(ps: seq<Pillar>, r: Outcome, k: nat, speed: nat -> real, box: Hitbox, birdY: real) {
    && k < |ps| && k < |r.pillars|
    && r.pillars[..k] == ps[..k]
    && r.pillars[k] == Shift(ps[k], speed(r.score))
    && Hits(box, birdY, r.pillars[k])
  }

  /** A pass that meets a pillar stops there: the pillar hit sits at index k,
      moved by the speed of the final score, and every lower index is exactly
      as it was before the pass. */
  lemma {:induction false} PassStopsAtHit(ps: seq<Pillar>, score: nat, speed: nat -> real, box: Hitbox, birdY: real)
    ensures var r := Pass(ps, score, speed, box, birdY);
              r.hit ==> exists k: nat :: StoppedAt(ps, r, k, speed, box, birdY)
    decreases |ps|
  {
    if |ps| > 0 {
      var r := Pass(ps, score, speed, box, birdY);
      var moved := Shift(Last(ps), speed(score));
      if Hits(box, birdY, moved) {
        var k := |ps| - 1;
        assert r.pillars[..k] == ps[..k];
        assert r.pillars[k] == moved;
        assert StoppedAt(ps, r, k, speed, box, birdY);
      } else {
        var next := if Scores(moved) then score + 1 else score;
        var rest := Pass(Front(ps), next, speed, box, birdY);
        PassStopsAtHit(Front(ps), next, speed, box, birdY);
        var kept := Mark(moved);
        assert r == Outcome(rest.pillars + (if OnScreen(kept) then [kept] else []), rest.score, rest.hit);
        if r.hit {
          var k: nat :| StoppedAt(Front(ps), rest, k, speed, box, birdY);
          assert r.pillars[..k] == rest.pillars[..k];
          assert Front(ps)[..k] == ps[..k];
          assert r.pillars[k] == rest.pillars[k];
          assert StoppedAt(ps, r, k, speed, box, birdY);
        }
      }
    }
  }

  /** Every pillar left by a pass evolved from one that was there before it:
      gaps never change after spawning, pillars only move left, and a flag is
      raised only once the bird is right of the pillar. */
  lemma {:induction false} PassEvolves(ps: seq<Pillar>, score: nat, speed: nat -> real, box: Hitbox, birdY: real)
    requires forall n: nat :: speed(n) >= 0.0
    ensures var r := Pass(ps, score, speed, box, birdY);
              forall q | q in r.pillars :: exists p | p in ps :: Evolved(p, q)
    decreases |ps|
  {
    if |ps| > 0 {
      var r := Pass(ps, score, speed, box, birdY);
      var moved := Shift(Last(ps), speed(score));
      assert Evolved(Last(ps), moved);
      assert Last(ps) in ps;
      if Hits(box, birdY, moved) {
        forall q | q in r.pillars
          ensures exists p | p in ps :: Evolved(p, q)
        {
          if q != moved {
            assert q in Front(ps);
            assert Evolved(q, q);
          }
        }
      } else {
        var next := if Scores(moved) then score + 1 else score;
        var kept := Mark(moved);
        assert Evolved(Last(ps), kept);
        PassEvolves(Front(ps), next, speed, box, birdY);
        var rest := Pass(Front(ps), next, speed, box, birdY);
        assert var r' := Pass(Front(ps), next, speed, box, birdY);
          forall q | q in r'.pillars :: exists p | p in Front(ps) :: Evolved(p, q);
        assert r.pillars == rest.pillars + (if OnScreen(kept) then [kept] else []);
        forall q | q in r.pillars
          ensures exists p | p in ps :: Evolved(p, q)
        {
          if q != kept {
            assert q in rest.pillars;
            var p :| p in Front(ps) && Evolved(p, q);
            assert p in ps;
          }
        }
      }
    }
  }

  /** A pass that meets no pillar equals the reference: advance and score
      every pillar, then drop those wholly off-screen. No other pillar is
      removed and each is visited once. */
  lemma {:induction false} PassIsAdvanceThenPrune(ps: seq<Pillar>, score: nat, speed: nat -> real, box: Hitbox, birdY: real)
    ensures var r := Pass(ps, score, speed, box, birdY);
            var a := Advance(ps, score, speed);
              !r.hit ==> r.pillars == Survivors(a.pillars) && r.score == a.score
    decreases |ps|
  {
    if |ps| > 0 {
      var r := Pass(ps, score, speed, box, birdY);
      var moved := Shift(Last(ps), speed(score));
      if !Hits(box, birdY, moved) {
        var next := if Scores(moved) then score + 1 else score;
        var kept := Mark(moved);
        var rest := Pass(Front(ps), next, speed, box, birdY);
        var aRest := Advance(Front(ps), next, speed);
        PassIsAdvanceThenPrune(Front(ps), next, speed, box, birdY);
        var a := aRest.pillars + [kept];
        assert Advance(ps, score, speed).pillars == a;
        assert Front(a) == aRest.pillars && Last(a) == kept;
        assert Survivors(a) == Survivors(aRest.pillars) + (if OnScreen(kept) then [kept] else []);
        assert r.pillars == rest.pillars + (if OnScreen(kept) then [kept] else []);
      }
    }
  }

  /** In the reference pass, the pillar at index i keeps its gap, moves by the
      speed of the score after the points won at the higher indices (visited
      before it), and is flagged exactly when it was already or the bird is
      now right of its trailing edge. */
  lemma {:induction false} AdvanceAt(ps: seq<Pillar>, score: nat, speed: nat -> real, i: nat)
    requires i < |ps|
    ensures var a := Advance(ps, score, speed).pillars;
              && a[i].topHeight == ps[i].topHeight && a[i].bottomY == ps[i].bottomY
              && Unpassed(a[i + 1..]) <= Unpassed(ps[i + 1..])
              && a[i].x == ps[i].x - speed(score + Unpassed(ps[i + 1..]) - Unpassed(a[i + 1..]))
              && a[i].passed == (ps[i].passed || BirdX > a[i].x + PillarWidth)
    decreases |ps|
  {
    var moved := Shift(Last(ps), speed(score));
    var kept := Mark(moved);
    var next := if Scores(moved) then score + 1 else score;
    var rest := Advance(Front(ps), next, speed).pillars;
    var a := Advance(ps, score, speed).pillars;
    assert a == rest + [kept];
    if i == |ps| - 1 {
      assert a[i] == kept && ps[i] == Last(ps);
      assert a[i + 1..] == [] && ps[i + 1..] == [];
      assert Unpassed(a[i + 1..]) == 0 && Unpassed(ps[i + 1..]) == 0;
      assert a[i].x == ps[i].x - speed(score);
    } else {
      AdvanceAt(Front(ps), next, speed, i);
      AdvanceTail(ps, score, speed, i);
      assert a[i] == rest[i] && Front(ps)[i] == ps[i];
      var seen: nat := next + Unpassed(Front(ps)[i + 1..]) - Unpassed(rest[i + 1..]);
      assert rest[i].x == Front(ps)[i].x - speed(seen);
      assert score + Unpassed(ps[i + 1..]) - Unpassed(a[i + 1..]) == seen;
    }
  }

  /** The bookkeeping step of AdvanceAt: unscored counts of the tails seen
      from the whole sequence and from its front. */
  lemma AdvanceTail(ps: seq<Pillar>, score: nat, speed: nat -> real, i: nat)
    requires i + 1 < |ps|
    ensures var moved := Shift(Last(ps), speed(score));
            var next := if Scores(moved) then score + 1 else score;
            var rest := Advance(Front(ps), next, speed).pillars;
            var a := Advance(ps, score, speed).pillars;
              && Unpassed(a[i + 1..]) == Unpassed(rest[i + 1..]) + Unpassed([Mark(moved)])
              && Unpassed(ps[i + 1..]) == Unpassed(Front(ps)[i + 1..]) + Unpassed([Last(ps)])
              && next - score == Unpassed([Last(ps)]) - Unpassed([Mark(moved)])
  {
    var moved := Shift(Last(ps), speed(score));
    var next := if Scores(moved) then score + 1 else score;
    var rest := Advance(Front(ps), next, speed).pillars;
    var a := Advance(ps, score, speed).pillars;
    assert a == rest + [Mark(moved)];
    assert a[i + 1..] == rest[i + 1..] + [Mark(moved)];
    assert ps[i + 1..] == Front(ps)[i + 1..] + [Last(ps)];
    UnpassedConcat(rest[i + 1..], [Mark(moved)]);
    UnpassedConcat(Front(ps)[i + 1..], [Last(ps)]);
    UnpassedOne(Mark(moved));
    UnpassedOne(Last(ps));
  }

  /** Outcome of a pass over the unvisited prefix, followed by the already
      visited (and possibly thinned) suffix. */
  function Resume(r: Outcome, done: seq<Pillar>): Outcome {
    r.(pillars := r.pillars + done)
  }

  /** One visit of the pass, seen from the end of the unvisited prefix: a
      hit stops the pass, otherwise the rest of the prefix is passed over with
      the updated score, followed by the visited pillar unless pruned. */
  lemma PassLast(front: seq<Pillar>, p: Pillar, score: nat, speed: nat -> real, box: Hitbox, birdY: real)
    ensures var moved := Shift(p, speed(score));
            var r := Pass(front + [p], score, speed, box, birdY);
              && (Hits(box, birdY, moved) ==> r == Outcome(front + [moved], score, true))
              && (!Hits(box, birdY, moved) ==>
                    r == Resume(Pass(front, if Scores(moved) then score + 1 else score, speed, box, birdY),
                                if OnScreen(Mark(moved)) then [Mark(moved)] else []))
  {
  }

  /** The pillar loop as written: `for (i = k - 1; i >= 0; i--)` over the
      array itself, editing pillar i in place and splicing it out. */
  function Sweep(ps: seq<Pillar>, k: nat, score: nat, speed: nat -> real, box: Hitbox, birdY: real): (r: Outcome)
    requires k <= |ps|
    ensures score <= r.score <= score + k
    ensures |ps| - k <= |r.pillars| <= |ps|
    decreases k
  {
    if k == 0 then Outcome(ps, score, false)
    else
      var i := k - 1;
      var moved := Shift(ps[i], speed(score));
      if Hits(box, birdY, moved) then Outcome(ps[i := moved], score, true)
      else
        var kept := Mark(moved);
        Sweep(if OnScreen(kept) then ps[i := kept] else ps[..i] + ps[i + 1..], i,
              if Scores(moved) then score + 1 else score, speed, box, birdY)
  }

  /** The in-place loop over the first k pillars does what the pass over
      them does, leaving the pillars from index k on as they are. */
  lemma {:induction false} SweepIsPass(ps: seq<Pillar>, k: nat, score: nat, speed: nat -> real, box: Hitbox, birdY: real)
    requires k <= |ps|
    ensures Sweep(ps, k, score, speed, box, birdY) == Resume(Pass(ps[..k], score, speed, box, birdY), ps[k..])
    decreases k
  {
    if k == 0 {
      assert ps[..0] == [] && ps[0..] == ps;
    } else {
      var i := k - 1;
      var front := ps[..i];
      assert ps[..k] == front + [ps[i]];
      PassLast(front, ps[i], score, speed, box, birdY);
      var moved := Shift(ps[i], speed(score));
      if Hits(box, birdY, moved) {
        assert ps[i := moved] == front + [moved] + ps[k..];
      } else {
        var kept := Mark(moved);
        var next := if Scores(moved) then score + 1 else score;
        var tail := if OnScreen(kept) then [kept] else [];
        var ps' := if OnScreen(kept) then ps[i := kept] else ps[..i] + ps[i + 1..];
        assert Sweep(ps, k, score, speed, box, birdY) == Sweep(ps', i, next, speed, box, birdY);
        assert ps' == front + (tail + ps[k..]);
        assert ps'[..i] == front && ps'[i..] == tail + ps[k..];
        SweepIsPass(ps', i, next, speed, box, birdY);
        ResumeTwice(Pass(front, next, speed, box, birdY), tail, ps[k..]);
      }
    }
  }

  /** The loop over the whole array is the pass. */
  lemma SweepWhole(ps: seq<Pillar>, score: nat, speed: nat -> real, box: Hitbox, birdY: real)
    ensures Sweep(ps, |ps|, score, speed, box, birdY) == Pass(ps, score, speed, box, birdY)
  {
    SweepIsPass(ps, |ps|, score, speed, box, birdY);
    assert ps[..|ps|] == ps && ps[|ps|..] == [];
    var r := Pass(ps, score, speed, box, birdY);
    assert r.pillars + [] == r.pillars;
  }

  /** One visit of the sweep that does not hit: the pillar at index i is
      moved, flagged if scored, and kept or spliced out. */
  lemma SweepVisit(ps: seq<Pillar>, i: nat, score: nat, speed: nat -> real, box: Hitbox, birdY: real,
                   next: seq<Pillar>, nextScore: nat)
    requires i < |ps|
    requires !Hits(box, birdY, Shift(ps[i], speed(score)))
    requires var kept := Mark(Shift(ps[i], speed(score)));
             next == if OnScreen(kept) then ps[i := kept] else ps[..i] + ps[i + 1..]
    requires nextScore == if Scores(Shift(ps[i], speed(score))) then score + 1 else score
    ensures Sweep(ps, i + 1, score, speed, box, birdY) == Sweep(next, i, nextScore, speed, box, birdY)
  {
  }

  /** A running step, with its pass written as the in-place sweep. */
  lemma StepBySweep(rules: Rules, s: State, now: int, r: real)
    requires 0.0 <= r < 1.0 && s.running
    ensures var ps := if Spawns(rules, s, now) then s.pillars + [NewPillar(rules.gap(s.score), r)] else s.pillars;
            var y := s.birdY + (s.velocity + Gravity);
            var out := Sweep(ps, |ps|, s.score, rules.speed, rules.box, y);
            Step(rules, s, now, r)
              == State(y, s.velocity + Gravity, out.score, out.pillars, !out.hit && 0.0 <= y <= Height,
                       if Spawns(rules, s, now) then now else s.lastPillarTime)
  {
    var ps := if Spawns(rules, s, now) then s.pillars + [NewPillar(rules.gap(s.score), r)] else s.pillars;
    SweepWhole(ps, s.score, rules.speed, rules.box, s.birdY + (s.velocity + Gravity));
  }

  lemma ResumeTwice(r: Outcome, a: seq<Pillar>, b: seq<Pillar>)
    ensures Resume(Resume(r, a), b) == Resume(r, a + b)
  {
  }

  /** A version's parameter laws, as functions of the score. */
  datatype Rules = Rules(speed: nat -> real, gap: nat -> real, interval: nat -> int, box: Hitbox)

  /** The session state the tick reads and writes. */
  datatype State = State(birdY: real, velocity: real, score: nat, pillars: seq<Pillar>,
                         running: bool, lastPillarTime: int)

  /** The state right after start or restart: bird at its start height, at
      rest, no score, no pillars, running, spawn timer set to `now`. */
  function Initial(now: int): (t: State)
    ensures t.running && t.score == 0 && t.pillars == [] && t.lastPillarTime == now
    ensures t.birdY == StartY && t.velocity == 0.0
  {
    State(StartY, 0.0, 0, [], true, now)
  }

  /** The spawn timer has run out at time `now`. */
  predicate Spawns(rules: Rules, s: State, now: int) {
    now - s.lastPillarTime > rules.interval(s.score)
  }

  /** One frame of the loop at clock time `now` with random number r: nothing
      when not running; otherwise spawn on the timer, apply gravity, run the
      pillar pass, and stop on a collision or when the bird leaves the canvas
      vertically. */
  function Step(rules: Rules, s: State, now: int, r: real): (t: State)
    requires 0.0 <= r < 1.0
    ensures !s.running ==> t == s
    ensures s.running ==> t.velocity == s.velocity + Gravity && t.birdY == s.birdY + t.velocity
    ensures t.running ==> s.running && 0.0 <= t.birdY <= Height
    ensures s.score <= t.score && |t.pillars| <= |s.pillars| + 1
    ensures t.lastPillarTime == if s.running && Spawns(rules, s, now) then now else s.lastPillarTime
  {
    if !s.running then s
    else
      var spawn := Spawns(rules, s, now);
      var ps := if spawn then s.pillars + [NewPillar(rules.gap(s.score), r)] else s.pillars;
      var velocity := s.velocity + Gravity;
      var birdY := s.birdY + velocity;
      var pass := Pass(ps, s.score, rules.speed, rules.box, birdY);
      State(birdY, velocity, pass.score, pass.pillars,
            !pass.hit && 0.0 <= birdY <= Height,
            if spawn then now else s.lastPillarTime)
  }

  /** The score never falls, and rises by exactly the number of pillars
      scored in the tick: score plus unscored pillars grows only by the one
      pillar a spawn adds. */
  lemma StepScore(rules: Rules, s: State, now: int, r: real)
    requires 0.0 <= r < 1.0
    ensures var t := Step(rules, s, now, r);
              && s.score <= t.score
              && t.score + Unpassed(t.pillars) ==
                 s.score + Unpassed(s.pillars) + (if s.running && Spawns(rules, s, now) then 1 else 0)
  {
    if s.running {
      var birdY := s.birdY + s.velocity + Gravity;
      if Spawns(rules, s, now) {
        var p := NewPillar(rules.gap(s.score), r);
        UnpassedConcat(s.pillars, [p]);
        UnpassedOne(p);
        PassScore(s.pillars + [p], s.score, rules.speed, rules.box, birdY);
      } else {
        PassScore(s.pillars, s.score, rules.speed, rules.box, birdY);
      }
    }
  }

  /** A tick changes nothing when the game is not running; a game still
      running after a tick has its bird within [0, Height] and every pillar
      on-screen and clear of the bird; a bird that left the canvas vertically
      ends the game. */
  lemma StepEnds(rules: Rules, s: State, now: int, r: real)
    requires 0.0 <= r < 1.0
    ensures var t := Step(rules, s, now, r);
              && (!s.running ==> t == s)
              && (s.running && (t.birdY < 0.0 || t.birdY > Height) ==> !t.running)
              && (t.running ==> s.running && 0.0 <= t.birdY <= Height &&
                                forall q | q in t.pillars :: OnScreen(q) && !Hits(rules.box, t.birdY, q))
  {
    if s.running {
      var birdY := s.birdY + s.velocity + Gravity;
      var ps := if Spawns(rules, s, now) then s.pillars + [NewPillar(rules.gap(s.score), r)] else s.pillars;
      PassPrunes(ps, s.score, rules.speed, rules.box, birdY);
    }
  }

  /** At most one pillar spawns per tick, exactly when the timer has run out,
      and the timer is then reset to `now`. The new pillar is visited first,
      moves by the current speed, and (being far right of the bird) is never
      hit, scored or pruned in that tick, so it ends up last. */
  lemma StepSpawn(rules: Rules, s: State, now: int, r: real)
    requires 0.0 <= r < 1.0
    requires 0.0 <= rules.box.radius && rules.speed(s.score) + rules.box.radius <= Width - BirdX
    ensures var t := Step(rules, s, now, r);
              && |t.pillars| <= |s.pillars| + 1
              && (s.running && Spawns(rules, s, now) ==>
                    && t.lastPillarTime == now
                    && |t.pillars| > 0
                    && Last(t.pillars) == Shift(NewPillar(rules.gap(s.score), r), rules.speed(s.score)))
              && (!(s.running && Spawns(rules, s, now)) ==>
                    t.lastPillarTime == s.lastPillarTime && |t.pillars| <= |s.pillars|)
  {
  }

  /** The first frame after start: the bird has fallen by one gravity step,
      no point is scored and the game goes on; a pillar is present exactly
      when the spawn interval for score 0 has already run out, and then it is
      the new pillar moved once. */
  lemma FirstStep(rules: Rules, now: int, tickNow: int, r: real)
    requires 0.0 <= r < 1.0
    requires 0.0 <= rules.box.radius && rules.speed(0) + rules.box.radius <= Width - BirdX
    ensures var t := Step(rules, Initial(now), tickNow, r);
              t == State(StartY + Gravity, Gravity, 0,
                         if tickNow - now > rules.interval(0)
                         then [Shift(NewPillar(rules.gap(0), r), rules.speed(0))] else [],
                         true,
                         if tickNow - now > rules.interval(0) then tickNow else now)
  {
    var s := Initial(now);
    var y := StartY + Gravity;
    if Spawns(rules, s, tickNow) {
      var p := NewPillar(rules.gap(0), r);
      var moved := Shift(p, rules.speed(0));
      assert Last([p]) == p && Front([p]) == [];
      assert !Overlaps(rules.box.radius, moved);
      assert !Hits(rules.box, y, moved);
      assert !Scores(moved) && OnScreen(moved) && Mark(moved) == moved;
      assert Pass([p], 0, rules.speed, rules.box, y) == Outcome([moved], 0, false);
    } else {
      assert Pass([], 0, rules.speed, rules.box, y) == Outcome([], 0, false);
    }
  }

  /** Gravity is applied to the velocity first and the new velocity to the
      height: right after a jump, the next frame lifts the bird by 7.4. */
  lemma JumpThenStep(rules: Rules, s: State, now: int, r: real)
    requires 0.0 <= r < 1.0 && s.running
    ensures var t := Step(rules, s.(velocity := JumpVelocity), now, r);
              t.velocity == -7.4 && t.birdY == s.birdY - 7.4
  {
  }
}
