/** The playing field shared by both versions of the game: canvas size, the
    bird's fixed column, the pillar record, pillar creation and the two forms
    of the bird-versus-pillar collision test. */
module Arena {

  const Width: real := 360.0         // canvas.width
  const Height: real := 640.0        // canvas.height
  const PillarWidth: real := 60.0
  const MinHeight: real := 100.0     // smallest top-pillar height at spawn
  const Gravity: real := 0.6
  const JumpVelocity: real := -8.0
  const StartY: real := 300.0
  const BirdX: real := 50.0          // the bird only ever moves vertically

  /** One pillar pair: the left edge, the height of the top pillar, the y at
      which the bottom pillar starts, and whether it has been scored. */
  datatype Pillar = Pillar(x: real, topHeight: real, bottomY: real, passed: bool)

  /** Math.random() * d for a random number r in [0, 1). */
  function Scale(r: real, d: real): (v: real)
    requires 0.0 <= r < 1.0
    ensures 0.0 < d ==> 0.0 <= v < d
  {
    assert 0.0 < d ==> (1.0 - r) * d > 0.0;
    r * d
  }

  /** createPillar: a pillar at the right edge of the canvas whose top height
      is drawn from [MinHeight, Height - gap - MinHeight) by the random number
      r in [0, 1) and whose gap is exactly `gap`. */
  function NewPillar(gap: real, r: real): (p: Pillar)
    requires 0.0 <= r < 1.0
    ensures p.x == Width && !p.passed
    ensures p.bottomY - p.topHeight == gap
    ensures gap < Height - 2.0 * MinHeight ==>
              MinHeight <= p.topHeight < Height - MinHeight - gap
  {
    var maxHeight := Height - gap - MinHeight;
    var topHeight := Scale(r, maxHeight - MinHeight) + MinHeight;
    Pillar(Width, topHeight, topHeight + gap, false)
  }

  // The bird is a square of side 2 * radius centred on (BirdX, birdY).

  predicate Overlaps(radius: real, p: Pillar) {
    BirdX + radius > p.x && BirdX - radius < p.x + PillarWidth
  }

  predicate InGap(radius: real, birdY: real, p: Pillar) {
    birdY - radius >= p.topHeight && birdY + radius <= p.bottomY
  }

  predicate TouchesTop(radius: real, birdY: real, p: Pillar) {
    birdY + radius > 0.0 && birdY - radius < p.topHeight
  }

  predicate TouchesBottom(radius: real, birdY: real, p: Pillar) {
    birdY - radius < Height && birdY + radius > p.bottomY
  }

  /** The collision test of the current game: a bird wholly inside the gap is
      let through before the top and bottom spans are checked. The guard never
      changes the outcome: the test is the same as overlap and a touched span. */
  function GuardedCollides(radius: real, birdY: real, p: Pillar): (hit: bool)
    ensures hit <==> Overlaps(radius, p) &&
                     (TouchesTop(radius, birdY, p) || TouchesBottom(radius, birdY, p))
    ensures InGap(radius, birdY, p) ==> !hit
  {
    if Overlaps(radius, p) then
      if !InGap(radius, birdY, p) then
        TouchesTop(radius, birdY, p) || TouchesBottom(radius, birdY, p)
      else false
    else false
  }

  /** The collision test of the earlier game, without the in-gap guard; a bird
      wholly inside the gap still never collides. */
  function NaiveCollides(radius: real, birdY: real, p: Pillar): (hit: bool)
    ensures hit ==> Overlaps(radius, p)
    ensures InGap(radius, birdY, p) ==> !hit
    ensures hit == GuardedCollides(radius, birdY, p)
  {
    if Overlaps(radius, p) then
      TouchesTop(radius, birdY, p) || TouchesBottom(radius, birdY, p)
    else false
  }

  /** A smaller hitbox is more forgiving: whatever it collides with, a larger
      one collides with too. */
  lemma ForgivingRadius(small: real, large: real, birdY: real, p: Pillar)
    requires small <= large
    ensures GuardedCollides(small, birdY, p) ==> GuardedCollides(large, birdY, p)
    ensures InGap(large, birdY, p) ==> InGap(small, birdY, p)
  {
  }

  /** With a hitbox of radius 20 and a pillar over the bird whose gap spans
      [200, 480]: a bird at 300 is let through, one at 190 (top edge 170)
      touches the top pillar. */
  lemma CollisionExamples()
    ensures !GuardedCollides(20.0, 300.0, Pillar(40.0, 200.0, 480.0, false))
    ensures GuardedCollides(20.0, 190.0, Pillar(40.0, 200.0, 480.0, false))
  {
  }
}
