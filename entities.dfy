/** The two entities of the game: the bird (vertical position and velocity, updated in
    place every tick) and the pillar (horizontal position and the centre of its gap).
    Every f64 of the game is an exact `real` here. */
module Entities {

  /** The random gap centre of a new pillar lies in [90, 210). */
  predicate ValidHole(h: real) {
    90.0 <= h < 210.0
  }

  /** The bird's vertical state; position grows downwards, 0 is the top of the window. */
  datatype BirdState = BirdState(pos: real, velocity: real)

  /** What one call of `Bird::update` does to the bird: move by the velocity, accelerate by
      1.3 while the velocity is below 10, then clamp the position to [0, 280], zeroing the
      velocity whenever a clamp fires. */
  function BirdStep(b: BirdState): (r: BirdState)
    ensures 0.0 <= r.pos <= 280.0
    ensures b.pos + b.velocity > 280.0 ==> r == BirdState(280.0, 0.0)
    ensures b.pos + b.velocity < 0.0 ==> r == BirdState(0.0, 0.0)
    ensures 0.0 <= b.pos + b.velocity <= 280.0 ==>
              r.pos == b.pos + b.velocity &&
              (r.velocity == b.velocity + 1.3 <==> b.velocity < 10.0) &&
              (b.velocity >= 10.0 ==> r.velocity == b.velocity)
  {
    var pos := b.pos + b.velocity;
    var velocity := if b.velocity < 10.0 then b.velocity + 1.3 else b.velocity;
    if pos > 280.0 then BirdState(280.0, 0.0)
    else if pos < 0.0 then BirdState(0.0, 0.0)
    else BirdState(pos, velocity)
  }

  /** A jump sets the velocity to -8; on the next tick the bird rises by exactly 8 and its
      velocity becomes -6.7, provided no clamp fires. */
  lemma JumpThenStep(pos: real)
    requires 8.0 <= pos <= 288.0
    ensures BirdStep(BirdState(pos, -8.0)) == BirdState(pos - 8.0, -6.7)
  {
  }

  class Bird {
    var pos: real
    var velocity: real

    function State(): BirdState
      reads this
    {
      BirdState(pos, velocity)
    }

    constructor (pos: real, velocity: real)
      ensures State() == BirdState(pos, velocity)
    {
      this.pos := pos;
      this.velocity := velocity;
    }

    /** `Bird::update`: the fields are changed step by step, as the game does. */
    method Update()
      modifies this
      ensures State() == BirdStep(old(State()))
      ensures 0.0 <= pos <= 280.0
    {
      pos := pos + velocity;
      if velocity < 10.0 {
        velocity := velocity + 1.3;
      }
      if pos > 280.0 {
        pos := 280.0;
        velocity := 0.0;
      }
      if pos < 0.0 {
        pos := 0.0;
        velocity := 0.0;
      }
    }
  }

  /** A pillar: its left edge `pos`, the centre of its gap `holepos` and the gap's half
      height `space` (which only the drawing code reads). */
  datatype Pillar = Pillar(pos: real, holepos: real, space: real) {

    /** `Pillar::update`: the pillar moves 3 to the left and nothing else changes. */
    function Moved(): (p: Pillar)
      ensures p.pos == pos - 3.0 && p.pos < pos
      ensures p.holepos == holepos && p.space == space
    {
      this.(pos := pos - 3.0)
    }
  }

  /** `Pillar::new(x)`, given the gap centre the random source would draw. */
  function NewPillar(x: real, hole: real): (p: Pillar)
    requires ValidHole(hole)
    ensures p.pos == x && p.space == 42.0
    ensures ValidHole(p.holepos) && p.holepos == hole
  {
    Pillar(x, hole, 42.0)
  }
}
