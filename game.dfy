/** The game object: the bird and the pillar list, updated in place by the tick and by
    key presses, and proved to follow the functions of `Rules`. */
module Flappy {
  import opened Entities
  import opened Rules

  class Game {
    const bird: Bird
    var pillar: seq<Pillar>

    function State(): World
      reads this, bird
    {
      World(bird.State(), pillar)
    }

    ghost predicate Valid()
      reads this, bird
    {
      WellFormed(State())
    }

    /** The game as the program starts it: bird at 140 at rest and no pillar yet. */
    constructor ()
      ensures State() == World(BirdState(140.0, 0.0), [])
      ensures Valid() && fresh(bird)
    {
      bird := new Bird(140.0, 0.0);
      pillar := [];
    }

    /** `Game::reset`; `hole` is the gap centre drawn for the new pillar. */
    method Reset(hole: real)
      requires ValidHole(hole)
      modifies this, bird
      ensures State() == ResetWorld(hole)
      ensures Valid()
    {
      pillar := [NewPillar(500.0, hole)];
      bird.pos := 140.0;
      bird.velocity := 0.0;
    }

    /** `Game::pressed`: Space jumps, R resets, every other button does nothing. */
    method Pressed(btn: Button, hole: real)
      requires ValidHole(hole)
      modifies this, bird
      ensures State() == Press(old(State()), btn, hole)
      ensures old(Valid()) ==> Valid()
    {
      ghost var before := State();
      if btn == Keyboard(Space) {
        bird.velocity := -8.0;
      }
      if btn == Keyboard(R) {
        Reset(hole);
      }
      if WellFormed(before) {
        PressPreservesWellFormed(before, btn, hole);
      }
    }

    /** The first loop of `Game::update`: every pillar of the list moves in place. */
    method MovePillars()
      modifies this
      ensures pillar == MovedAll(old(pillar))
    {
      var n := |pillar|;
      for i := 0 to n
        invariant |pillar| == n
        invariant forall k :: 0 <= k < i ==> pillar[k] == old(pillar[k]).Moved()
        invariant forall k :: i <= k < n ==> pillar[k] == old(pillar[k])
      {
        pillar := pillar[i := pillar[i].Moved()];
      }
    }

    /** The collision loop of `Game::update`. It runs over a copy of the pillar list, so a
        reset inside it does not change what is scanned; `used` counts the draws taken. */
    method CheckCollisions(draws: seq<real>) returns (used: nat)
      requires |pillar| + 2 <= |draws| && ValidDraws(draws)
      modifies this, bird
      ensures Progress(State(), used) == Scan(old(State()), old(pillar), draws, 0)
    {
      ghost var start := State();
      var clone := pillar;
      used := 0;
      for j := 0 to |clone|
        invariant used <= j
        invariant Scan(State(), clone[j..], draws, used) == Scan(start, clone, draws, 0)
      {
        var p := clone[j];
        assert clone[j..][1..] == clone[j + 1..];
        if (p.pos - 70.0) < 0.0 && (p.pos + 30.0) - 50.0 > 0.0 {
          if !(bird.pos > (p.holepos - 42.0) && bird.pos < (p.holepos + 42.0)) {
            Reset(draws[used]);
            used := used + 1;
          }
        }
      }
      assert clone[|clone|..] == [];
    }

    /** `Game::update`; `draws` holds, in order, the gap centres every reset and every new
        pillar of this tick take from the random source. */
    method Update(draws: seq<real>)
      requires |pillar| + 2 <= |draws| && ValidDraws(draws)
      modifies this, bird
      ensures State() == Tick(old(State()), draws)
      ensures pillar != []
      ensures old(Valid()) ==> Valid()
    {
      ghost var before := State();
      bird.Update();
      MovePillars();
      ghost var moved := State();
      assert moved == World(BirdStep(before.bird), MovedAll(before.pillars));
      var used := CheckCollisions(draws);
      ghost var s := Scan(moved, moved.pillars, draws, 0);
      assert State() == s.world && used == s.used;

      ghost var b := if OutOfBounds(s.world.bird.pos) then Progress(ResetWorld(draws[s.used]), s.used + 1) else s;
      if bird.pos <= 0.0 || bird.pos >= 250.0 {
        Reset(draws[used]);
        used := used + 1;
      }
      assert State() == b.world && used == b.used;

      if |pillar| > 0 && pillar[0].pos < -50.0 {
        pillar := pillar[1..];
      }
      assert pillar == Retire(b.world.pillars);

      if |pillar| == 0 || pillar[|pillar| - 1].pos < 350.0 {
        pillar := pillar + [NewPillar(500.0, draws[used])];
      }

      assert State() == Tick(before, draws);
      if WellFormed(before) {
        TickPreservesWellFormed(before, draws);
      }
    }
  }
}
