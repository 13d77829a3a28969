/** The per-tick rules of the game as functions on values: what `Game::update`,
    `Game::reset` and `Game::pressed` do to the world, and the properties of those
    transitions. The `Flappy.Game` class is proved to follow these functions. */
module Rules {
  import opened Entities

  /** The whole game state: the bird and the pillars, oldest (leftmost) first. */
  datatype World = World(bird: BirdState, pillars: seq<Pillar>)

  /** Pillars whose left edge lies strictly between 20 and 70 overlap the bird's column. */
  predicate InColumn(p: Pillar) {
    20.0 < p.pos < 70.0
  }

  /** The bird at height `y` is strictly inside the gap of `p`; the half height used is the
      constant 42, not the pillar's `space` field. */
  predicate InGap(y: real, p: Pillar) {
    p.holepos - 42.0 < y < p.holepos + 42.0
  }

  /** The bird at height `y` collides with `p`. */
  predicate Hits(y: real, p: Pillar) {
    InColumn(p) && !InGap(y, p)
  }

  /** Reaching the top (0) or a height of 250 loses, even though the bird is clamped at 280. */
  predicate OutOfBounds(y: real) {
    y <= 0.0 || y >= 250.0
  }

  /** A supply of values the random source could draw for new pillars. */
  predicate ValidDraws(draws: seq<real>) {
    forall i :: 0 <= i < |draws| ==> ValidHole(draws[i])
  }

  /** The shape of the state right after a reset: bird at 140 at rest, and a single pillar
      at 500 with half height 42 and a gap centre in [90, 210). */
  predicate IsResetState(w: World) {
    && w.bird == BirdState(140.0, 0.0)
    && |w.pillars| == 1
    && w.pillars[0].pos == 500.0
    && w.pillars[0].space == 42.0
    && ValidHole(w.pillars[0].holepos)
  }

  /** `Game::reset`, given the gap centre drawn for its new pillar. */
  function ResetWorld(hole: real): (w: World)
    requires ValidHole(hole)
    ensures IsResetState(w) && w.pillars[0].holepos == hole
  {
    World(BirdState(140.0, 0.0), [NewPillar(500.0, hole)])
  }

  /** Every pillar after one `Pillar::update`. */
  function MovedAll(ps: seq<Pillar>): (r: seq<Pillar>)
    ensures |r| == |ps|
    ensures forall i :: 0 <= i < |ps| ==> r[i].pos == ps[i].pos - 3.0
    ensures forall i :: 0 <= i < |ps| ==> r[i].holepos == ps[i].holepos && r[i].space == ps[i].space
  {
    if ps == [] then [] else [ps[0].Moved()] + MovedAll(ps[1..])
  }

  /** The world and the number of draws consumed so far. */
  datatype Progress = Progress(world: World, used: nat)

  /** The collision scan over a copy `clone` of the pillar list, taken before the scan
      starts: each pillar of the copy that the bird hits resets the world, consuming the
      next draw, and later pillars of the copy are tested against the bird as reset. */
  function Scan(w: World, clone: seq<Pillar>, draws: seq<real>, used: nat): (r: Progress)
    requires used + |clone| <= |draws| && ValidDraws(draws)
    ensures used <= r.used <= used + |clone|
    ensures r.used == used ==> r.world == w
    decreases |clone|
  {
    if clone == [] then Progress(w, used)
    else if Hits(w.bird.pos, clone[0]) then Scan(ResetWorld(draws[used]), clone[1..], draws, used + 1)
    else Scan(w, clone[1..], draws, used)
  }

  /** Retirement: the front pillar goes once its position is below -50. */
  function Retire(ps: seq<Pillar>): (r: seq<Pillar>) {
    if |ps| > 0 && ps[0].pos < -50.0 then ps[1..] else ps
  }

  /** A new pillar is due when there is none, or the last one is below 350. */
  predicate SpawnDue(ps: seq<Pillar>) {
    ps == [] || ps[|ps| - 1].pos < 350.0
  }

  /** One call of `Game::update`: move the bird and every pillar, scan the moved pillars
      for a collision, reset when out of bounds, retire the front pillar, spawn at 500.
      `draws` holds the gap centres the random source yields, in order; `TickReadsAtMost`
      shows that only the first max(|w.pillars|, 1) of them are ever read. What a tick does
      is stated by `TickOnFailure` and `TickOnSuccess`; after any tick there is a pillar. */
  function Tick(w: World, draws: seq<real>): (r: World)
    requires |w.pillars| + 2 <= |draws| && ValidDraws(draws)
    ensures r.pillars != []
  {
    var moved := World(BirdStep(w.bird), MovedAll(w.pillars));
    var s := Scan(moved, moved.pillars, draws, 0);
    var b := if OutOfBounds(s.world.bird.pos) then Progress(ResetWorld(draws[s.used]), s.used + 1) else s;
    var kept := Retire(b.world.pillars);
    if SpawnDue(kept) then World(b.world.bird, kept + [NewPillar(500.0, draws[b.used])])
    else World(b.world.bird, kept)
  }

  /** The tick loses: after moving, the bird is out of bounds or hits a pillar. */
  predicate Failed(w: World) {
    var y := BirdStep(w.bird).pos;
    OutOfBounds(y) || exists p :: p in MovedAll(w.pillars) && Hits(y, p)
  }

  lemma {:induction false} ScanNoHit(w: World, clone: seq<Pillar>, draws: seq<real>, used: nat)
    requires used + |clone| <= |draws| && ValidDraws(draws)
    requires forall p :: p in clone ==> !Hits(w.bird.pos, p)
    ensures Scan(w, clone, draws, used) == Progress(w, used)
    decreases |clone|
  {
    if clone != [] {
      assert clone[0] in clone;
      assert forall p :: p in clone[1..] ==> p in clone;
      ScanNoHit(w, clone[1..], draws, used);
    }
  }

  lemma {:induction false} ScanFromReset(w: World, clone: seq<Pillar>, draws: seq<real>, used: nat)
    requires used + |clone| <= |draws| && ValidDraws(draws)
    requires IsResetState(w)
    ensures IsResetState(Scan(w, clone, draws, used).world)
    decreases |clone|
  {
    if clone != [] {
      if Hits(w.bird.pos, clone[0]) {
        ScanFromReset(ResetWorld(draws[used]), clone[1..], draws, used + 1);
      } else {
        ScanFromReset(w, clone[1..], draws, used);
      }
    }
  }

  lemma {:induction false} ScanHit(w: World, clone: seq<Pillar>, draws: seq<real>, used: nat)
    requires used + |clone| <= |draws| && ValidDraws(draws)
    requires exists p :: p in clone && Hits(w.bird.pos, p)
    ensures IsResetState(Scan(w, clone, draws, used).world)
    decreases |clone|
  {
    if Hits(w.bird.pos, clone[0]) {
      ScanFromReset(ResetWorld(draws[used]), clone[1..], draws, used + 1);
    } else {
      var p :| p in clone && Hits(w.bird.pos, p);
      assert p in clone[1..] by {
        var i :| 0 <= i < |clone| && clone[i] == p;
        assert i != 0;
        assert clone[1..][i - 1] == p;
      }
      ScanHit(w, clone[1..], draws, used);
    }
  }

  /** A losing tick ends in the reset state. */
  lemma TickOnFailure(w: World, draws: seq<real>)
    requires |w.pillars| + 2 <= |draws| && ValidDraws(draws)
    requires Failed(w)
    ensures IsResetState(Tick(w, draws))
  {
    var moved := World(BirdStep(w.bird), MovedAll(w.pillars));
    if exists p :: p in moved.pillars && Hits(moved.bird.pos, p) {
      ScanHit(moved, moved.pillars, draws, 0);
    } else {
      ScanNoHit(moved, moved.pillars, draws, 0);
    }
  }

  /** The pillars before retirement and spawning, `m`, become `t`: the front pillar is
      dropped exactly when it is below -50, the rest is kept in order, and one pillar at 500
      with gap centre `hole` is appended exactly when the kept list is empty or its last
      pillar is below 350. */
  predicate RetiredThenSpawned(m: seq<Pillar>, t: seq<Pillar>, hole: real) {
    var kept := if |m| > 0 && m[0].pos < -50.0 then m[1..] else m;
    && |kept| <= |t| <= |kept| + 1
    && t[..|kept|] == kept
    && (|t| == |kept| + 1 <==> kept == [] || kept[|kept| - 1].pos < 350.0)
    && (|t| == |kept| + 1 ==> t[|kept|] == Pillar(500.0, hole, 42.0))
  }

  /** A tick that does not lose keeps the moved bird strictly inside (0, 250), retires at
      most the front pillar and only when it is below -50, and appends at most one pillar,
      at 500, exactly when the list is empty or its last pillar is below 350. */
  lemma TickOnSuccess(w: World, draws: seq<real>)
    requires |w.pillars| + 2 <= |draws| && ValidDraws(draws)
    requires !Failed(w)
    ensures var t := Tick(w, draws);
            t.bird == BirdStep(w.bird) && 0.0 < t.bird.pos < 250.0
    ensures RetiredThenSpawned(MovedAll(w.pillars), Tick(w, draws).pillars, draws[0])
  {
    var moved := World(BirdStep(w.bird), MovedAll(w.pillars));
    ScanNoHit(moved, moved.pillars, draws, 0);
    var kept := Retire(moved.pillars);
    var t := Tick(w, draws);
    assert !OutOfBounds(moved.bird.pos);
    if SpawnDue(kept) {
      assert t == World(moved.bird, kept + [NewPillar(500.0, draws[0])]);
      assert t.pillars[..|kept|] == kept;
    } else {
      assert t == World(moved.bird, kept);
      assert t.pillars[..|kept|] == kept;
    }
  }

  /** A scan that consumed a draw ended in the reset state. */
  lemma {:induction false} ScanUsedDraws(w: World, clone: seq<Pillar>, draws: seq<real>, used: nat)
    requires used + |clone| <= |draws| && ValidDraws(draws)
    ensures var r := Scan(w, clone, draws, used);
            r.used > used ==> IsResetState(r.world)
    decreases |clone|
  {
    if clone != [] {
      if Hits(w.bird.pos, clone[0]) {
        ScanFromReset(ResetWorld(draws[used]), clone[1..], draws, used + 1);
      } else {
        ScanUsedDraws(w, clone[1..], draws, used);
      }
    }
  }

  /** A scan over n pillars reads no draw outside [used, used + n). */
  lemma {:induction false} ScanReadsOnly(w: World, clone: seq<Pillar>, d1: seq<real>, d2: seq<real>, used: nat)
    requires used + |clone| <= |d1| && ValidDraws(d1)
    requires used + |clone| <= |d2| && ValidDraws(d2)
    requires forall i :: used <= i < used + |clone| ==> d1[i] == d2[i]
    ensures Scan(w, clone, d1, used) == Scan(w, clone, d2, used)
    decreases |clone|
  {
    if clone != [] {
      if Hits(w.bird.pos, clone[0]) {
        ScanReadsOnly(ResetWorld(d1[used]), clone[1..], d1, d2, used + 1);
      } else {
        ScanReadsOnly(w, clone[1..], d1, d2, used);
      }
    }
  }

  /** A tick reads at most max(|w.pillars|, 1) draws: a reset in the scan leaves the bird
      at 140 and a single pillar at 500, so neither the bounds reset nor a spawn follows,
      and without a reset in the scan at most one of those two draws. */
  lemma TickReadsAtMost(w: World, d1: seq<real>, d2: seq<real>)
    requires |w.pillars| + 2 <= |d1| && ValidDraws(d1)
    requires |w.pillars| + 2 <= |d2| && ValidDraws(d2)
    requires forall i :: 0 <= i < (if |w.pillars| == 0 then 1 else |w.pillars|) ==> d1[i] == d2[i]
    ensures Tick(w, d1) == Tick(w, d2)
  {
    var moved := World(BirdStep(w.bird), MovedAll(w.pillars));
    ScanReadsOnly(moved, moved.pillars, d1, d2, 0);
    ScanUsedDraws(moved, moved.pillars, d1, 0);
  }

  /** Pillar positions strictly increase along the list and none is past 500. */
  predicate PillarsOrdered(ps: seq<Pillar>) {
    && (forall i, j :: 0 <= i < j < |ps| ==> ps[i].pos < ps[j].pos)
    && (forall i :: 0 <= i < |ps| ==> ps[i].pos <= 500.0)
  }

  /** Dropping at most the front of an ordered list of pillars below 500 and appending at
      most one pillar at 500 keeps it ordered. */
  lemma {:induction false} RetireSpawnOrdered(m: seq<Pillar>, t: seq<Pillar>, hole: real)
    requires forall i, j :: 0 <= i < j < |m| ==> m[i].pos < m[j].pos
    requires forall i :: 0 <= i < |m| ==> m[i].pos < 500.0
    requires RetiredThenSpawned(m, t, hole)
    ensures PillarsOrdered(t)
  {
    var kept := if |m| > 0 && m[0].pos < -50.0 then m[1..] else m;
    forall i | 0 <= i < |kept|
      ensures t[i] == kept[i]
    {
      assert t[..|kept|][i] == t[i];
    }
    assert forall i :: 0 <= i < |kept| ==> kept[i].pos < 500.0;
    assert forall i, j :: 0 <= i < j < |kept| ==> kept[i].pos < kept[j].pos;
  }

  /** Every tick keeps the pillars ordered: all move by the same -3, retirement drops the
      front, and a new pillar at 500 is only appended behind one below 350. */
  lemma TickKeepsPillarsOrdered(w: World, draws: seq<real>)
    requires |w.pillars| + 2 <= |draws| && ValidDraws(draws)
    requires PillarsOrdered(w.pillars)
    ensures PillarsOrdered(Tick(w, draws).pillars)
  {
    if Failed(w) {
      TickOnFailure(w, draws);
    } else {
      TickOnSuccess(w, draws);
      RetireSpawnOrdered(MovedAll(w.pillars), Tick(w, draws).pillars, draws[0]);
    }
  }

  /** The invariant of a running game: the bird within [0, 280], the pillars ordered, and
      every pillar as `Pillar::new` builds it. */
  predicate WellFormed(w: World) {
    && 0.0 <= w.bird.pos <= 280.0
    && PillarsOrdered(w.pillars)
    && AllBuilt(w.pillars)
  }

  /** Every pillar has half height 42 and a gap centre in [90, 210), as `Pillar::new` builds it. */
  predicate AllBuilt(ps: seq<Pillar>) {
    forall i :: 0 <= i < |ps| ==> ps[i].space == 42.0 && ValidHole(ps[i].holepos)
  }

  /** Dropping at most the front of a list of pillars and appending at most one pillar that
      `Pillar::new` built keeps every pillar as `Pillar::new` builds it. */
  lemma {:induction false} RetireSpawnBuilt(m: seq<Pillar>, t: seq<Pillar>, hole: real)
    requires AllBuilt(m) && ValidHole(hole)
    requires RetiredThenSpawned(m, t, hole)
    ensures AllBuilt(t)
  {
    var kept := if |m| > 0 && m[0].pos < -50.0 then m[1..] else m;
    forall i | 0 <= i < |t|
      ensures t[i].space == 42.0 && ValidHole(t[i].holepos)
    {
      if i < |kept| {
        assert t[i] == t[..|kept|][i];
        assert kept[i] == m[if kept == m then i else i + 1];
      }
    }
  }

  lemma TickPreservesWellFormed(w: World, draws: seq<real>)
    requires |w.pillars| + 2 <= |draws| && ValidDraws(draws)
    requires WellFormed(w)
    ensures WellFormed(Tick(w, draws))
  {
    TickKeepsPillarsOrdered(w, draws);
    if Failed(w) {
      TickOnFailure(w, draws);
    } else {
      TickOnSuccess(w, draws);
      assert ValidHole(draws[0]);
      RetireSpawnBuilt(MovedAll(w.pillars), Tick(w, draws).pillars, draws[0]);
    }
  }

  datatype Key = Space | R | OtherKey
  datatype Button = Keyboard(key: Key) | OtherButton

  /** `Game::pressed`, given the gap centre a reset would draw. */
  function Press(w: World, btn: Button, hole: real): (r: World)
    requires ValidHole(hole)
    ensures btn == Keyboard(Space) ==> r.bird.velocity == -8.0 && r.bird.pos == w.bird.pos && r.pillars == w.pillars
    ensures btn == Keyboard(R) ==> IsResetState(r) && r.pillars[0].holepos == hole
    ensures btn != Keyboard(Space) && btn != Keyboard(R) ==> r == w
  {
    var jumped := if btn == Keyboard(Space) then w.(bird := w.bird.(velocity := -8.0)) else w;
    if btn == Keyboard(R) then ResetWorld(hole) else jumped
  }

  /** Resetting twice leaves the same state as resetting once with the later draw. */
  lemma ResetTwice(w: World, h1: real, h2: real)
    requires ValidHole(h1) && ValidHole(h2)
    ensures Press(Press(w, Keyboard(R), h1), Keyboard(R), h2) == Press(w, Keyboard(R), h2)
    ensures IsResetState(Press(Press(w, Keyboard(R), h1), Keyboard(R), h2))
  {
  }

  /** Pressing a key keeps a well-formed world well-formed. */
  lemma PressPreservesWellFormed(w: World, btn: Button, hole: real)
    requires ValidHole(hole)
    requires WellFormed(w)
    ensures WellFormed(Press(w, btn, hole))
  {
  }
}
