# Flappy bird tick logic in Dafny

This project models the per-tick game logic of a small Flappy Bird clone written in Rust
(`src/main.rs`). Three parts are modelled. The bird falls under a capped gravity and is
clamped to [0, 280]. Pillars drift left by 3 per tick. One tick of the game moves
everything, then scans a copy of the pillar list for collisions, resets on a collision or
when the bird leaves (0, 250), retires the front pillar and spawns a new one at 500.

Every `f64` is an exact `real`. The random gap centre of a new pillar is a parameter in
[90, 210). `Game.Update` takes the sequence of values the random source would yield
during that tick. Each reset takes the next value, and so does the spawned pillar.

- `entities.dfy` (module `Entities`): the class `Bird` and its `Update` method. The
  specification function `BirdStep`. The value type `Pillar`, with `Moved` and `NewPillar`.
- `rules.dfy` (module `Rules`): the world as a value (`World`). The tick as a function
  (`MovedAll`, `Scan`, `Tick`). Key presses (`Press`). The lemmas about them.
- `game.dfy` (module `Flappy`): the class `Game`. It owns a `Bird` and a `seq<Pillar>`
  field, and its methods `Update`, `Reset` and `Pressed` mutate them as the Rust methods do.
  The two loops of `Game::update` are the helper methods `MovePillars` and `CheckCollisions`.
  Each method is proved to produce `Tick`, `ResetWorld` or `Press` of its old state. Each
  also keeps the invariant `WellFormed`.

The model keeps these details of the code:
- The loss test uses 250 as the lower bound, while the clamp uses 280.
- The gap test uses the literal 42, not the pillar's `space` field.
- The front pillar is retired before the spawn test runs, so the spawn test sees the
  shortened list.
- A reset inside the collision scan does not stop the scan. The scan runs over a copy
  taken before it started, so later pillars of that copy are tested against the bird at
  140 and can reset the game again. Each such reset takes a fresh gap centre.

## Model

The conditions of the tick are predicates of `Rules`, without contracts of their own, used by the
functions and lemmas below. `InColumn`, `InGap` and `Hits` are the collision test at
src/main.rs:37-38. `OutOfBounds` is the loss test at src/main.rs:45. `Retire` is the retirement
at src/main.rs:49-53 and `SpawnDue` the spawn test at src/main.rs:55-61. `Game.Update` uses the
code's own comparisons, for example `(p.pos - 70.0) < 0.0 && (p.pos + 30.0) - 50.0 > 0.0`, and is
proved to agree with these predicates.

| member | source | states |
|---|---|---|
| Entities.BirdStep | src/main.rs:99-113 | the position always ends in [0, 280]; above 280 or below 0 the bird ends clamped there with velocity 0; otherwise the position is old position + old velocity, and the velocity rises by exactly 1.3 iff it was below 10, else it is unchanged |
| Entities.JumpThenStep | src/main.rs:99-103 | after a jump (velocity -8), a tick without a clamp raises the bird by exactly 8 and leaves velocity -6.7 |
| Entities.Bird.constructor | src/main.rs:174-177 | a bird starts with the given position and velocity |
| Entities.Bird.Update | src/main.rs:99-113 | the in-place field updates produce exactly `BirdStep` of the old state and leave the position in [0, 280] |
| Entities.Pillar.Moved | src/main.rs:157-159 | a pillar moves left by exactly 3; its gap centre and half height are unchanged |
| Entities.NewPillar | src/main.rs:124-130 | a new pillar stands at the requested position, has half height 42 and a gap centre in [90, 210) |
| Rules.ResetWorld | src/main.rs:74-78 | the reset state: bird at 140 with velocity 0, exactly one pillar, at 500, with half height 42 and the drawn gap centre |
| Rules.MovedAll | src/main.rs:32-34 | every pillar of the list moves left by 3, gap and half height unchanged, and the list keeps its length |
| Rules.Scan | src/main.rs:36-43 | a scan over n pillars takes between 0 and n draws, and when it takes none the world is unchanged |
| Rules.ScanNoHit | src/main.rs:36-43 | if the bird hits no pillar of the copy, the scan changes nothing and takes no draw |
| Rules.ScanFromReset | src/main.rs:36-43 | once the world is in the reset state, further resets in the scan keep it in the reset state |
| Rules.ScanHit | src/main.rs:36-43 | if the bird hits some pillar of the copy (20 < pos < 70 and the bird outside the open gap), the scan ends in the reset state |
| Rules.TickOnFailure | src/main.rs:36-47 | if after moving the bird is at 0 or less, at 250 or more, or hits a moved pillar, the tick ends in the reset state |
| Rules.TickOnSuccess | src/main.rs:30-61 | otherwise the bird ends as `BirdStep` left it, strictly inside (0, 250); the front pillar is dropped iff it is below -50; nothing else is dropped or reordered; one pillar at 500 is appended iff the remaining list is empty or its last pillar is below 350 |
| Rules.Tick | src/main.rs:30-61 | one tick of the game; what it does is stated by `TickOnFailure` and `TickOnSuccess`, and its own contract says that after every tick there is at least one pillar |
| Rules.ScanUsedDraws | src/main.rs:36-43 | a scan that consumed a draw ended in the reset state |
| Rules.ScanReadsOnly | src/main.rs:36-43 | a scan over n pillars reads only the n draws from its starting index on |
| Rules.TickReadsAtMost | src/main.rs:30-61 | two draw supplies that agree on their first max(pillars, 1) entries give the same tick |
| Rules.RetireSpawnOrdered | src/main.rs:49-61 | dropping at most the front and appending at most one pillar at 500 keeps an ordered list below 500 ordered |
| Rules.RetireSpawnBuilt | src/main.rs:49-61 | dropping at most the front and appending at most one pillar built by `Pillar::new` keeps every pillar with half height 42 and a gap in [90, 210) |
| Rules.TickKeepsPillarsOrdered | src/main.rs:30-61 | if pillar positions strictly increase and are all at most 500 before a tick, the same holds after it |
| Rules.TickPreservesWellFormed | src/main.rs:30-61 | a tick keeps the bird within [0, 280], the pillars ordered and at most 500, and every pillar's half height 42 with a gap in [90, 210) |
| Rules.Press | src/main.rs:64-72 | Space sets the velocity to exactly -8 and changes nothing else; R gives the reset state; any other button changes nothing |
| Rules.ResetTwice | src/main.rs:69-78 | resetting twice gives the reset state, the same one a single reset with the later draw gives |
| Rules.PressPreservesWellFormed | src/main.rs:64-78 | a key press keeps the game invariant |
| Flappy.Game.constructor | src/main.rs:172-179 | the game starts with the bird at 140 at rest and no pillar, which satisfies the invariant |
| Flappy.Game.Reset | src/main.rs:74-78 | the fields become exactly `ResetWorld` of the drawn gap centre, which satisfies the invariant |
| Flappy.Game.Pressed | src/main.rs:64-72 | the fields become exactly `Press` of the old state, and the invariant is kept |
| Flappy.Game.MovePillars | src/main.rs:32-34 | the loop moves every pillar of the list in place, and the list becomes exactly `MovedAll` of the old one |
| Flappy.Game.CheckCollisions | src/main.rs:36-43 | the loop over the copy, with its resets, leaves exactly the world `Scan` gives and returns the number of draws it took |
| Flappy.Game.Update | src/main.rs:30-62 | moving each pillar in place, the scan of the copy, the bounds reset, `remove(0)` and `push` together produce exactly `Tick` of the old state; the pillar list ends non-empty and the invariant is kept |

## Left out

- `Game::render`, `Bird::render`, `Pillar::render`: drawing through the OpenGL bindings, with no game logic.
- `main`: window creation, the event loop at 30 updates per second and the dispatch of press events. Only the handlers it calls are modelled. The initial state it builds is `Flappy.Game.constructor`.
- The random source: every gap centre it would draw is a parameter constrained to [90, 210). `Game.Update` and `Tick` ask for as many draws as pillars plus two. That is an upper bound, not the most one tick takes: `Rules.TickReadsAtMost` proves that a tick reads only the first max(pillars, 1) of them.
- IEEE-754 rounding of `f64`: all arithmetic is exact, for example repeated `+= 1.3`.
- The `gl` field of `Game`. The pillar field `space` only matters for drawing, so it has no effect on collisions here.
- `Pillar::update` works on a `Vec` element in place. It is modelled as a function on a pillar value, and `Game.Update` replaces that element of its `seq` field. Aliasing between pillars cannot arise, because the pillars are values.
- Rules.TickOnFailure: states that the tick ends in the reset state with some gap centre in [90, 210). It does not say which of the supplied draws was used.
