# SkiFree game core in Dafny

This project models the game simulation of `skifree.py`, a small Kivy arcade
game. A skier stands near the bottom of the window and steers left and right.
Trees and flags scroll down towards it. Touching a flag scores ten points and
removes the flag. Touching a tree schedules a game over. The Kivy widget tree,
the images and the popups are not modelled; only the state they display is.

The project has two modules.

- `SkiRules` (`ski_rules.dfy`) holds the rules as values and functions:
  - clamping a turn angle, moving the skier and key handling;
  - closed-box collision in the style of Kivy's `collide_widget`;
  - scrolling, retiring and spawning obstacles;
  - one tick of `update` over the whole `GameState`, plus the restart.

  The pass over the obstacle list is defined twice, and a lemma shows the two
  agree. `Sweep` follows the loop step by step, including the `ValueError` of
  a second `list.remove`. `Survivors`/`FlagsCollected`/`TreesHit` describe
  the same pass one obstacle at a time.
- `SkiFree` (`ski_game.dfy`) holds the objects as the source has them: the
  classes `Skier`, `Obstacle` and `SkiGame`, whose methods update their fields
  in place. `SkiGame.obstacles` is a sequence of `Obstacle` references. Each
  obstacle takes itself off that list when it retires, and the game's loop
  walks a snapshot of the list while the list shrinks. Every method is proved
  against the `SkiRules` functions: `SkiGame.Update` leaves exactly the state
  `Tick` computes. The class invariant `Valid` holds between calls: angle in
  [-2, 2], velocity in {-5, 0, 5}, at most five obstacles, each in one of the
  ten grid columns and above the retirement line, a non-negative score that is a multiple of
  ten, and no obstacle listed twice.

Inputs the source takes from its environment become parameters:
- the window width `width`;
- the random row, column and type drawn by `create_map`;
- the sprite sizes that `collide_widget` compares.

Coordinates are integers. A collision is tested in doubled coordinates, so
half sizes stay integral.

Some points where the code behaves in ways one might not expect, which the
model follows:
- The code keeps no crash state. A tree hit does not freeze play. The skier keeps moving, flags still score,
  and every tick that overlaps a tree schedules one more game over.
- `play_restart` re-runs `__init__` on the same object. It cancels neither
  the pending `game_over` callbacks nor the old `update` interval. The count
  of scheduled game overs therefore carries over a restart, and each restart
  adds one more `update` timer (`tickTimers`).
- An `update` after `game_over` has fired still runs in full.

## Model

| member | source | states |
|---|---|---|
| SkiRules.RemoveFirst | skifree.py:48 | `list.remove` of a present element drops exactly one element |
| SkiRules.RemoveFirstAfter | skifree.py:145 | removing an element whose first occurrence follows `a` leaves `a` followed by what came after the element |
| SkiRules.TurnedAngle | skifree.py:24-26 | the turned angle is always in [-2, 2]; it is `angle + direction` when that is in range, otherwise the nearer limit |
| SkiRules.TurnAllStaysInRange | skifree.py:24-26 | any sequence of turns from a legal angle stays in [-2, 2] |
| SkiRules.RightTurnsSaturate | skifree.py:24-26 | `n` right turns give `min(2, angle + n)` |
| SkiRules.LeftTurnsSaturate | skifree.py:24-26 | `n` left turns give `max(-2, angle - n)` |
| SkiRules.TenRightTurnsFromStraight | skifree.py:24-26 | ten right turns from 0 give exactly 2 |
| SkiRules.MovedX | skifree.py:30-35 | the new x is at most `width - 20`, at least 20 when `width >= 40`, exactly `x + v_x` when that is inside the margins, and the margin it crossed otherwise |
| SkiRules.MoveIsIdleAtRest | skifree.py:30-35 | a skier inside the margins with zero velocity does not move |
| SkiRules.KeyDownVelocity | skifree.py:110-114 | keys 97/276 give -5, keys 100/275 give 5, any other key keeps the velocity |
| SkiRules.KeyUpVelocity | skifree.py:116-118 | releasing one of the four steering keys gives 0; any other key keeps the velocity |
| SkiRules.KeysKeepVelocityLegal | skifree.py:110-118 | key events keep the velocity in {-5, 0, 5} |
| SkiRules.PressThenRelease | skifree.py:110-118 | pressing then releasing a steering key stops the skier; for any other key the velocity is unchanged |
| SkiRules.Collide | skifree.py:138 | the four edge tests hold exactly when the centres are within the half-sizes on both axes, edges included |
| SkiRules.CollideSymmetric | skifree.py:138 | collision does not depend on the order of the two boxes |
| SkiRules.RetiredOutOfReach | skifree.py:44-48 | with the sprite sizes bounded, the skier at y = 100 cannot touch an obstacle below -32 |
| SkiRules.PerObstacleAppend | skifree.py:136-145 | the per-obstacle survivors, flag count and tree count of a list extended by one obstacle |
| SkiRules.PrefixStep | skifree.py:136-145 | the flag and tree counts of a prefix grow by the contribution of the next obstacle |
| SkiRules.SweepMatchesPerObstacle | skifree.py:136-145 | the loop fails exactly when some flag is both retired and hit; otherwise it keeps exactly the scrolled survivors, in order, and counts every flag collected and every tree hit |
| SkiRules.SurvivorsShape | skifree.py:136-145 | the pass never adds obstacles; each survivor is a scrolled original still above -32 |
| SkiRules.NoDoubleRemoval | skifree.py:47-48 | with the sprite sizes bounded, the second `list.remove` cannot fail |
| SkiRules.SpawnAtOnGrid | skifree.py:122-124 | the spawned centre is on one of the ten grid columns, its row and column can be read back, and it is above the retirement line |
| SkiRules.SpawnedRespectsCap | skifree.py:120-131 | spawning is a no-op with five or more obstacles; otherwise it appends exactly the new obstacle; the list never goes over five |
| SkiRules.SpawnedKeepsInv | skifree.py:120-131 | spawning keeps the game invariant |
| SkiRules.InitialStateValid | skifree.py:73-79 | the state `__init__` leaves satisfies the invariant |
| SkiRules.RestartedState | skifree.py:159-162 | after a restart: score 0, exactly the one new obstacle, the skier at `(width / 2, 100)` with angle 0 and velocity 0, and the invariant holds |
| SkiRules.AfterPassPreservesInv | skifree.py:134-145 | moving the skier and passing the obstacles keeps the invariant and never lengthens the list |
| SkiRules.AfterPassPerObstacle | skifree.py:134-145 | in a valid state with bounded sprites, the pass cannot fail, equals the per-obstacle pass, and keeps the invariant |
| SkiRules.TickPreservesInv | skifree.py:134-146 | a whole tick keeps the invariant, so the population never exceeds five |
| SkiRules.TickScores | skifree.py:138-145 | a tick adds ten points per flag collected and one game over per tree hit; the score never drops and stays a multiple of ten |
| SkiRules.TickFromEmptySlope | skifree.py:134-146 | from an empty slope one tick spawns exactly one obstacle, on the grid, and changes neither score nor game overs |
| SkiRules.TreeUnderSkier | skifree.py:138-141 | a tree meeting the skier schedules one game over, keeps the score and stays listed |
| SkiRules.FlagUnderSkier | skifree.py:142-145 | a flag meeting the skier adds ten points and is no longer listed |
| SkiRules.TurnAll | skifree.py:24-26 | after at least one `turn` the angle is in [-2, 2]; with no turn it is unchanged (see also `TurnAllStaysInRange` and the saturation lemmas) |
| SkiRules.Scrolled | skifree.py:45 | scrolling keeps the column and type and lowers the centre; a retired obstacle stays retired |
| SkiRules.Retired | skifree.py:46 | an obstacle retires only below the bottom edge of the window (see `RetiredOutOfReach`) |
| SkiRules.SweepStep | skifree.py:137-145 | one iteration fails exactly when the obstacle retires and is a flag hit; it keeps or collects at most this one obstacle and counts at most one hit |
| SkiRules.Sweep | skifree.py:136-145 | the loop keeps or collects each obstacle at most once and counts at most one hit per obstacle (its full content is given by `SweepMatchesPerObstacle`) |
| SkiRules.SpawnAt | skifree.py:122-130 | the spawned obstacle has the drawn type, and its row and column can be read back from its centre (see `SpawnAtOnGrid`) |
| SkiRules.Spawned | skifree.py:120-131 | spawning keeps the old list as a prefix, adds at most one obstacle, and goes over five only if the list already was (see `SpawnedRespectsCap`) |
| SkiRules.AfterPass | skifree.py:134-145 | a successful move and pass keep the skier's height, angle and velocity, never lengthen the list, and never lower the score or the game-over count (see `AfterPassPerObstacle`) |
| SkiRules.Tick | skifree.py:134-146 | a tick fails exactly when its pass fails; otherwise it lists no more than five obstacles unless it started with more, and never lowers the score or the game-over count (see `TickPreservesInv`, `TickScores`) |
| SkiRules.InitialState | skifree.py:73-79 | `__init__` leaves a valid state with an empty slope, score 0 and no game over scheduled |
| SkiRules.Restarted | skifree.py:159-162 | a restart puts the skier back at its start, resets the score, keeps the game-over count and lists exactly one obstacle of the drawn type, row and column (see `RestartedState`) |
| SkiFree.Skier.CollideWidget | skifree.py:138 | the object-level collision test is the value-level `Hits` of the skier's and the obstacle's boxes |
| SkiFree.Skier.constructor | skifree.py:16-22 | a new skier is at `(width / 2, 100)` with angle 0 and velocity 0 |
| SkiFree.Skier.Turn | skifree.py:24-27 | the angle becomes the clamped turn of the old one and stays in [-2, 2]; nothing else changes |
| SkiFree.Skier.Move | skifree.py:30-35 | only `centerX` changes, to the clamped move; it lies inside the margins when `width >= 40` |
| SkiFree.Obstacle.constructor | skifree.py:39-42 | the obstacle belongs to its game and has the given centre and type |
| SkiFree.Obstacle.Update | skifree.py:44-48 | `centerY` drops by `speed[1]`; the obstacle is removed from its game's list exactly when it ends below -32 |
| SkiFree.KeptShape | skifree.py:136-145 | the obstacles kept by the pass come from the snapshot and are listed at most once |
| SkiFree.KeptValues | skifree.py:136-145 | once every snapshot obstacle has scrolled, the kept obstacles hold exactly the surviving values |
| SkiFree.PassStep | skifree.py:136-145 | passing one more snapshot obstacle keeps a survivor in place and otherwise removes exactly that obstacle |
| SkiFree.SkiGame.constructor | skifree.py:73-93 | a new game is valid, starts from the initial state and has scheduled `update` once |
| SkiFree.SkiGame.OnKeyDown | skifree.py:110-114 | only the skier's velocity changes, to the key-down velocity; the game stays valid |
| SkiFree.SkiGame.OnKeyUp | skifree.py:116-118 | only the skier's velocity changes, to the key-up velocity; the game stays valid |
| SkiFree.SkiGame.CreateMap | skifree.py:120-132 | the state becomes the spawned one: unchanged with five or more obstacles, otherwise one fresh obstacle appended after the old list; the game stays valid |
| SkiFree.SkiGame.UpdateObstacle | skifree.py:137-145 | the obstacle scrolls once; it leaves the list if it retired or was a flag hit; the score grows by ten for a flag hit and the game-over count by one for a tree hit |
| SkiFree.SkiGame.PassOne | skifree.py:136-145 | one loop iteration extends the pass of the snapshot's first `i` obstacles to the first `i + 1` |
| SkiFree.SkiGame.PassObstacles | skifree.py:136-145 | after the loop over the snapshot, every snapshot obstacle has scrolled exactly once, the list holds the survivors in their old order, and score and game-over count grow by the flags and trees met |
| SkiFree.SkiGame.PassedNone | skifree.py:136 | before the loop nothing of the snapshot has been passed |
| SkiFree.SkiGame.PassedAll | skifree.py:136-145 | after the last iteration the list holds the kept obstacles of the whole snapshot, each of them scrolled |
| SkiFree.SkiGame.PassedState | skifree.py:134-145 | the object state after the loop is valid and shows the value-level pass of the state before it |
| SkiFree.SkiGame.MoveAndPass | skifree.py:134-145 | moving and passing leaves exactly the state `AfterPass` computes; every old obstacle has scrolled once; no obstacle is added |
| SkiFree.SkiGame.Update | skifree.py:134-146 | one tick leaves exactly the state `Tick` computes and keeps the game valid; every old obstacle has scrolled once; any listed obstacle is old or freshly spawned |
| SkiFree.SkiGame.PlayRestart | skifree.py:159-162 | the game is valid with a fresh skier and the restarted state; scheduled game overs carry over; one more `update` timer is scheduled |

## Left out

- The Kivy widget tree is not modelled: `add_widget`/`remove_widget`/`clear_widgets`, the sprite `source` strings (including the straight and crash images set by `turn` and `update`), the score label text, the background rectangles and their `_update_rect` callbacks, `Popup`, `GameOver`, `exit_app`, `SkiApp` and `Window.bind`. They are UI and foreign framework calls.
- `game_over` and `restart_game` are not modelled. They only open and dismiss popups and schedule `play_restart`. Calls to `Clock` are recorded only as counters: `gameOverScheduled` for `schedule_once(self.game_over, 1)` and `tickTimers` for `schedule_interval(self.update, ...)`. The delays themselves are not modelled.
- `random.randint` and `random.choice` are not modelled. Their results are the `row`, `col` and `kind` parameters of `CreateMap`, `Update` and `PlayRestart`, with `0 <= row, col <= 9`.
- `dt` is not modelled. `update`, `Obstacle.update` and `create_map` ignore it.
- `collide_widget` is Kivy code that is not part of this model. It is modelled as the closed-box test on widget centre and size. The two sprite sizes are parameters, not Kivy's default widget size.
- SkiFree.Skier.constructor: the source centres the skier at `Window.width / 2` in floating point; the model floors it to an integer.
- SkiFree.SkiGame.Update: requires sprite heights small enough that a flag which retires during its own `update` cannot also be hit. Otherwise the source's second `list.remove` raises `ValueError`. That error path is modelled only at value level, as `Err(RemoveMissing)` from `SkiRules.Sweep`/`SkiRules.Tick` (characterised by `SkiRules.SweepMatchesPerObstacle`).
- SkiFree.SkiGame.UpdateObstacle: requires the skier at y = 100 and `speed == [0, 6]`, which `update` always keeps. It also requires the bounded sprite heights of `Update`.
- SkiFree.Obstacle.Update: requires the obstacle to be on its game's list and `speed` to have two entries. The source would raise otherwise, but `update` only calls it for listed obstacles of a live game.
- The skier's back-reference `game` is not modelled, because no core operation reads it.
