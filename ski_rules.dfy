/** The rules of one SkiFree session, on plain values: how the skier turns,
    moves and steers, how obstacles scroll, retire, collide and score, where
    new obstacles appear, and what one tick of the game loop does to the
    whole game state.  The classes in module SkiFree are proved against
    these functions. */
module SkiRules {

  /** The two obstacle types that `create_map` chooses between. */
  datatype Kind = Tree | Flag

  const AngleLimit: int := 2        // the turn angle is clamped to [-2, 2]
  const EdgeMargin: int := 20       // the skier's centre stays this far inside the window
  const SkierStartY: int := 100     // the skier's centre_y, never changed during play
  const DescentSpeed: int := 6      // speed[1]: how far obstacles scroll down per tick
  const RetireBelow: int := -32     // an obstacle whose centre_y drops below this retires
  const MaxObstacles: nat := 5      // create_map spawns only while fewer are on the slope
  const GridCells: nat := 10        // rows and columns are drawn from 0..9
  const CellSize: int := 64
  const CellOffset: int := 20
  const SpawnAhead: int := 640      // new obstacles appear this far above the grid origin
  const FlagPoints: nat := 10
  const SteerSpeed: int := 5
  const KeyA: int := 97
  const KeyLeft: int := 276
  const KeyD: int := 100
  const KeyRight: int := 275

  function Min(a: int, b: int): int { if a <= b then a else b }
  function Max(a: int, b: int): int { if a >= b then a else b }
  function Abs(a: int): nat { if a < 0 then -a else a }

  // ---------------------------------------------------------------------
  // Lists: Python's list.remove and distinct elements

  /** No element occurs twice. */
  predicate Distinct<T(==)>(s: seq<T>)
    decreases |s|
  {
    s == [] || (s[0] !in s[1..] && Distinct(s[1..]))
  }

  /** In a duplicate-free list, the element at `i` occurs nowhere else. */
  lemma {:induction false} DistinctApart<T>(s: seq<T>, i: int)
    requires Distinct(s) && 0 <= i < |s|
    ensures forall j :: 0 <= j < |s| && j != i ==> s[j] != s[i]
    decreases |s|
  {
    if i == 0 {
      forall j | 0 < j < |s| ensures s[j] != s[0] {
        assert s[j] == s[1..][j - 1];
      }
    } else {
      DistinctApart(s[1..], i - 1);
      forall j | 0 < j < |s| && j != i ensures s[j] != s[i] {
        assert s[j] == s[1..][j - 1] && s[i] == s[1..][i - 1];
      }
      assert s[i] in s[1..];
    }
  }

  /** Appending an element that is not yet listed keeps a list duplicate-free. */
  lemma {:induction false} DistinctAppend<T>(s: seq<T>, x: T)
    requires Distinct(s) && x !in s
    ensures Distinct(s + [x])
    decreases |s|
  {
    if s == [] {
      assert [] + [x] == [x];
      assert [x][1..] == [];
    } else {
      DistinctAppend(s[1..], x);
      assert (s + [x])[1..] == s[1..] + [x];
    }
  }

  /** `list.remove(x)`: drops the first element equal to `x`.  Python raises
      ValueError when `x` is absent; callers here establish that it is present. */
  function RemoveFirst<T(==)>(s: seq<T>, x: T): (r: seq<T>)
    requires x in s
    ensures |r| == |s| - 1
    decreases |s|
  {
    if s[0] == x then s[1..] else [s[0]] + RemoveFirst(s[1..], x)
  }

  /** Removing an element that first occurs right after `a` leaves `a` and
      what followed it. */
  lemma {:induction false} RemoveFirstAfter<T>(a: seq<T>, x: T, b: seq<T>)
    requires x !in a
    ensures RemoveFirst(a + [x] + b, x) == a + b
    decreases |a|
  {
    if a == [] {
      assert a + [x] + b == [x] + b;
    } else {
      assert (a + [x] + b)[0] == a[0];
      assert (a + [x] + b)[1..] == a[1..] + [x] + b;
      RemoveFirstAfter(a[1..], x, b);
      assert [a[0]] + (a[1..] + b) == a + b;
    }
  }

  // ---------------------------------------------------------------------
  // Skier.turn

  /** `angle += direction` followed by `max(-2, min(2, angle))`. */
  function TurnedAngle(angle: int, direction: int): (r: int)
    ensures -AngleLimit <= r <= AngleLimit
    ensures -AngleLimit <= angle + direction <= AngleLimit ==> r == angle + direction
    ensures angle + direction < -AngleLimit ==> r == -AngleLimit
    ensures angle + direction > AngleLimit ==> r == AngleLimit
  {
    Max(-AngleLimit, Min(AngleLimit, angle + direction))
  }

  /** The angle after calling `turn` once per element of `directions`. */
  function TurnAll(angle: int, directions: seq<int>): (r: int)
    ensures directions == [] ==> r == angle
    ensures directions != [] ==> -AngleLimit <= r <= AngleLimit
    decreases |directions|
  {
    if directions == [] then angle
    else TurnAll(TurnedAngle(angle, directions[0]), directions[1..])
  }

  lemma {:induction false} TurnAllStaysInRange(angle: int, directions: seq<int>)
    requires -AngleLimit <= angle <= AngleLimit
    ensures -AngleLimit <= TurnAll(angle, directions) <= AngleLimit
    decreases |directions|
  {
    if directions != [] {
      TurnAllStaysInRange(TurnedAngle(angle, directions[0]), directions[1..]);
    }
  }

  function Repeat(d: int, n: nat): (r: seq<int>)
    ensures |r| == n
  {
    if n == 0 then [] else [d] + Repeat(d, n - 1)
  }

  /** Turning right `n` times saturates at the right limit. */
  lemma {:induction false} RightTurnsSaturate(angle: int, n: nat)
    requires -AngleLimit <= angle <= AngleLimit
    ensures TurnAll(angle, Repeat(1, n)) == Min(AngleLimit, angle + n)
    decreases n
  {
    if n > 0 {
      assert Repeat(1, n)[0] == 1 && Repeat(1, n)[1..] == Repeat(1, n - 1);
      RightTurnsSaturate(TurnedAngle(angle, 1), n - 1);
    }
  }

  /** Turning left `n` times saturates at the left limit. */
  lemma {:induction false} LeftTurnsSaturate(angle: int, n: nat)
    requires -AngleLimit <= angle <= AngleLimit
    ensures TurnAll(angle, Repeat(-1, n)) == Max(-AngleLimit, angle - n)
    decreases n
  {
    if n > 0 {
      assert Repeat(-1, n)[0] == -1 && Repeat(-1, n)[1..] == Repeat(-1, n - 1);
      LeftTurnsSaturate(TurnedAngle(angle, -1), n - 1);
    }
  }

  lemma TenRightTurnsFromStraight()
    ensures TurnAll(0, Repeat(1, 10)) == AngleLimit
  {
    RightTurnsSaturate(0, 10);
  }

  // ---------------------------------------------------------------------
  // Skier.move

  /** `center_x += v_x`, then raised to 20, then lowered to `width - 20`. */
  function MovedX(x: int, vX: int, width: int): (r: int)
    ensures r <= width - EdgeMargin
    ensures width >= 2 * EdgeMargin ==> EdgeMargin <= r
    ensures EdgeMargin <= x + vX <= width - EdgeMargin ==> r == x + vX
    ensures x + vX < EdgeMargin && width >= 2 * EdgeMargin ==> r == EdgeMargin
    ensures x + vX > width - EdgeMargin ==> r == width - EdgeMargin
  {
    var moved := x + vX;
    var raised := if moved < EdgeMargin then EdgeMargin else moved;
    if raised > width - EdgeMargin then width - EdgeMargin else raised
  }

  /** A skier already inside the margins and standing still does not move. */
  lemma MoveIsIdleAtRest(x: int, width: int)
    requires EdgeMargin <= x <= width - EdgeMargin
    ensures MovedX(x, 0, width) == x
  {
  }

  // ---------------------------------------------------------------------
  // on_key_down / on_key_up

  predicate IsLeftKey(key: int) { key == KeyA || key == KeyLeft }
  predicate IsRightKey(key: int) { key == KeyD || key == KeyRight }
  predicate IsSteeringKey(key: int) { IsLeftKey(key) || IsRightKey(key) }

  /** The horizontal velocities that key handling can produce. */
  predicate LegalVelocity(v: int) { v == -SteerSpeed || v == 0 || v == SteerSpeed }

  function KeyDownVelocity(key: int, vX: int): (r: int)
    ensures IsLeftKey(key) ==> r == -SteerSpeed
    ensures IsRightKey(key) ==> r == SteerSpeed
    ensures !IsSteeringKey(key) ==> r == vX
  {
    if IsLeftKey(key) then -SteerSpeed
    else if IsRightKey(key) then SteerSpeed
    else vX
  }

  function KeyUpVelocity(key: int, vX: int): (r: int)
    ensures IsSteeringKey(key) ==> r == 0
    ensures !IsSteeringKey(key) ==> r == vX
  {
    if IsSteeringKey(key) then 0 else vX
  }

  /** Key events never produce a velocity other than -5, 0 or 5. */
  lemma KeysKeepVelocityLegal(key: int, vX: int)
    requires LegalVelocity(vX)
    ensures LegalVelocity(KeyDownVelocity(key, vX))
    ensures LegalVelocity(KeyUpVelocity(key, vX))
  {
  }

  /** Pressing and releasing a steering key stops the skier; pressing and
      releasing any other key leaves the velocity as it was. */
  lemma PressThenRelease(key: int, vX: int)
    ensures IsSteeringKey(key) ==> KeyUpVelocity(key, KeyDownVelocity(key, vX)) == 0
    ensures !IsSteeringKey(key) ==> KeyUpVelocity(key, KeyDownVelocity(key, vX)) == vX
  {
  }

  // ---------------------------------------------------------------------
  // collide_widget: closed axis-aligned boxes given by centre and size

  datatype Size = Size(w: nat, h: nat)
  datatype Box = Box(cx: int, cy: int, size: Size)

  // The widget's edges x, right, y and top, doubled so that they stay integral.
  function Left2(b: Box): int { 2 * b.cx - b.size.w }
  function Right2(b: Box): int { 2 * b.cx + b.size.w }
  function Bottom2(b: Box): int { 2 * b.cy - b.size.h }
  function Top2(b: Box): int { 2 * b.cy + b.size.h }

  /** Kivy's four early-out edge tests: the boxes overlap unless one lies
      strictly to one side of the other.  Touching edges count as a hit. */
  function Collide(a: Box, b: Box): (r: bool)
    ensures r <==> (2 * Abs(a.cx - b.cx) <= a.size.w + b.size.w
                    && 2 * Abs(a.cy - b.cy) <= a.size.h + b.size.h)
  {
    if Right2(a) < Left2(b) then false
    else if Left2(a) > Right2(b) then false
    else if Top2(a) < Bottom2(b) then false
    else if Bottom2(a) > Top2(b) then false
    else true
  }

  lemma CollideSymmetric(a: Box, b: Box)
    ensures Collide(a, b) == Collide(b, a)
  {
  }

  // ---------------------------------------------------------------------
  // Obstacles

  datatype ObstacleState = ObstacleState(x: int, y: int, kind: Kind)

  /** Obstacle.update's scroll: `center_y -= speed[1]`. */
  function Scrolled(o: ObstacleState): (r: ObstacleState)
    ensures r.x == o.x && r.kind == o.kind && r.y < o.y
    ensures Retired(o) ==> Retired(r)
  {
    o.(y := o.y - DescentSpeed)
  }

  /** Retired obstacles have left the window through its bottom edge. */
  predicate Retired(o: ObstacleState): (r: bool)
    ensures r ==> o.y < 0
  {
    o.y < RetireBelow
  }

  predicate Hits(skier: Box, size: Size, o: ObstacleState) {
    Collide(skier, Box(o.x, o.y, size))
  }

  /** Sprites short enough that the skier, standing at SkierStartY, cannot
      touch an obstacle that has scrolled below RetireBelow. */
  predicate SpritesClearRetirement(skierSize: Size, obstacleSize: Size) {
    skierSize.h + obstacleSize.h < 2 * (SkierStartY - RetireBelow + 1)
  }

  lemma RetiredOutOfReach(skier: Box, size: Size, o: ObstacleState)
    requires skier.cy == SkierStartY && SpritesClearRetirement(skier.size, size)
    ensures Retired(o) ==> !Hits(skier, size, o)
  {
  }

  // ---------------------------------------------------------------------
  // The obstacle pass of SkiGame.update

  /** The only failure of the pass: `list.remove` of a flag that its own
      update has already removed (ValueError in Python). */
  datatype Error = RemoveMissing
  datatype Result<T> = Ok(value: T) | Err(error: Error)

  /** What the pass has produced so far: the obstacles still listed, in
      order and already scrolled, and how many flags and trees were hit. */
  datatype SweepOutcome = SweepOutcome(kept: seq<ObstacleState>, flags: nat, trees: nat)

  /** One iteration of `for obstacle in self.obstacles[:]`: scroll (and
      retire), then test the collision; a flag is removed and scores, a tree
      schedules a game over and stays. */
  function SweepStep(skier: Box, size: Size, acc: SweepOutcome, o: ObstacleState): (r: Result<SweepOutcome>)
    ensures r.Err? <==> RemovedTwice(skier, size, o)
    ensures r.Ok? ==> |r.value.kept| + r.value.flags <= |acc.kept| + acc.flags + 1
    ensures r.Ok? ==> r.value.flags + r.value.trees <= acc.flags + acc.trees + 1
  {
    var s := Scrolled(o);
    var hit := Hits(skier, size, s);
    if hit && s.kind == Flag && Retired(s) then Err(RemoveMissing)
    else if hit && s.kind == Flag then Ok(acc.(flags := acc.flags + 1))
    else
      var kept := if Retired(s) then acc.kept else acc.kept + [s];
      Ok(SweepOutcome(kept, acc.flags, if hit then acc.trees + 1 else acc.trees))
  }

  /** The whole pass over a snapshot of the list, in list order. */
  function Sweep(skier: Box, size: Size, obs: seq<ObstacleState>): (r: Result<SweepOutcome>)
    ensures r.Ok? ==> |r.value.kept| + r.value.flags <= |obs|
    ensures r.Ok? ==> r.value.flags + r.value.trees <= |obs|
    decreases |obs|
  {
    if obs == [] then Ok(SweepOutcome([], 0, 0))
    else match Sweep(skier, size, obs[..|obs| - 1])
      case Err(e) => Err(e)
      case Ok(acc) => SweepStep(skier, size, acc, obs[|obs| - 1])
  }

  // A reference for the pass, one obstacle at a time.

  predicate CollectsFlag(skier: Box, size: Size, o: ObstacleState) {
    o.kind == Flag && Hits(skier, size, Scrolled(o))
  }

  predicate HitsTree(skier: Box, size: Size, o: ObstacleState) {
    o.kind == Tree && Hits(skier, size, Scrolled(o))
  }

  predicate Survives(skier: Box, size: Size, o: ObstacleState) {
    !Retired(Scrolled(o)) && !CollectsFlag(skier, size, o)
  }

  predicate RemovedTwice(skier: Box, size: Size, o: ObstacleState) {
    Retired(Scrolled(o)) && CollectsFlag(skier, size, o)
  }

  function Survivors(skier: Box, size: Size, obs: seq<ObstacleState>): seq<ObstacleState>
    decreases |obs|
  {
    if obs == [] then []
    else (if Survives(skier, size, obs[0]) then [Scrolled(obs[0])] else [])
         + Survivors(skier, size, obs[1..])
  }

  function FlagsCollected(skier: Box, size: Size, obs: seq<ObstacleState>): nat
    decreases |obs|
  {
    if obs == [] then 0
    else (if CollectsFlag(skier, size, obs[0]) then 1 else 0) + FlagsCollected(skier, size, obs[1..])
  }

  function TreesHit(skier: Box, size: Size, obs: seq<ObstacleState>): nat
    decreases |obs|
  {
    if obs == [] then 0
    else (if HitsTree(skier, size, obs[0]) then 1 else 0) + TreesHit(skier, size, obs[1..])
  }

  lemma {:induction false} PerObstacleAppend(skier: Box, size: Size, a: seq<ObstacleState>, o: ObstacleState)
    ensures Survivors(skier, size, a + [o])
         == Survivors(skier, size, a) + (if Survives(skier, size, o) then [Scrolled(o)] else [])
    ensures FlagsCollected(skier, size, a + [o])
         == FlagsCollected(skier, size, a) + (if CollectsFlag(skier, size, o) then 1 else 0)
    ensures TreesHit(skier, size, a + [o])
         == TreesHit(skier, size, a) + (if HitsTree(skier, size, o) then 1 else 0)
    decreases |a|
  {
    if a == [] {
      assert a + [o] == [o];
      assert [o][1..] == [];
    } else {
      assert (a + [o])[0] == a[0];
      assert (a + [o])[1..] == a[1..] + [o];
      PerObstacleAppend(skier, size, a[1..], o);
    }
  }

  /** The same, for one more obstacle of a list passed up to `i`. */
  lemma PrefixStep(skier: Box, size: Size, obs: seq<ObstacleState>, i: int)
    requires 0 <= i < |obs|
    ensures FlagsCollected(skier, size, obs[..i + 1])
         == FlagsCollected(skier, size, obs[..i]) + (if CollectsFlag(skier, size, obs[i]) then 1 else 0)
    ensures TreesHit(skier, size, obs[..i + 1])
         == TreesHit(skier, size, obs[..i]) + (if HitsTree(skier, size, obs[i]) then 1 else 0)
  {
    assert obs[..i + 1] == obs[..i] + [obs[i]];
    PerObstacleAppend(skier, size, obs[..i], obs[i]);
  }

  /** The pass fails exactly when some flag is both retired and hit; when it
      succeeds it keeps exactly the scrolled obstacles that neither retired
      nor were collected, counts every flag collected and every tree hit. */
  lemma {:induction false} SweepMatchesPerObstacle(skier: Box, size: Size, obs: seq<ObstacleState>)
    ensures Sweep(skier, size, obs).Err?
        <==> exists k :: 0 <= k < |obs| && RemovedTwice(skier, size, obs[k])
    ensures Sweep(skier, size, obs).Ok? ==>
              (Sweep(skier, size, obs).value
               == SweepOutcome(Survivors(skier, size, obs), FlagsCollected(skier, size, obs), TreesHit(skier, size, obs)))
    decreases |obs|
  {
    if obs != [] {
      var p, o := obs[..|obs| - 1], obs[|obs| - 1];
      assert obs == p + [o];
      SweepMatchesPerObstacle(skier, size, p);
      PerObstacleAppend(skier, size, p, o);
      assert forall k :: 0 <= k < |p| ==> p[k] == obs[k];
      if Sweep(skier, size, p).Err? {
        var k :| 0 <= k < |p| && RemovedTwice(skier, size, p[k]);
        assert RemovedTwice(skier, size, obs[k]);
      } else if RemovedTwice(skier, size, o) {
        assert RemovedTwice(skier, size, obs[|obs| - 1]);
      } else {
        assert forall k :: 0 <= k < |obs| ==> !RemovedTwice(skier, size, obs[k]) by {
          forall k | 0 <= k < |obs| ensures !RemovedTwice(skier, size, obs[k]) {
            if k < |p| { assert obs[k] == p[k]; }
          }
        }
      }
    }
  }

  /** Survivors are scrolled originals that stayed above RetireBelow, kept
      in their column, and there are no more of them than originals. */
  lemma {:induction false} SurvivorsShape(skier: Box, size: Size, obs: seq<ObstacleState>)
    ensures |Survivors(skier, size, obs)| <= |obs|
    ensures forall s :: s in Survivors(skier, size, obs) ==>
              !Retired(s) && exists o :: o in obs && s == Scrolled(o)
    decreases |obs|
  {
    if obs != [] {
      SurvivorsShape(skier, size, obs[1..]);
      forall s | s in Survivors(skier, size, obs)
        ensures !Retired(s) && exists o :: o in obs && s == Scrolled(o)
      {
        if s in Survivors(skier, size, obs[1..]) {
          var o :| o in obs[1..] && s == Scrolled(o);
          assert o in obs;
        } else {
          assert s == Scrolled(obs[0]);
        }
      }
    }
  }

  /** With sprites that clear the retirement line, the pass never fails. */
  lemma NoDoubleRemoval(skier: Box, size: Size, obs: seq<ObstacleState>)
    requires skier.cy == SkierStartY && SpritesClearRetirement(skier.size, size)
    ensures Sweep(skier, size, obs).Ok?
  {
    SweepMatchesPerObstacle(skier, size, obs);
    forall k | 0 <= k < |obs| ensures !RemovedTwice(skier, size, obs[k]) {
      RetiredOutOfReach(skier, size, Scrolled(obs[k]));
    }
  }

  // ---------------------------------------------------------------------
  // create_map

  predicate InGrid(row: int, col: int) {
    0 <= row < GridCells && 0 <= col < GridCells
  }

  /** The obstacle `create_map` builds from its random row, column and type. */
  function SpawnAt(row: int, col: int, kind: Kind): (r: ObstacleState)
    requires InGrid(row, col)
    ensures r.kind == kind && GridColumn(r.x) == col && GridRow(r.y) == row
  {
    ObstacleState(col * CellSize + CellOffset, row * CellSize + CellOffset + SpawnAhead, kind)
  }

  /** x is the centre of one of the ten grid columns. */
  predicate OnGridColumn(x: int) {
    (x - CellOffset) % CellSize == 0 && 0 <= x - CellOffset < GridCells * CellSize
  }

  function GridColumn(x: int): int { (x - CellOffset) / CellSize }
  function GridRow(y: int): int { (y - CellOffset - SpawnAhead) / CellSize }

  /** A spawned obstacle sits on the grid, and its row and column can be
      read back from its centre. */
  lemma SpawnAtOnGrid(row: int, col: int, kind: Kind)
    requires InGrid(row, col)
    ensures OnGridColumn(SpawnAt(row, col, kind).x)
    ensures GridColumn(SpawnAt(row, col, kind).x) == col
    ensures GridRow(SpawnAt(row, col, kind).y) == row
    ensures !Retired(SpawnAt(row, col, kind))
  {
  }

  /** `create_map`: append one obstacle while fewer than five are listed. */
  function Spawned(obs: seq<ObstacleState>, row: int, col: int, kind: Kind): (r: seq<ObstacleState>)
    requires InGrid(row, col)
    ensures obs <= r && |r| <= |obs| + 1
    ensures |r| <= Max(|obs|, MaxObstacles)
  {
    if |obs| < MaxObstacles then obs + [SpawnAt(row, col, kind)] else obs
  }

  lemma SpawnedRespectsCap(obs: seq<ObstacleState>, row: int, col: int, kind: Kind)
    requires InGrid(row, col)
    ensures |obs| <= MaxObstacles ==> |Spawned(obs, row, col, kind)| <= MaxObstacles
    ensures |obs| >= MaxObstacles ==> Spawned(obs, row, col, kind) == obs
    ensures |obs| < MaxObstacles ==> Spawned(obs, row, col, kind) == obs + [SpawnAt(row, col, kind)]
  {
  }

  // ---------------------------------------------------------------------
  // The whole game state and one tick of SkiGame.update

  datatype SkierState = SkierState(x: int, y: int, angle: int, vX: int)

  /** Everything the simulation keeps: the skier, the listed obstacles in list
      order, the score and how many game overs have been scheduled. */
  datatype GameState = GameState(skier: SkierState, obstacles: seq<ObstacleState>, score: int, gameOvers: nat)

  /** What holds between ticks of a session that started from `__init__`. */
  predicate Inv(g: GameState) {
    && -AngleLimit <= g.skier.angle <= AngleLimit
    && LegalVelocity(g.skier.vX)
    && g.skier.y == SkierStartY
    && |g.obstacles| <= MaxObstacles
    && (forall o :: o in g.obstacles ==> OnGridColumn(o.x) && !Retired(o))
    && g.score >= 0 && g.score % FlagPoints == 0
  }

  /** Spawning keeps the invariant: the new obstacle is on the grid, above
      the retirement line, and the cap of five holds. */
  lemma SpawnedKeepsInv(g: GameState, row: int, col: int, kind: Kind)
    requires Inv(g) && InGrid(row, col)
    ensures Inv(g.(obstacles := Spawned(g.obstacles, row, col, kind)))
  {
    SpawnAtOnGrid(row, col, kind);
  }

  function SkierBox(s: SkierState, size: Size): Box { Box(s.x, s.y, size) }

  /** The first part of `update`: move the skier, then the obstacle pass. */
  function AfterPass(g: GameState, width: int, skierSize: Size, obstacleSize: Size): (r: Result<GameState>)
    ensures r.Ok? ==> r.value.skier.y == g.skier.y && r.value.skier.angle == g.skier.angle
                      && r.value.skier.vX == g.skier.vX
    ensures r.Ok? ==> |r.value.obstacles| <= |g.obstacles|
                      && r.value.score >= g.score && r.value.gameOvers >= g.gameOvers
  {
    var skier := g.skier.(x := MovedX(g.skier.x, g.skier.vX, width));
    match Sweep(SkierBox(skier, skierSize), obstacleSize, g.obstacles)
    case Err(e) => Err(e)
    case Ok(out) => Ok(GameState(skier, out.kept, g.score + FlagPoints * out.flags, g.gameOvers + out.trees))
  }

  /** `update`: move the skier, run the pass over the obstacles, then
      `create_map` with the given random draws. */
  function Tick(g: GameState, width: int, skierSize: Size, obstacleSize: Size,
                row: int, col: int, kind: Kind): (r: Result<GameState>)
    requires InGrid(row, col)
    ensures r.Ok? <==> AfterPass(g, width, skierSize, obstacleSize).Ok?
    ensures r.Ok? ==> |r.value.obstacles| <= Max(|g.obstacles|, MaxObstacles)
                      && r.value.score >= g.score && r.value.gameOvers >= g.gameOvers
  {
    match AfterPass(g, width, skierSize, obstacleSize)
    case Err(e) => Err(e)
    case Ok(h) => Ok(h.(obstacles := Spawned(h.obstacles, row, col, kind)))
  }

  /** The state `__init__` leaves (before any `create_map`). */
  function InitialState(width: int): (r: GameState)
    ensures Inv(r) && r.obstacles == [] && r.score == 0 && r.gameOvers == 0
  {
    GameState(SkierState(width / 2, SkierStartY, 0, 0), [], 0, 0)
  }

  /** `play_restart`: `__init__` again, then one `create_map`.  Scheduled game
      overs are not cancelled by the restart, so their count carries over. */
  function Restarted(width: int, gameOvers: nat, row: int, col: int, kind: Kind): (r: GameState)
    requires InGrid(row, col)
    ensures r.skier == InitialState(width).skier && r.score == 0 && r.gameOvers == gameOvers
    ensures |r.obstacles| == 1 && r.obstacles[0].kind == kind
            && GridColumn(r.obstacles[0].x) == col && GridRow(r.obstacles[0].y) == row
  {
    var start := InitialState(width);
    start.(obstacles := Spawned(start.obstacles, row, col, kind), gameOvers := gameOvers)
  }

  lemma InitialStateValid(width: int)
    ensures Inv(InitialState(width))
  {
  }

  lemma RestartedState(width: int, gameOvers: nat, row: int, col: int, kind: Kind)
    requires InGrid(row, col)
    ensures var g := Restarted(width, gameOvers, row, col, kind);
            Inv(g) && g.score == 0 && g.obstacles == [SpawnAt(row, col, kind)]
            && g.skier == SkierState(width / 2, SkierStartY, 0, 0)
  {
    SpawnAtOnGrid(row, col, kind);
  }

  /** The pass keeps the invariant: the angle and velocity are untouched,
      no obstacle is added, retired obstacles are gone, and the score grows
      in multiples of ten. */
  lemma AfterPassPreservesInv(g: GameState, width: int, skierSize: Size, obstacleSize: Size)
    requires Inv(g) && AfterPass(g, width, skierSize, obstacleSize).Ok?
    ensures Inv(AfterPass(g, width, skierSize, obstacleSize).value)
    ensures |AfterPass(g, width, skierSize, obstacleSize).value.obstacles| <= |g.obstacles|
  {
    var skier := g.skier.(x := MovedX(g.skier.x, g.skier.vX, width));
    var box := SkierBox(skier, skierSize);
    SweepMatchesPerObstacle(box, obstacleSize, g.obstacles);
    SurvivorsShape(box, obstacleSize, g.obstacles);
    var kept := Survivors(box, obstacleSize, g.obstacles);
    forall s | s in kept ensures OnGridColumn(s.x) && !Retired(s) {
      var o :| o in g.obstacles && s == Scrolled(o);
    }
  }

  /** The pass of a tick described obstacle by obstacle: the skier moved,
      the survivors kept, ten points per flag collected and one game over
      per tree hit. */
  function PerObstaclePass(g: GameState, width: int, skierSize: Size, obstacleSize: Size): GameState {
    var skier := g.skier.(x := MovedX(g.skier.x, g.skier.vX, width));
    var box := SkierBox(skier, skierSize);
    GameState(skier, Survivors(box, obstacleSize, g.obstacles),
              g.score + FlagPoints * FlagsCollected(box, obstacleSize, g.obstacles),
              g.gameOvers + TreesHit(box, obstacleSize, g.obstacles))
  }

  /** In a valid state and with sprites that clear the retirement line, the
      pass of a tick cannot fail, it is the per-obstacle pass, and it keeps
      the invariant. */
  lemma AfterPassPerObstacle(g: GameState, width: int, skierSize: Size, obstacleSize: Size)
    requires Inv(g) && SpritesClearRetirement(skierSize, obstacleSize)
    ensures AfterPass(g, width, skierSize, obstacleSize) == Ok(PerObstaclePass(g, width, skierSize, obstacleSize))
    ensures Inv(PerObstaclePass(g, width, skierSize, obstacleSize))
  {
    var skier := g.skier.(x := MovedX(g.skier.x, g.skier.vX, width));
    var box := SkierBox(skier, skierSize);
    SweepMatchesPerObstacle(box, obstacleSize, g.obstacles);
    NoDoubleRemoval(box, obstacleSize, g.obstacles);
    AfterPassPreservesInv(g, width, skierSize, obstacleSize);
  }

  /** A whole tick keeps the invariant, and in particular never lists more
      than five obstacles. */
  lemma TickPreservesInv(g: GameState, width: int, skierSize: Size, obstacleSize: Size,
                         row: int, col: int, kind: Kind)
    requires InGrid(row, col) && Inv(g)
    requires Tick(g, width, skierSize, obstacleSize, row, col, kind).Ok?
    ensures Inv(Tick(g, width, skierSize, obstacleSize, row, col, kind).value)
  {
    AfterPassPreservesInv(g, width, skierSize, obstacleSize);
    SpawnedKeepsInv(AfterPass(g, width, skierSize, obstacleSize).value, row, col, kind);
  }

  /** A tick adds exactly ten points per flag collected, schedules one game
      over per tree hit, and never lowers the score. */
  lemma TickScores(g: GameState, width: int, skierSize: Size, obstacleSize: Size,
                   row: int, col: int, kind: Kind)
    requires InGrid(row, col)
    requires Tick(g, width, skierSize, obstacleSize, row, col, kind).Ok?
    ensures var g' := Tick(g, width, skierSize, obstacleSize, row, col, kind).value;
            var box := SkierBox(g'.skier, skierSize);
            && g'.score == g.score + FlagPoints * FlagsCollected(box, obstacleSize, g.obstacles)
            && g'.gameOvers == g.gameOvers + TreesHit(box, obstacleSize, g.obstacles)
            && g'.score >= g.score
            && (g.score % FlagPoints == 0 ==> g'.score % FlagPoints == 0)
  {
    var skier := g.skier.(x := MovedX(g.skier.x, g.skier.vX, width));
    SweepMatchesPerObstacle(SkierBox(skier, skierSize), obstacleSize, g.obstacles);
  }

  /** From an empty slope, one tick spawns exactly one obstacle, on the grid. */
  lemma TickFromEmptySlope(g: GameState, width: int, skierSize: Size, obstacleSize: Size,
                           row: int, col: int, kind: Kind)
    requires InGrid(row, col) && g.obstacles == []
    ensures Tick(g, width, skierSize, obstacleSize, row, col, kind).Ok?
    ensures var g' := Tick(g, width, skierSize, obstacleSize, row, col, kind).value;
            g'.obstacles == [SpawnAt(row, col, kind)] && OnGridColumn(g'.obstacles[0].x)
            && g'.score == g.score && g'.gameOvers == g.gameOvers
  {
    SpawnAtOnGrid(row, col, kind);
  }

  /** A tree right below the standing skier schedules a game over and
      leaves the score alone. */
  lemma TreeUnderSkier(g: GameState, width: int, skierSize: Size, obstacleSize: Size,
                       row: int, col: int, kind: Kind)
    requires InGrid(row, col) && width >= 2 * EdgeMargin
    requires g.skier.vX == 0 && EdgeMargin <= g.skier.x <= width - EdgeMargin
    requires g.skier.y == SkierStartY
    requires g.obstacles == [ObstacleState(g.skier.x, g.skier.y + DescentSpeed, Tree)]
    ensures Tick(g, width, skierSize, obstacleSize, row, col, kind).Ok?
    ensures var g' := Tick(g, width, skierSize, obstacleSize, row, col, kind).value;
            g'.gameOvers == g.gameOvers + 1 && g'.score == g.score
            && g'.obstacles[0] == ObstacleState(g.skier.x, g.skier.y, Tree)
  {
    var skier := g.skier.(x := MovedX(g.skier.x, g.skier.vX, width));
    var box, obs := SkierBox(skier, skierSize), g.obstacles;
    assert obs[..|obs| - 1] == [];
    assert Hits(box, obstacleSize, Scrolled(obs[0]));
    assert Sweep(box, obstacleSize, obs) == SweepStep(box, obstacleSize, SweepOutcome([], 0, 0), obs[0]);
  }

  /** A flag right below the standing skier is collected: ten points, and
      it is no longer listed. */
  lemma FlagUnderSkier(g: GameState, width: int, skierSize: Size, obstacleSize: Size,
                       row: int, col: int, kind: Kind)
    requires InGrid(row, col) && width >= 2 * EdgeMargin
    requires g.skier.vX == 0 && EdgeMargin <= g.skier.x <= width - EdgeMargin
    requires g.skier.y == SkierStartY
    requires g.obstacles == [ObstacleState(g.skier.x, g.skier.y + DescentSpeed, Flag)]
    ensures Tick(g, width, skierSize, obstacleSize, row, col, kind).Ok?
    ensures var g' := Tick(g, width, skierSize, obstacleSize, row, col, kind).value;
            g'.score == g.score + FlagPoints && g'.gameOvers == g.gameOvers
            && g'.obstacles == [SpawnAt(row, col, kind)]
  {
    var skier := g.skier.(x := MovedX(g.skier.x, g.skier.vX, width));
    var box, obs := SkierBox(skier, skierSize), g.obstacles;
    assert obs[..|obs| - 1] == [];
    assert Hits(box, obstacleSize, Scrolled(obs[0]));
    assert Sweep(box, obstacleSize, obs) == SweepStep(box, obstacleSize, SweepOutcome([], 0, 0), obs[0]);
  }
}
