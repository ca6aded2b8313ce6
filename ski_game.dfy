/** The SkiFree game objects as they change in place: the skier, the
    obstacles and the game that owns them.  Every method is specified by the
    value-level rules of module SkiRules. */
module SkiFree {
  import opened SkiRules

  class Skier {
    var angle: int
    var centerX: int
    var centerY: int
    var vX: int

    /** Starts facing straight down, centred in a window `width` wide. */
    constructor (width: int)
      ensures Value() == SkierState(width / 2, SkierStartY, 0, 0)
    {
      angle := 0;
      centerX := width / 2;
      centerY := SkierStartY;
      vX := 0;
    }

    ghost function Value(): SkierState
      reads this
    {
      SkierState(centerX, centerY, angle, vX)
    }

    method Turn(direction: int)
      modifies this`angle
      ensures angle == TurnedAngle(old(angle), direction)
      ensures -AngleLimit <= angle <= AngleLimit
    {
      angle := angle + direction;
      angle := Max(-AngleLimit, Min(AngleLimit, angle));
    }

    /** Moves by the current velocity and stays inside the margins of a
        window `width` wide; nothing but `centerX` changes. */
    method Move(width: int)
      modifies this`centerX
      ensures centerX == MovedX(old(centerX), vX, width)
      ensures width >= 2 * EdgeMargin ==> EdgeMargin <= centerX <= width - EdgeMargin
    {
      centerX := centerX + vX;
      if centerX < EdgeMargin {
        centerX := EdgeMargin;
      }
      if centerX > width - EdgeMargin {
        centerX := width - EdgeMargin;
      }
    }

    /** collide_widget, with the two sprites' sizes given. */
    function CollideWidget(o: Obstacle, size: Size, obstacleSize: Size): (r: bool)
      reads this, o
      ensures r <==> Hits(SkierBox(Value(), size), obstacleSize, o.Value())
    {
      Collide(Box(centerX, centerY, size), Box(o.centerX, o.centerY, obstacleSize))
    }
  }

  class Obstacle {
    const game: SkiGame
    const kind: Kind
    var centerX: int
    var centerY: int

    constructor (game: SkiGame, x: int, y: int, kind: Kind)
      ensures this.game == game && Value() == ObstacleState(x, y, kind)
    {
      this.game := game;
      this.kind := kind;
      centerX := x;
      centerY := y;
    }

    ghost function Value(): ObstacleState
      reads this
    {
      ObstacleState(centerX, centerY, kind)
    }

    /** Scrolls down by the game's vertical speed and, once below the
        retirement line, takes itself off the game's list. */
    method Update()
      requires this in game.obstacles && |game.speed| == 2
      modifies this`centerY, game`obstacles
      ensures centerY == old(centerY) - game.speed[1]
      ensures game.obstacles == if centerY < RetireBelow
                                then RemoveFirst(old(game.obstacles), this)
                                else old(game.obstacles)
    {
      centerY := centerY - game.speed[1];
      if centerY < RetireBelow {
        game.obstacles := RemoveFirst(game.obstacles, this);
      }
    }
  }

  /** The values of a list of obstacles, element by element. */
  ghost function ValuesOf(objs: seq<Obstacle>): (vs: seq<ObstacleState>)
    reads objs
    ensures |vs| == |objs|
    ensures forall j :: 0 <= j < |objs| ==> vs[j] == objs[j].Value()
    decreases |objs|
  {
    if objs == [] then [] else [objs[0].Value()] + ValuesOf(objs[1..])
  }

  /** The obstacles of `objs` whose values in `vals` survive a pass, in order. */
  ghost function KeptObstacles(objs: seq<Obstacle>, vals: seq<ObstacleState>, skier: Box, size: Size): seq<Obstacle>
    requires |objs| == |vals|
    decreases |objs|
  {
    if objs == [] then []
    else (if Survives(skier, size, vals[0]) then [objs[0]] else [])
         + KeptObstacles(objs[1..], vals[1..], skier, size)
  }

  lemma {:induction false} KeptAppend(objs: seq<Obstacle>, vals: seq<ObstacleState>, x: Obstacle, v: ObstacleState,
                                      skier: Box, size: Size)
    requires |objs| == |vals|
    ensures KeptObstacles(objs + [x], vals + [v], skier, size)
         == KeptObstacles(objs, vals, skier, size) + (if Survives(skier, size, v) then [x] else [])
    decreases |objs|
  {
    if objs != [] {
      assert (objs + [x])[1..] == objs[1..] + [x];
      assert (vals + [v])[1..] == vals[1..] + [v];
      KeptAppend(objs[1..], vals[1..], x, v, skier, size);
    }
  }

  lemma {:induction false} KeptShape(objs: seq<Obstacle>, vals: seq<ObstacleState>, skier: Box, size: Size)
    requires |objs| == |vals|
    ensures forall o :: o in KeptObstacles(objs, vals, skier, size) ==> o in objs
    ensures Distinct(objs) ==> Distinct(KeptObstacles(objs, vals, skier, size))
    decreases |objs|
  {
    if objs != [] {
      KeptShape(objs[1..], vals[1..], skier, size);
      if Distinct(objs) {
        var rest := KeptObstacles(objs[1..], vals[1..], skier, size);
        assert objs[0] !in rest;
        if Survives(skier, size, vals[0]) {
          assert ([objs[0]] + rest)[1..] == rest;
        } else {
          assert [] + rest == rest;
        }
      }
    }
  }

  /** Once every obstacle of `objs` holds the scrolled value of `vals`, the kept
      obstacles hold exactly the surviving values. */
  lemma {:induction false} KeptValues(objs: seq<Obstacle>, vals: seq<ObstacleState>, skier: Box, size: Size)
    requires |objs| == |vals|
    requires forall j :: 0 <= j < |objs| ==> objs[j].Value() == Scrolled(vals[j])
    ensures ValuesOf(KeptObstacles(objs, vals, skier, size)) == Survivors(skier, size, vals)
    decreases |objs|
  {
    if objs != [] {
      KeptValues(objs[1..], vals[1..], skier, size);
      var rest := KeptObstacles(objs[1..], vals[1..], skier, size);
      if Survives(skier, size, vals[0]) {
        assert ValuesOf([objs[0]] + rest) == [objs[0].Value()] + ValuesOf(rest);
      }
    }
  }

  /** How one more obstacle of the snapshot changes the list of the pass so
      far: a survivor stays where it was, anything else is removed. */
  lemma PassStep(snapshot: seq<Obstacle>, vals: seq<ObstacleState>, i: int, skier: Box, size: Size)
    requires |snapshot| == |vals| && 0 <= i < |snapshot| && Distinct(snapshot)
    ensures var kept, kept' := KeptObstacles(snapshot[..i], vals[..i], skier, size),
                               KeptObstacles(snapshot[..i + 1], vals[..i + 1], skier, size);
            && snapshot[i] in kept + snapshot[i..]
            && (if Survives(skier, size, vals[i]) then kept + snapshot[i..]
                else RemoveFirst(kept + snapshot[i..], snapshot[i])) == kept' + snapshot[i + 1..]
  {
    var obstacle, o := snapshot[i], vals[i];
    var kept := KeptObstacles(snapshot[..i], vals[..i], skier, size);
    assert snapshot[i..] == [obstacle] + snapshot[i + 1..];
    assert kept + snapshot[i..] == kept + [obstacle] + snapshot[i + 1..];
    assert vals[..i + 1] == vals[..i] + [o];
    assert snapshot[..i + 1] == snapshot[..i] + [obstacle];
    KeptAppend(snapshot[..i], vals[..i], obstacle, o, skier, size);
    if !Survives(skier, size, o) {
      DistinctApart(snapshot, i);
      KeptShape(snapshot[..i], vals[..i], skier, size);
      RemoveFirstAfter(kept, obstacle, snapshot[i + 1..]);
    }
  }

  class SkiGame {
    var skier: Skier
    var speed: seq<int>
    var obstacles: seq<Obstacle>
    var score: int
    /** How many times `game_over` has been scheduled with the clock. */
    var gameOverScheduled: nat
    /** How many times `update` has been scheduled to run every frame. */
    var tickTimers: nat

    ghost function State(): GameState
      reads this, skier, obstacles
    {
      GameState(skier.Value(), ValuesOf(obstacles), score, gameOverScheduled)
    }

    ghost predicate Valid()
      reads this, skier, obstacles
    {
      && speed == [0, DescentSpeed]
      && Inv(State())
      && Distinct(obstacles)
      && (forall o :: o in obstacles ==> o.game == this)
    }

    /** `__init__`: a new skier, an empty slope, no score, and `update`
        scheduled once. */
    constructor (width: int)
      ensures Valid() && fresh(skier)
      ensures State() == InitialState(width) && tickTimers == 1
    {
      skier := new Skier(width);
      speed := [0, DescentSpeed];
      obstacles := [];
      score := 0;
      gameOverScheduled := 0;
      tickTimers := 1;
    }

    method OnKeyDown(key: int)
      requires Valid()
      modifies skier`vX
      ensures Valid()
      ensures State() == old(State()).(skier := old(skier.Value()).(vX := KeyDownVelocity(key, old(skier.vX))))
    {
      if key == KeyA || key == KeyLeft {
        skier.vX := -SteerSpeed;
      } else if key == KeyD || key == KeyRight {
        skier.vX := SteerSpeed;
      }
    }

    method OnKeyUp(key: int)
      requires Valid()
      modifies skier`vX
      ensures Valid()
      ensures State() == old(State()).(skier := old(skier.Value()).(vX := KeyUpVelocity(key, old(skier.vX))))
    {
      if key == KeyA || key == KeyLeft || key == KeyD || key == KeyRight {
        skier.vX := 0;
      }
    }

    /** `create_map`, with its random row, column and type passed in:
        appends one fresh obstacle while fewer than five are listed. */
    method CreateMap(row: int, col: int, kind: Kind)
      requires Valid() && InGrid(row, col)
      modifies this`obstacles
      ensures Valid()
      ensures State() == old(State()).(obstacles := Spawned(old(State()).obstacles, row, col, kind))
      ensures forall o :: o in obstacles ==> o in old(obstacles) || fresh(o)
      ensures |old(obstacles)| >= MaxObstacles ==> obstacles == old(obstacles)
      ensures |old(obstacles)| < MaxObstacles ==>
                && |obstacles| == |old(obstacles)| + 1
                && obstacles[..|old(obstacles)|] == old(obstacles)
                && fresh(obstacles[|old(obstacles)|])
    {
      SpawnedKeepsInv(State(), row, col, kind);
      if |obstacles| < MaxObstacles {
        var x, y := col * CellSize + CellOffset, row * CellSize + CellOffset + SpawnAhead;
        var obstacle := new Obstacle(this, x, y, kind);
        SpawnAtOnGrid(row, col, kind);
        DistinctAppend(obstacles, obstacle);
        ghost var before := obstacles;
        obstacles := obstacles + [obstacle];
        assert obstacles[..|before|] == before;
      }
    }

    /** One iteration of the loop in `update`: the obstacle scrolls (and
        may retire), then a collision with a tree schedules a game over and
        a collision with a flag scores and removes the flag. */
    method UpdateObstacle(obstacle: Obstacle, skierSize: Size, obstacleSize: Size)
      requires obstacle in obstacles && obstacle.game == this && speed == [0, DescentSpeed]
      requires skier.centerY == SkierStartY && SpritesClearRetirement(skierSize, obstacleSize)
      modifies this`obstacles, this`score, this`gameOverScheduled, obstacle`centerY
      ensures obstacle.Value() == Scrolled(old(obstacle.Value()))
      ensures var box, o := SkierBox(skier.Value(), skierSize), old(obstacle.Value());
              && obstacles == (if Survives(box, obstacleSize, o) then old(obstacles)
                               else RemoveFirst(old(obstacles), obstacle))
              && score == old(score) + (if CollectsFlag(box, obstacleSize, o) then FlagPoints else 0)
              && gameOverScheduled == old(gameOverScheduled) + (if HitsTree(box, obstacleSize, o) then 1 else 0)
    {
      obstacle.Update();
      if skier.CollideWidget(obstacle, skierSize, obstacleSize) {
        if obstacle.kind == Tree {
          gameOverScheduled := gameOverScheduled + 1;
        } else {
          RetiredOutOfReach(SkierBox(skier.Value(), skierSize), obstacleSize, obstacle.Value());
          score := score + FlagPoints;
          obstacles := RemoveFirst(obstacles, obstacle);
        }
      }
    }

    /** The state of the game after the first `i` obstacles of `snapshot`,
        whose values were `vals`, have been passed with the skier at `box`:
        the list holds the kept ones and the rest, the score and the game
        overs have grown by the flags and the trees met, and exactly the
        passed obstacles have scrolled. */
    ghost predicate Passed(snapshot: seq<Obstacle>, vals: seq<ObstacleState>, i: int, box: Box, obstacleSize: Size,
                           score0: int, gameOvers0: int)
      reads this, snapshot
    {
      && |snapshot| == |vals| && 0 <= i <= |snapshot|
      && obstacles == KeptObstacles(snapshot[..i], vals[..i], box, obstacleSize) + snapshot[i..]
      && score == score0 + FlagPoints * FlagsCollected(box, obstacleSize, vals[..i])
      && gameOverScheduled == gameOvers0 + TreesHit(box, obstacleSize, vals[..i])
      && (forall j :: 0 <= j < |snapshot| ==> snapshot[j].Value() == if j < i then Scrolled(vals[j]) else vals[j])
    }

    /** Passes obstacle `i` of the snapshot. */
    method PassOne(obstacle: Obstacle, snapshot: seq<Obstacle>, i: int, skierSize: Size, obstacleSize: Size,
                   ghost vals: seq<ObstacleState>, ghost box: Box, ghost score0: int, ghost gameOvers0: int)
      requires speed == [0, DescentSpeed] && Distinct(snapshot) && (forall o :: o in snapshot ==> o.game == this)
      requires skier.centerY == SkierStartY && SpritesClearRetirement(skierSize, obstacleSize)
      requires |snapshot| == |vals| && 0 <= i < |snapshot| && obstacle == snapshot[i]
      requires box == SkierBox(skier.Value(), skierSize)
      requires Passed(snapshot, vals, i, box, obstacleSize, score0, gameOvers0)
      modifies this`obstacles, this`score, this`gameOverScheduled, obstacle`centerY
      ensures Passed(snapshot, vals, i + 1, box, obstacleSize, score0, gameOvers0)
    {
      assert obstacle.Value() == vals[i];
      PassStep(snapshot, vals, i, box, obstacleSize);
      PrefixStep(box, obstacleSize, vals, i);
      DistinctApart(snapshot, i);
      UpdateObstacle(obstacle, skierSize, obstacleSize);
    }

    /** The loop of `update` over a snapshot of the obstacle list: every
        listed obstacle scrolls once and meets the skier; afterwards the list
        holds the survivors in their old order, and the score and the game
        overs count the flags collected and the trees hit. */
    method PassObstacles(skierSize: Size, obstacleSize: Size, ghost vals: seq<ObstacleState>, ghost box: Box)
      requires speed == [0, DescentSpeed] && Distinct(obstacles) && (forall o :: o in obstacles ==> o.game == this)
      requires skier.centerY == SkierStartY && SpritesClearRetirement(skierSize, obstacleSize)
      requires box == SkierBox(skier.Value(), skierSize)
      requires Passed(obstacles, vals, 0, box, obstacleSize, score, gameOverScheduled)
      modifies this`obstacles, this`score, this`gameOverScheduled, obstacles`centerY
      ensures Passed(old(obstacles), vals, |vals|, box, obstacleSize, old(score), old(gameOverScheduled))
    {
      var snapshot := obstacles;
      var i := 0;
      while i < |snapshot|
        invariant 0 <= i <= |snapshot|
        invariant Passed(snapshot, vals, i, box, obstacleSize, old(score), old(gameOverScheduled))
      {
        PassOne(snapshot[i], snapshot, i, skierSize, obstacleSize, vals, box, old(score), old(gameOverScheduled));
        i := i + 1;
      }
    }

    /** Before the pass, nothing of the snapshot has been passed. */
    lemma PassedNone(vals: seq<ObstacleState>, box: Box, obstacleSize: Size)
      requires vals == ValuesOf(obstacles)
      ensures Passed(obstacles, vals, 0, box, obstacleSize, score, gameOverScheduled)
    {
      assert obstacles[..0] == [] && vals[..0] == [];
    }

    /** After the whole snapshot has been passed, the list holds its kept
        obstacles, each of them scrolled. */
    lemma PassedAll(snapshot: seq<Obstacle>, vals: seq<ObstacleState>, box: Box, obstacleSize: Size,
                    score0: int, gameOvers0: int)
      requires Passed(snapshot, vals, |vals|, box, obstacleSize, score0, gameOvers0)
      ensures obstacles == KeptObstacles(snapshot, vals, box, obstacleSize)
      ensures score == score0 + FlagPoints * FlagsCollected(box, obstacleSize, vals)
      ensures gameOverScheduled == gameOvers0 + TreesHit(box, obstacleSize, vals)
      ensures forall j :: 0 <= j < |snapshot| ==> snapshot[j].Value() == Scrolled(vals[j])
    {
      assert snapshot[..|vals|] == snapshot && vals[..|vals|] == vals;
    }

    /** After the pass: when the list holds the kept obstacles of the
        snapshot, each of them scrolled, and the score and the game overs
        grew by the flags and trees met, the game is valid again, it shows
        the pass of the old state, and its list is part of the snapshot. */
    lemma PassedState(g: GameState, width: int, skierSize: Size, obstacleSize: Size,
                      snapshot: seq<Obstacle>, vals: seq<ObstacleState>)
      requires Inv(g) && SpritesClearRetirement(skierSize, obstacleSize) && speed == [0, DescentSpeed]
      requires vals == g.obstacles && |snapshot| == |vals| && Distinct(snapshot)
      requires forall o :: o in snapshot ==> o.game == this
      requires skier.Value() == g.skier.(x := MovedX(g.skier.x, g.skier.vX, width))
      requires Passed(snapshot, vals, |vals|, SkierBox(skier.Value(), skierSize), obstacleSize, g.score, g.gameOvers)
      ensures Valid() && AfterPass(g, width, skierSize, obstacleSize) == Ok(State())
      ensures forall o :: o in obstacles ==> o in snapshot
    {
      var box := SkierBox(skier.Value(), skierSize);
      PassedAll(snapshot, vals, box, obstacleSize, g.score, g.gameOvers);
      AfterPassPerObstacle(g, width, skierSize, obstacleSize);
      KeptShape(snapshot, vals, box, obstacleSize);
      KeptValues(snapshot, vals, box, obstacleSize);
      assert State() == PerObstaclePass(g, width, skierSize, obstacleSize);
    }

    /** The first part of `update`: the skier moves, then every obstacle of
        a snapshot of the list is passed. */
    method MoveAndPass(width: int, skierSize: Size, obstacleSize: Size)
      requires Valid() && SpritesClearRetirement(skierSize, obstacleSize)
      modifies this`obstacles, this`score, this`gameOverScheduled, skier`centerX, obstacles`centerY
      ensures Valid()
      ensures AfterPass(old(State()), width, skierSize, obstacleSize) == Ok(State())
      ensures forall j :: 0 <= j < |old(obstacles)| ==>
                old(obstacles)[j].Value() == Scrolled(old(obstacles[j].Value()))
      ensures forall o :: o in obstacles ==> o in old(obstacles)
    {
      ghost var g := old(State());
      ghost var vals := ValuesOf(obstacles);
      skier.Move(width);
      var snapshot := obstacles;
      ghost var box := SkierBox(skier.Value(), skierSize);
      PassedNone(vals, box, obstacleSize);
      PassObstacles(skierSize, obstacleSize, vals, box);
      PassedState(g, width, skierSize, obstacleSize, snapshot, vals);
    }

    /** One frame: move the skier, pass over the obstacles, then spawn.
        Sprite sizes are given; they must be small enough that a retired flag
        cannot be hit, which would make the second `list.remove` fail. */
    method Update(width: int, skierSize: Size, obstacleSize: Size, row: int, col: int, kind: Kind)
      requires Valid() && InGrid(row, col) && SpritesClearRetirement(skierSize, obstacleSize)
      modifies this`obstacles, this`score, this`gameOverScheduled, skier`centerX, obstacles`centerY
      ensures Valid()
      ensures Tick(old(State()), width, skierSize, obstacleSize, row, col, kind) == Ok(State())
      ensures forall j :: 0 <= j < |old(obstacles)| ==>
                old(obstacles)[j].Value() == Scrolled(old(obstacles[j].Value()))
      ensures forall o :: o in obstacles ==> o in old(obstacles) || fresh(o)
    {
      MoveAndPass(width, skierSize, obstacleSize);
      CreateMap(row, col, kind);
    }

    /** `play_restart`: the widgets are cleared, `__init__` runs again on the
        same game (a new skier, an empty slope, no score, and one more
        `update` timer, since the old one is not cancelled), then one
        `create_map`.  Game overs already scheduled still fire. */
    method PlayRestart(width: int, row: int, col: int, kind: Kind)
      requires InGrid(row, col)
      modifies this
      ensures Valid() && fresh(skier)
      ensures State() == Restarted(width, old(gameOverScheduled), row, col, kind)
      ensures tickTimers == old(tickTimers) + 1
    {
      skier := new Skier(width);
      speed := [0, DescentSpeed];
      obstacles := [];
      score := 0;
      tickTimers := tickTimers + 1;
      CreateMap(row, col, kind);
    }
  }
}
