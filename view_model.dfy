/** `GameViewModel`: the session controller that owns the current snapshot,
    the alien direction and the one-shot save flag, and runs one tick of
    the game step by step. Each loop of the tick is proved equal to its
    specification in module Simulation. */
module ViewModel {
  import opened Wrappers
  import opened KotlinInt
  import opened GameObjects
  import opened Collisions
  import opened Simulation
  import opened HighScores

  /** `newX.coerceIn(lo, hi)`; Kotlin rejects an empty range. */
  function CoerceIn(v: real, lo: real, hi: real): (r: real)
    requires lo <= hi
    ensures lo <= r <= hi
    ensures lo <= v <= hi ==> r == v
    ensures v < lo ==> r == lo
    ensures v > hi ==> r == hi
  {
    if v < lo then lo else if v > hi then hi else v
  }

  lemma AnyOutsideSnoc(aliens: seq<Alien>, a: Alien, screenWidth: real)
    ensures AnyOutside(aliens + [a], screenWidth) == (AnyOutside(aliens, screenWidth) || OutsideEdges(a, screenWidth))
  {
    if AnyOutside(aliens, screenWidth) {
      var k :| 0 <= k < |aliens| && OutsideEdges(aliens[k], screenWidth);
      assert (aliens + [a])[k] == aliens[k];
    }
    if OutsideEdges(a, screenWidth) {
      assert (aliens + [a])[|aliens|] == a;
    }
  }

  /** The formation move of `updateGame`: a `map` that also raises
      `shouldMoveDown`, then, on a reversal, the second `map`. */
  method MoveAliens(aliens: seq<Alien>, speed: real, direction: real, screenWidth: real)
    returns (moved: seq<Alien>, newDirection: real)
    ensures Formation(moved, newDirection) == MoveFormation(aliens, speed, direction, screenWidth)
  {
    var shouldMoveDown := false;
    var shifted: seq<Alien> := [];
    for i := 0 to |aliens|
      invariant shifted == Shifted(aliens[..i], speed * direction, 0.0)
      invariant |shifted| == i
      invariant shouldMoveDown == AnyOutside(shifted, screenWidth)
    {
      var newX := aliens[i].x + speed * direction;
      if newX < 0.0 || newX > screenWidth - AlienWidth {
        shouldMoveDown := true;
      }
      AnyOutsideSnoc(shifted, Alien(newX, aliens[i].y), screenWidth);
      assert Shifted(aliens[..i + 1], speed * direction, 0.0) ==
        Shifted(aliens[..i], speed * direction, 0.0) + [Alien(newX, aliens[i].y)];
      shifted := shifted + [Alien(newX, aliens[i].y)];
    }
    assert aliens[..|aliens|] == aliens;
    assert shifted == Shifted(aliens, speed * direction, 0.0);
    newDirection := direction;
    moved := shifted;
    if shouldMoveDown {
      newDirection := direction * -1.0;
      moved := [];
      for i := 0 to |shifted|
        invariant moved == Shifted(shifted[..i], newDirection * speed, StepDown)
      {
        assert shifted[..i + 1] == shifted[..i] + [shifted[i]];
        moved := moved + [Alien(shifted[i].x + newDirection * speed, shifted[i].y + StepDown)];
      }
      assert shifted[..|shifted|] == shifted;
      assert moved == Shifted(shifted, newDirection * speed, StepDown);
      assert AnyOutside(Shifted(aliens, speed * direction, 0.0), screenWidth);
      assert MoveFormation(aliens, speed, direction, screenWidth).direction == newDirection;
      assert MoveFormation(aliens, speed, direction, screenWidth).aliens ==
        Shifted(Shifted(aliens, speed * direction, 0.0), (direction * -1.0) * speed, StepDown);
      ghost var dx := newDirection * speed;
      assert dx == (direction * -1.0) * speed;
      assert shifted == Shifted(aliens, speed * direction, 0.0);
    } else {
      assert MoveFormation(aliens, speed, direction, screenWidth) == Formation(shifted, direction);
    }
  }

  // One step of each obstacle sweep, for the loops below.

  lemma PlayerSweepStep(obstacles: seq<Obstacle>, i: nat, b: Bullet, respawn: Bullet)
    requires i < |obstacles|
    ensures var rest := PlayerSweep(obstacles[i + 1..], if IsCollisionWithObstacle(b, obstacles[i]) then respawn else b, respawn);
      PlayerSweep(obstacles[i..], b, respawn) ==
        if IsCollisionWithObstacle(b, obstacles[i]) then rest.(bullet := respawn)
        else Sweep([obstacles[i]] + rest.obstacles, rest.bullet)
  {
    assert obstacles[i..][1..] == obstacles[i + 1..];
  }

  lemma {:induction false} UnhitSnoc(obstacles: seq<Obstacle>, o: Obstacle, b: Bullet)
    ensures Unhit(obstacles + [o], b) ==
      Unhit(obstacles, b) + if IsCollisionWithObstacle(b, o) then [] else [o]
  {
    if obstacles == [] {
      assert [] + [o] == [o];
      assert [o][1..] == [];
    } else {
      assert (obstacles + [o])[1..] == obstacles[1..] + [o];
      UnhitSnoc(obstacles[1..], o, b);
    }
  }

  lemma EnemySweepStep(bullets: seq<Bullet>, i: nat, obstacles: seq<Obstacle>)
    requires i < |bullets|
    ensures var left := Unhit(obstacles, bullets[i]);
      var rest := EnemySweep(bullets[i + 1..], left);
      EnemySweep(bullets[i..], obstacles) ==
        if |left| < |obstacles| then rest else ([bullets[i]] + rest.0, rest.1)
  {
    assert bullets[i..][1..] == bullets[i + 1..];
  }

  /** `obstacles.removeAll { … }` for the player's bullet: the predicate
      respawns the bullet on every hit, so later obstacles are checked
      against the respawned bullet. */
  method SweepPlayerBullet(obstacles: seq<Obstacle>, bullet: Bullet, respawn: Bullet)
    returns (kept: seq<Obstacle>, b: Bullet)
    ensures Sweep(kept, b) == PlayerSweep(obstacles, bullet, respawn)
  {
    kept, b := [], bullet;
    assert obstacles[0..] == obstacles;
    for i := 0 to |obstacles|
      invariant PlayerSweep(obstacles, bullet, respawn) ==
        Sweep(kept + PlayerSweep(obstacles[i..], b, respawn).obstacles, PlayerSweep(obstacles[i..], b, respawn).bullet)
    {
      PlayerSweepStep(obstacles, i, b, respawn);
      var hit := IsCollisionWithObstacle(b, obstacles[i]);
      if hit {
        PlayerSweepSpec(obstacles[i + 1..], respawn, respawn);
        b := respawn;
      } else {
        ghost var rest := PlayerSweep(obstacles[i + 1..], b, respawn).obstacles;
        assert kept + ([obstacles[i]] + rest) == kept + [obstacles[i]] + rest;
        kept := kept + [obstacles[i]];
      }
    }
  }

  /** `obstacles.removeAll { … }` for one enemy bullet; like `removeAll`,
      it reports whether anything was removed. */
  method RemoveHitBy(obstacles: seq<Obstacle>, b: Bullet) returns (kept: seq<Obstacle>, hit: bool)
    ensures kept == Unhit(obstacles, b)
    ensures hit <==> |kept| < |obstacles|
  {
    kept, hit := [], false;
    for i := 0 to |obstacles|
      invariant kept == Unhit(obstacles[..i], b)
      invariant hit <==> |kept| < i
    {
      assert obstacles[..i + 1] == obstacles[..i] + [obstacles[i]];
      UnhitSnoc(obstacles[..i], obstacles[i], b);
      if IsCollisionWithObstacle(b, obstacles[i]) {
        hit := true;
      } else {
        kept := kept + [obstacles[i]];
      }
    }
    assert obstacles[..|obstacles|] == obstacles;
  }

  /** The `forEach` over the enemy bullets: each removes the obstacles it
      overlaps and is kept only if it overlapped none. */
  method SweepEnemyBullets(bullets: seq<Bullet>, obstacles: seq<Obstacle>)
    returns (filtered: seq<Bullet>, left: seq<Obstacle>)
    ensures (filtered, left) == EnemySweep(bullets, obstacles)
  {
    filtered, left := [], obstacles;
    assert bullets[0..] == bullets;
    assert [] + EnemySweep(bullets, obstacles).0 == EnemySweep(bullets, obstacles).0;
    for i := 0 to |bullets|
      invariant EnemySweep(bullets, obstacles) ==
        (filtered + EnemySweep(bullets[i..], left).0, EnemySweep(bullets[i..], left).1)
    {
      EnemySweepStep(bullets, i, left);
      var b := bullets[i];
      var remaining, hit := RemoveHitBy(left, b);
      left := remaining;
      if !hit {
        ghost var rest := EnemySweep(bullets[i + 1..], left).0;
        assert filtered + [b] + rest == filtered + ([b] + rest);
        filtered := filtered + [b];
      }
    }
    assert bullets[|bullets|..] == [];
    assert filtered + [] == filtered;
  }

  /** The world-changing part of `updateGame`, statement by statement:
      the formation moves, the bullets advance, the first alien hit is
      removed, the bullets meet the obstacles, an alien may fire, and the
      game-over test runs. Everything it decides is the tick's resolution. */
  method StepWorld(state: GameState, alienDirection: real, screenWidth: real, screenHeight: real,
                   roll: int, pick: nat) returns (r: Resolution)
    ensures r == Resolve(state, alienDirection, screenWidth, screenHeight, roll, pick)
  {
    ghost var spec := Resolve(state, alienDirection, screenWidth, screenHeight, roll, pick);
    // Move aliens
    var aliensFinal, direction := MoveAliens(state.aliens, state.alienSpeed, alienDirection, screenWidth);

    // Player bullet
    var respawn := Respawn(state.player.x, screenHeight);
    var bullet := state.bullet;
    bullet := if bullet.y < 0.0 then respawn else bullet.(y := bullet.y - PlayerBulletStep);
    var advancedBullet := bullet;
    assert Formation(aliensFinal, direction) == spec.formation && advancedBullet == spec.bullet;

    // Enemy bullets
    var enemyBullets := AdvanceEnemyBullets(state.enemyBullets, screenHeight);

    // Bullet hits alien
    var hitAlien := FirstHit(aliensFinal, bullet);
    var aliensAfterHit := aliensFinal;
    if hitAlien.Some? {
      aliensAfterHit := RemoveAlien(aliensFinal, aliensFinal[hitAlien.value]);
      bullet := respawn;
    }
    assert enemyBullets == spec.advanced && hitAlien == spec.hit && aliensAfterHit == spec.aliens;

    // Obstacles
    var obstacles;
    obstacles, bullet := SweepPlayerBullet(state.obstacles, bullet, respawn);
    var filteredEnemyBullets, left := SweepEnemyBullets(enemyBullets, obstacles);
    var swept := filteredEnemyBullets;
    assert Sweep(obstacles, bullet) == spec.shot && (swept, left) == spec.sweep;

    // Enemy shooting
    if |aliensAfterHit| > 0 && roll < FireChance {
      var shooter := aliensAfterHit[pick % |aliensAfterHit|];
      filteredEnemyBullets := filteredEnemyBullets + [EnemyShot(shooter)];
    }

    assert filteredEnemyBullets == spec.enemyBullets;

    // Player hit?
    var playerHit := PlayerHit(filteredEnemyBullets, state.player.x, screenHeight);
    var alienReached := AlienReached(aliensAfterHit, screenHeight);
    r := Resolution(Formation(aliensFinal, direction), advancedBullet, enemyBullets, hitAlien, aliensAfterHit,
                    Sweep(obstacles, bullet), (swept, left), filteredEnemyBullets, playerHit || alienReached);
  }

  /** The end of `updateGame`: a cleared wave starts the next one with a
      fresh formation and layout, 0.5 more speed and the game running;
      otherwise the resolved world is published with running = not over. */
  method Publish(state: GameState, r: Resolution, screenHeight: real) returns (next: GameState)
    ensures next == NextState(state, r, screenHeight)
  {
    var newScore := Wrap(state.score + if r.hit.Some? then Wrap(10 * state.wave) else 0);
    if |r.aliens| == 0 {
      var freshObstacles := CreateObstacles();
      next := state.(aliens := CreateAliens(), bullet := Respawn(state.player.x, screenHeight),
                     enemyBullets := [], obstacles := freshObstacles, score := newScore,
                     wave := Wrap(state.wave + 1), alienSpeed := state.alienSpeed + 0.5,
                     isRunning := true, isGameOver := false);
    } else {
      next := state.(aliens := r.aliens, bullet := r.shot.bullet, enemyBullets := r.enemyBullets,
                     obstacles := r.sweep.1, score := newScore, isRunning := !r.gameOver,
                     isGameOver := r.gameOver);
    }
  }

  class GameViewModel {
    var gameState: GameState
    var hasStarted: bool
    var screenWidth: real
    var screenHeight: real
    var alienDirection: real
    var scoreSaved: bool
    /** The preference store reached through the application context. */
    const store: ScoreStore
    /** Scores saved since the session was last started. */
    ghost var savesThisSession: nat

    ghost predicate Valid()
      reads this
    {
      && savesThisSession == (if scoreSaved then 1 else 0)
      && IsInt(gameState.score) && IsInt(gameState.wave)
      && Distinct(gameState.aliens)
      && !gameState.bullet.isFromEnemy
      && (hasStarted ==> gameState.isRunning == !gameState.isGameOver)
      && (!hasStarted ==> !gameState.isRunning && !gameState.isGameOver)
      && (gameState.isGameOver ==> scoreSaved)
    }

    constructor (store: ScoreStore)
      ensures Valid()
      ensures this.store == store
      ensures gameState == DefaultGameState()
      ensures !hasStarted && !scoreSaved && savesThisSession == 0
      ensures screenWidth == 0.0 && screenHeight == 0.0 && alienDirection == 10.0
    {
      this.store := store;
      gameState := DefaultGameState();
      hasStarted := false;
      screenWidth, screenHeight := 0.0, 0.0;
      alienDirection := 10.0;
      scoreSaved := false;
      savesThisSession := 0;
    }

    method UpdateScreenSize(width: real, height: real)
      requires Valid()
      modifies this
      ensures Valid()
      ensures screenWidth == width && screenHeight == height
      ensures gameState == old(gameState) && alienDirection == old(alienDirection)
      ensures hasStarted == old(hasStarted) && scoreSaved == old(scoreSaved)
      ensures savesThisSession == old(savesThisSession)
    {
      screenWidth := width;
      screenHeight := height;
    }

    /** `startGame`: nothing happens while a screen dimension is 0;
        otherwise a fresh session starts at wave 1 with nothing saved. */
    method StartGame()
      requires Valid()
      modifies this
      ensures Valid()
      ensures screenWidth == old(screenWidth) && screenHeight == old(screenHeight)
      ensures screenWidth == 0.0 || screenHeight == 0.0 ==>
        gameState == old(gameState) && hasStarted == old(hasStarted) &&
        scoreSaved == old(scoreSaved) && alienDirection == old(alienDirection) &&
        savesThisSession == old(savesThisSession)
      ensures screenWidth != 0.0 && screenHeight != 0.0 ==>
        && hasStarted && !scoreSaved && savesThisSession == 0 && alienDirection == 10.0
        && gameState == GameState(Player(screenWidth / 2.0), CreateAliens(),
                                  Bullet(screenWidth / 2.0, screenHeight - 70.0, false), [],
                                  ObstacleLayout(), 0, 1, 1.0, true, false, false)
    {
      if screenWidth == 0.0 || screenHeight == 0.0 {
        return;
      }
      hasStarted := true;
      scoreSaved := false;
      savesThisSession := 0;
      alienDirection := 10.0;
      var obstacles := CreateObstacles();
      gameState := GameState(Player(screenWidth / 2.0), CreateAliens(),
                             Bullet(screenWidth / 2.0, screenHeight - 70.0, false), [],
                             obstacles, 0, 1, 1.0, true, false, false);
    }

    /** `movePlayer`: the player's x becomes `newX` clamped to
        [0, width - 50]; nothing else changes. */
    method MovePlayer(newX: real)
      requires Valid()
      requires screenWidth >= 50.0
      modifies this
      ensures Valid()
      ensures gameState == old(gameState).(player := Player(CoerceIn(newX, 0.0, old(screenWidth) - 50.0)))
      ensures 0.0 <= gameState.player.x <= screenWidth - 50.0
      ensures screenWidth == old(screenWidth) && screenHeight == old(screenHeight)
      ensures alienDirection == old(alienDirection) && hasStarted == old(hasStarted)
      ensures scoreSaved == old(scoreSaved) && savesThisSession == old(savesThisSession)
    {
      gameState := gameState.(player := gameState.player.(x := CoerceIn(newX, 0.0, screenWidth - 50.0)));
    }

    /** `pauseGame`: sets the pause flag; a second call changes nothing. */
    method PauseGame()
      requires Valid()
      modifies this
      ensures Valid()
      ensures gameState == old(gameState).(isPaused := true)
      ensures old(gameState.isPaused) ==> gameState == old(gameState)
      ensures screenWidth == old(screenWidth) && screenHeight == old(screenHeight)
      ensures alienDirection == old(alienDirection) && hasStarted == old(hasStarted)
      ensures scoreSaved == old(scoreSaved) && savesThisSession == old(savesThisSession)
    {
      gameState := gameState.(isPaused := true);
    }

    /** `resumeGame`: clears the pause flag, but only when the game is
        paused and not over. */
    method ResumeGame()
      requires Valid()
      modifies this
      ensures Valid()
      ensures old(gameState.isPaused) && !old(gameState.isGameOver) ==>
        gameState == old(gameState).(isPaused := false)
      ensures !old(gameState.isPaused) || old(gameState.isGameOver) ==> gameState == old(gameState)
      ensures screenWidth == old(screenWidth) && screenHeight == old(screenHeight)
      ensures alienDirection == old(alienDirection) && hasStarted == old(hasStarted)
      ensures scoreSaved == old(scoreSaved) && savesThisSession == old(savesThisSession)
    {
      if !gameState.isPaused || gameState.isGameOver {
        return;
      }
      gameState := gameState.(isPaused := false);
    }

    /** The save block of `updateGame`: the first game over of a session
        saves the score with the wave it was reached in; a later one
        changes nothing. */
    method SaveOnce(score: int, wave: int)
      requires IsInt(score) && IsInt(wave)
      modifies this, store
      ensures scoreSaved
      ensures savesThisSession == old(savesThisSession) + (if old(scoreSaved) then 0 else 1)
      ensures store.raw == if old(scoreSaved) then old(store.raw)
                           else Encode(TopScores(old(store.GetScores()), HighScore(score, wave)))
      ensures gameState == old(gameState) && alienDirection == old(alienDirection)
      ensures screenWidth == old(screenWidth) && screenHeight == old(screenHeight)
      ensures hasStarted == old(hasStarted)
    {
      if !scoreSaved {
        scoreSaved := true;
        savesThisSession := savesThisSession + 1;
        store.SaveScore(score, wave);
      }
    }

    /** `updateGame`: one tick while the game runs and is not paused, with
        the fire roll in [0, 100] and the shooter draw passed in. The new
        snapshot and direction are those of the tick's specification; the
        score is saved the first time a game over is detected in the
        session, before the cleared-wave check, and never again until the
        next start. */
    method UpdateGame(roll: int, pick: nat)
      requires Valid()
      requires gameState.isRunning && !gameState.isPaused
      requires 0 <= roll <= 100
      modifies this, store
      ensures Valid()
      ensures var r := Resolve(old(gameState), old(alienDirection), old(screenWidth), old(screenHeight), roll, pick);
        && gameState == NextState(old(gameState), r, old(screenHeight))
        && alienDirection == r.formation.direction
        && scoreSaved == (old(scoreSaved) || r.gameOver)
        && savesThisSession == old(savesThisSession) + (if r.gameOver && !old(scoreSaved) then 1 else 0)
        && store.raw == if r.gameOver && !old(scoreSaved)
                        then Encode(TopScores(old(store.GetScores()), HighScore(NewScore(old(gameState), r), old(gameState.wave))))
                        else old(store.raw)
      ensures screenWidth == old(screenWidth) && screenHeight == old(screenHeight)
      ensures hasStarted == old(hasStarted)
    {
      var state, direction, width, height := gameState, alienDirection, screenWidth, screenHeight;
      var r := StepWorld(state, direction, width, height, roll, pick);
      alienDirection := r.formation.direction;
      var newScore := Wrap(state.score + if r.hit.Some? then Wrap(10 * state.wave) else 0);
      assert newScore == NewScore(state, r);

      // Save score
      if r.gameOver {
        SaveOnce(newScore, state.wave);
      }

      TickKeepsInvariant(state, direction, width, height, roll, pick);

      gameState := Publish(state, r, height);
    }
  }
}
