/** One tick of the game, `updateGame`, as functions of the snapshot, the
    alien direction, the screen size and the two random draws (`roll` in
    [0, 100] for the fire chance, `pick` for the shooter). The imperative
    implementation in GameViewModel is proved equal to these functions; the
    lemmas below state what a tick promises. */
module Simulation {
  import opened Wrappers
  import opened KotlinInt
  import opened GameObjects
  import opened Collisions

  const AlienWidth: real := 60.0
  const StepDown: real := 40.0
  const PlayerBulletStep: real := 50.0
  const EnemyBulletStep: real := 25.0
  const EnemyBulletMargin: real := 50.0
  const FireChance: int := 5

  // ---------------------------------------------------------------------
  // Formation movement.

  function Shifted(aliens: seq<Alien>, dx: real, dy: real): seq<Alien>
  {
    seq(|aliens|, k requires 0 <= k < |aliens| => Alien(aliens[k].x + dx, aliens[k].y + dy))
  }

  /** An alien past the left edge or the right edge (x > width - 60). */
  predicate OutsideEdges(a: Alien, screenWidth: real)
  {
    a.x < 0.0 || a.x > screenWidth - AlienWidth
  }

  predicate AnyOutside(aliens: seq<Alien>, screenWidth: real)
  {
    exists k :: 0 <= k < |aliens| && OutsideEdges(aliens[k], screenWidth)
  }

  datatype Formation = Formation(aliens: seq<Alien>, direction: real)

  /** Every alien moves by speed * direction; if one of them ends outside
      the edges, the direction flips, every alien moves by speed times the
      new direction and steps down 40. */
  function MoveFormation(aliens: seq<Alien>, speed: real, direction: real, screenWidth: real): (r: Formation)
    ensures |r.aliens| == |aliens|
  {
    var moved := Shifted(aliens, speed * direction, 0.0);
    if AnyOutside(moved, screenWidth) then
      var reversed := direction * -1.0;
      Formation(Shifted(moved, reversed * speed, StepDown), reversed)
    else
      Formation(moved, direction)
  }

  /** The two cases of a formation move, alien by alien: the net effect of
      a reversal tick is a pure step down, x positions coming back to where
      they were. */
  lemma MoveFormationSpec(aliens: seq<Alien>, speed: real, direction: real, screenWidth: real)
    ensures var r := MoveFormation(aliens, speed, direction, screenWidth);
      && (AnyOutside(Shifted(aliens, speed * direction, 0.0), screenWidth) ==>
            r.direction == -direction &&
            forall k :: 0 <= k < |aliens| ==> r.aliens[k] == Alien(aliens[k].x, aliens[k].y + StepDown))
      && (!AnyOutside(Shifted(aliens, speed * direction, 0.0), screenWidth) ==>
            r.direction == direction &&
            forall k :: 0 <= k < |aliens| ==> r.aliens[k] == Alien(aliens[k].x + speed * direction, aliens[k].y))
  {
  }

  predicate InBounds(aliens: seq<Alien>, screenWidth: real)
  {
    forall k :: 0 <= k < |aliens| ==> !OutsideEdges(aliens[k], screenWidth)
  }

  /** A formation inside the edges stays inside them: either the move keeps
      every alien inside, or it is undone by the reversal. */
  lemma FormationStaysInBounds(aliens: seq<Alien>, speed: real, direction: real, screenWidth: real)
    requires InBounds(aliens, screenWidth)
    ensures InBounds(MoveFormation(aliens, speed, direction, screenWidth).aliens, screenWidth)
  {
    var moved := Shifted(aliens, speed * direction, 0.0);
    var r := MoveFormation(aliens, speed, direction, screenWidth);
    MoveFormationSpec(aliens, speed, direction, screenWidth);
    if !AnyOutside(moved, screenWidth) {
      forall k | 0 <= k < |r.aliens|
        ensures !OutsideEdges(r.aliens[k], screenWidth)
      {
        assert r.aliens[k] == moved[k];
      }
    }
  }

  /** Moving the formation keeps aliens at distinct positions. */
  lemma FormationKeepsDistinct(aliens: seq<Alien>, speed: real, direction: real, screenWidth: real)
    requires Distinct(aliens)
    ensures Distinct(MoveFormation(aliens, speed, direction, screenWidth).aliens)
  {
    var r := MoveFormation(aliens, speed, direction, screenWidth);
    MoveFormationSpec(aliens, speed, direction, screenWidth);
    forall i, j | 0 <= i < j < |r.aliens|
      ensures r.aliens[i] != r.aliens[j]
    {
      assert aliens[i] != aliens[j];
    }
  }

  // ---------------------------------------------------------------------
  // Bullets.

  /** Where the player's bullet reappears: above the player's gun. */
  function Respawn(playerX: real, screenHeight: real): Bullet
  {
    Bullet(playerX + 20.0, screenHeight - 70.0, false)
  }

  function AdvancePlayerBullet(b: Bullet, respawn: Bullet): Bullet
  {
    if b.y < 0.0 then respawn else b.(y := b.y - PlayerBulletStep)
  }

  /** An enemy bullet still above the drop limit, height + 50. */
  predicate OnScreen(b: Bullet, screenHeight: real)
  {
    b.y < screenHeight + EnemyBulletMargin
  }

  function Lowered(b: Bullet): Bullet
  {
    b.(y := b.y + EnemyBulletStep)
  }

  function Raised(b: Bullet): Bullet
  {
    b.(y := b.y - EnemyBulletStep)
  }

  /** `mapNotNull`: bullets above height + 50 move down 25, the others are
      dropped. */
  function AdvanceEnemyBullets(bullets: seq<Bullet>, screenHeight: real): (r: seq<Bullet>)
    ensures |r| <= |bullets|
  {
    if bullets == [] then []
    else
      var b := bullets[0];
      var rest := AdvanceEnemyBullets(bullets[1..], screenHeight);
      if OnScreen(b, screenHeight) then [Lowered(b)] + rest else rest
  }

  /** Every survivor is a bullet that was above the limit, moved down 25,
      and every such bullet survives. */
  lemma {:induction false} AdvanceEnemyBulletsSpec(bullets: seq<Bullet>, screenHeight: real)
    ensures var r := AdvanceEnemyBullets(bullets, screenHeight);
      && (forall b :: b in r ==> Raised(b) in bullets && OnScreen(Raised(b), screenHeight))
      && (forall k :: 0 <= k < |bullets| && OnScreen(bullets[k], screenHeight) ==> Lowered(bullets[k]) in r)
  {
    if bullets != [] {
      var b := bullets[0];
      AdvanceEnemyBulletsSpec(bullets[1..], screenHeight);
      assert forall k :: 1 <= k < |bullets| ==> bullets[k] == bullets[1..][k - 1];
      assert Raised(Lowered(b)) == b;
    }
  }

  function EnemyShot(shooter: Alien): Bullet
  {
    Bullet(shooter.x + 20.0, shooter.y + 30.0, true)
  }

  // ---------------------------------------------------------------------
  // The player's bullet against the aliens.

  /** `firstOrNull { isCollision(it, bullet) }`, as a position. */
  function FirstHit(aliens: seq<Alien>, b: Bullet): (r: Option<nat>)
    ensures r.Some? ==> r.value < |aliens|
  {
    if aliens == [] then None
    else if IsCollision(aliens[0], b) then Some(0)
    else
      match FirstHit(aliens[1..], b)
      case None => None
      case Some(i) => Some(i + 1)
  }

  /** The position found is the first alien the bullet hits; none is found
      only when the bullet hits no alien. */
  lemma {:induction false} FirstHitSpec(aliens: seq<Alien>, b: Bullet)
    ensures var r := FirstHit(aliens, b);
      && (r.Some? ==> IsCollision(aliens[r.value], b) &&
                      forall k :: 0 <= k < r.value ==> !IsCollision(aliens[k], b))
      && (r.None? ==> forall k :: 0 <= k < |aliens| ==> !IsCollision(aliens[k], b))
  {
    if aliens != [] && !IsCollision(aliens[0], b) {
      FirstHitSpec(aliens[1..], b);
      assert forall k :: 1 <= k < |aliens| ==> aliens[k] == aliens[1..][k - 1];
    }
  }

  /** `filterNot { it == hit }`. */
  function RemoveAlien(aliens: seq<Alien>, hit: Alien): (r: seq<Alien>)
    ensures |r| <= |aliens|
  {
    if aliens == [] then []
    else
      var rest := RemoveAlien(aliens[1..], hit);
      if aliens[0] == hit then rest else [aliens[0]] + rest
  }

  /** Every alien equal to `hit` goes and every other alien stays. */
  lemma {:induction false} RemoveAlienSpec(aliens: seq<Alien>, hit: Alien)
    ensures forall a :: a in RemoveAlien(aliens, hit) <==> a in aliens && a != hit
  {
    if aliens != [] {
      RemoveAlienSpec(aliens[1..], hit);
      assert aliens == [aliens[0]] + aliens[1..];
    }
  }

  /** In a formation of distinct aliens, removal by value removes exactly
      the alien at the hit position. */
  lemma {:induction false} RemoveDistinctAlien(aliens: seq<Alien>, k: nat)
    requires Distinct(aliens) && k < |aliens|
    ensures RemoveAlien(aliens, aliens[k]) == aliens[..k] + aliens[k + 1..]
  {
    if k == 0 {
      assert aliens[0] !in aliens[1..];
      RemoveNothing(aliens[1..], aliens[0]);
    } else {
      assert Distinct(aliens[1..]) by {
        forall i, j | 0 <= i < j < |aliens| - 1
          ensures aliens[1..][i] != aliens[1..][j]
        {
          assert aliens[i + 1] != aliens[j + 1];
        }
      }
      assert aliens[0] != aliens[k];
      RemoveDistinctAlien(aliens[1..], k - 1);
      assert aliens[1..][k - 1] == aliens[k];
      assert aliens[..k] == [aliens[0]] + aliens[1..][..k - 1];
      assert aliens[k + 1..] == aliens[1..][k..];
    }
  }

  lemma {:induction false} RemoveNothing(aliens: seq<Alien>, a: Alien)
    requires a !in aliens
    ensures RemoveAlien(aliens, a) == aliens
  {
    if aliens != [] {
      assert aliens == [aliens[0]] + aliens[1..];
      RemoveNothing(aliens[1..], a);
    }
  }

  /** Removing the hit alien keeps the survivors' positions distinct. */
  lemma {:induction false} RemoveKeepsDistinct(aliens: seq<Alien>, k: nat)
    requires Distinct(aliens) && k < |aliens|
    ensures Distinct(RemoveAlien(aliens, aliens[k]))
  {
    RemoveDistinctAlien(aliens, k);
    var r := aliens[..k] + aliens[k + 1..];
    assert forall i :: 0 <= i < |r| ==> r[i] == aliens[if i < k then i else i + 1];
    forall i, j | 0 <= i < j < |r|
      ensures r[i] != r[j]
    {
      assert r[i] == aliens[if i < k then i else i + 1];
      assert r[j] == aliens[if j < k then j else j + 1];
    }
  }

  // ---------------------------------------------------------------------
  // Bullets against obstacles.

  datatype Sweep = Sweep(obstacles: seq<Obstacle>, bullet: Bullet)

  /** The player's bullet against the obstacles, in list order: an obstacle
      the current bullet overlaps is removed and the bullet respawns, and
      the obstacles after it are checked against the respawned bullet. */
  function PlayerSweep(obstacles: seq<Obstacle>, b: Bullet, respawn: Bullet): (r: Sweep)
    ensures |r.obstacles| <= |obstacles|
  {
    if obstacles == [] then Sweep([], b)
    else if IsCollisionWithObstacle(b, obstacles[0]) then
      PlayerSweep(obstacles[1..], respawn, respawn).(bullet := respawn)
    else
      var rest := PlayerSweep(obstacles[1..], b, respawn);
      Sweep([obstacles[0]] + rest.obstacles, rest.bullet)
  }

  /** Only obstacles are removed; one is removed at all exactly when the
      incoming bullet overlaps one of them, and then the bullet is the
      respawned one; otherwise nothing changes. Which obstacles go is
      stated by `PlayerSweepFirstHit`. */
  lemma {:induction false} PlayerSweepSpec(obstacles: seq<Obstacle>, b: Bullet, respawn: Bullet)
    ensures var r := PlayerSweep(obstacles, b, respawn);
      && (forall o :: o in r.obstacles ==> o in obstacles)
      && (|r.obstacles| < |obstacles| <==>
            exists k :: 0 <= k < |obstacles| && IsCollisionWithObstacle(b, obstacles[k]))
      && (|r.obstacles| < |obstacles| ==> r.bullet == respawn)
      && (|r.obstacles| == |obstacles| ==> r == Sweep(obstacles, b))
  {
    if obstacles != [] {
      assert forall k :: 1 <= k < |obstacles| ==> obstacles[k] == obstacles[1..][k - 1];
      if IsCollisionWithObstacle(b, obstacles[0]) {
        PlayerSweepSpec(obstacles[1..], respawn, respawn);
      } else {
        PlayerSweepSpec(obstacles[1..], b, respawn);
        assert obstacles == [obstacles[0]] + obstacles[1..];
      }
    }
  }

  /** `removeAll { isCollisionWithObstacle(b, it) }` for one enemy bullet. */
  function Unhit(obstacles: seq<Obstacle>, b: Bullet): (r: seq<Obstacle>)
    ensures |r| <= |obstacles|
  {
    if obstacles == [] then []
    else
      var rest := Unhit(obstacles[1..], b);
      if IsCollisionWithObstacle(b, obstacles[0]) then rest else [obstacles[0]] + rest
  }

  /** Exactly the obstacles the bullet does not overlap remain, and the
      list keeps its length exactly when the bullet overlaps none. */
  lemma {:induction false} UnhitSpec(obstacles: seq<Obstacle>, b: Bullet)
    ensures var r := Unhit(obstacles, b);
      && (forall o :: o in r <==> o in obstacles && !IsCollisionWithObstacle(b, o))
      && (|r| == |obstacles| <==> forall k :: 0 <= k < |obstacles| ==> !IsCollisionWithObstacle(b, obstacles[k]))
  {
    if obstacles != [] {
      UnhitSpec(obstacles[1..], b);
      assert obstacles == [obstacles[0]] + obstacles[1..];
      assert forall k :: 1 <= k < |obstacles| ==> obstacles[k] == obstacles[1..][k - 1];
    }
  }

  /** Once the bullet has respawned, every obstacle the respawned bullet
      overlaps goes and the bullet stays respawned. */
  lemma {:induction false} PlayerSweepRespawned(obstacles: seq<Obstacle>, respawn: Bullet)
    ensures PlayerSweep(obstacles, respawn, respawn) == Sweep(Unhit(obstacles, respawn), respawn)
  {
    if obstacles != [] {
      PlayerSweepRespawned(obstacles[1..], respawn);
    }
  }

  /** The sweep in closed form: when obstacle `k` is the first one the
      incoming bullet overlaps, the obstacles before it all stay, it goes,
      and the obstacles after it are checked against the respawned bullet,
      which is the bullet left at the end. */
  lemma {:induction false} PlayerSweepFirstHit(obstacles: seq<Obstacle>, b: Bullet, respawn: Bullet, k: nat)
    requires k < |obstacles| && IsCollisionWithObstacle(b, obstacles[k])
    requires forall j :: 0 <= j < k ==> !IsCollisionWithObstacle(b, obstacles[j])
    ensures PlayerSweep(obstacles, b, respawn) ==
      Sweep(obstacles[..k] + Unhit(obstacles[k + 1..], respawn), respawn)
  {
    if k == 0 {
      PlayerSweepRespawned(obstacles[1..], respawn);
      assert obstacles[..0] + Unhit(obstacles[1..], respawn) == Unhit(obstacles[1..], respawn);
    } else {
      var tail := obstacles[1..];
      assert !IsCollisionWithObstacle(b, obstacles[0]);
      assert tail[k - 1] == obstacles[k];
      assert forall j :: 0 <= j < k - 1 ==> tail[j] == obstacles[j + 1];
      PlayerSweepFirstHit(tail, b, respawn, k - 1);
      assert tail[k..] == obstacles[k + 1..];
      assert obstacles[..k] == [obstacles[0]] + tail[..k - 1];
      ghost var left := Unhit(obstacles[k + 1..], respawn);
      assert [obstacles[0]] + (tail[..k - 1] + left) == obstacles[..k] + left;
    }
  }

  /** The enemy bullets against the obstacles, bullet by bullet: each bullet
      removes every obstacle it overlaps and is itself dropped if it
      overlapped any. */
  function EnemySweep(bullets: seq<Bullet>, obstacles: seq<Obstacle>): (r: (seq<Bullet>, seq<Obstacle>))
    ensures |r.0| <= |bullets| && |r.1| <= |obstacles|
  {
    if bullets == [] then ([], obstacles)
    else
      var left := Unhit(obstacles, bullets[0]);
      var rest := EnemySweep(bullets[1..], left);
      if |left| < |obstacles| then rest else ([bullets[0]] + rest.0, rest.1)
  }

  /** Exactly the obstacles that no bullet overlaps remain. */
  lemma {:induction false} EnemySweepObstacles(bullets: seq<Bullet>, obstacles: seq<Obstacle>)
    ensures forall o :: o in EnemySweep(bullets, obstacles).1 <==>
      o in obstacles && forall b :: b in bullets ==> !IsCollisionWithObstacle(b, o)
  {
    if bullets != [] {
      UnhitSpec(obstacles, bullets[0]);
      EnemySweepObstacles(bullets[1..], Unhit(obstacles, bullets[0]));
      assert bullets == [bullets[0]] + bullets[1..];
    }
  }

  /** Only given bullets survive, and one that overlapped no obstacle at
      the start does. */
  lemma {:induction false} EnemySweepBullets(bullets: seq<Bullet>, obstacles: seq<Obstacle>)
    ensures var r := EnemySweep(bullets, obstacles);
      && (forall b :: b in r.0 ==> b in bullets)
      && (forall k :: (0 <= k < |bullets| &&
                       forall o :: o in obstacles ==> !IsCollisionWithObstacle(bullets[k], o)) ==>
                      bullets[k] in r.0)
  {
    if bullets != [] {
      var left := Unhit(obstacles, bullets[0]);
      UnhitSpec(obstacles, bullets[0]);
      EnemySweepBullets(bullets[1..], left);
      var rest := EnemySweep(bullets[1..], left);
      var r := EnemySweep(bullets, obstacles);
      assert r.0 == if |left| < |obstacles| then rest.0 else [bullets[0]] + rest.0;
      forall x | x in r.0
        ensures x in bullets
      {
        if x != bullets[0] {
          assert x in rest.0 && x in bullets[1..];
        }
      }
      forall k | 0 <= k < |bullets| &&
                 forall o :: o in obstacles ==> !IsCollisionWithObstacle(bullets[k], o)
        ensures bullets[k] in r.0
      {
        if k == 0 {
          assert forall j :: 0 <= j < |obstacles| ==> obstacles[j] in obstacles;
          assert |left| == |obstacles|;
        } else {
          assert bullets[k] == bullets[1..][k - 1];
          assert bullets[k] in rest.0;
        }
      }
    }
  }

  /** Afterwards exactly the obstacles that no bullet overlaps remain, no
      surviving bullet overlaps a surviving obstacle, a bullet that
      overlapped no obstacle at the start survives, and nothing new
      appears. Which bullets survive is stated by `EnemySweepKept`. */
  lemma EnemySweepSpec(bullets: seq<Bullet>, obstacles: seq<Obstacle>)
    ensures var r := EnemySweep(bullets, obstacles);
      && (forall b :: b in r.0 ==> b in bullets)
      && (forall o :: o in r.1 <==>
            o in obstacles && forall b :: b in bullets ==> !IsCollisionWithObstacle(b, o))
      && (forall b, o :: b in r.0 && o in r.1 ==> !IsCollisionWithObstacle(b, o))
      && (forall k :: (0 <= k < |bullets| &&
                       forall o :: o in obstacles ==> !IsCollisionWithObstacle(bullets[k], o)) ==>
                      bullets[k] in r.0)
  {
    EnemySweepObstacles(bullets, obstacles);
    EnemySweepBullets(bullets, obstacles);
  }

  /** Bullet `k` meets no standing obstacle on its turn: every obstacle it
      overlaps was already removed by an earlier bullet. */
  predicate Unobstructed(bullets: seq<Bullet>, obstacles: seq<Obstacle>, k: nat)
    requires k < |bullets|
  {
    forall o :: o in obstacles && IsCollisionWithObstacle(bullets[k], o) ==>
      exists j :: 0 <= j < k && IsCollisionWithObstacle(bullets[j], o)
  }

  /** The bullets from position `i` on that are unobstructed, in order. */
  function KeptFrom(bullets: seq<Bullet>, obstacles: seq<Obstacle>, i: nat): seq<Bullet>
    requires i <= |bullets|
    decreases |bullets| - i
  {
    if i == |bullets| then []
    else (if Unobstructed(bullets, obstacles, i) then [bullets[i]] else []) + KeptFrom(bullets, obstacles, i + 1)
  }

  /** `left` holds exactly the obstacles that no bullet before position `i`
      overlaps. */
  ghost predicate StandingBefore(bullets: seq<Bullet>, obstacles: seq<Obstacle>, i: nat, left: seq<Obstacle>)
    requires i <= |bullets|
  {
    forall o :: o in left <==>
      o in obstacles && forall j :: 0 <= j < i ==> !IsCollisionWithObstacle(bullets[j], o)
  }

  /** Bullet `i` removing what it overlaps leaves the obstacles standing
      before bullet `i + 1`. */
  lemma StandingNext(bullets: seq<Bullet>, obstacles: seq<Obstacle>, i: nat, left: seq<Obstacle>)
    requires i < |bullets| && StandingBefore(bullets, obstacles, i, left)
    ensures StandingBefore(bullets, obstacles, i + 1, Unhit(left, bullets[i]))
  {
    UnhitSpec(left, bullets[i]);
  }

  /** Bullet `i` is unobstructed exactly when it removes nothing. */
  lemma UnobstructedIffNoRemoval(bullets: seq<Bullet>, obstacles: seq<Obstacle>, i: nat, left: seq<Obstacle>)
    requires i < |bullets| && StandingBefore(bullets, obstacles, i, left)
    ensures Unobstructed(bullets, obstacles, i) <==> |Unhit(left, bullets[i])| == |left|
  {
    var b := bullets[i];
    UnhitSpec(left, b);
    if Unobstructed(bullets, obstacles, i) {
      forall k | 0 <= k < |left|
        ensures !IsCollisionWithObstacle(b, left[k])
      {
        assert left[k] in left;
      }
    } else {
      var o :| o in obstacles && IsCollisionWithObstacle(b, o) &&
               !exists j :: 0 <= j < i && IsCollisionWithObstacle(bullets[j], o);
      assert o in left;
      var k :| 0 <= k < |left| && left[k] == o;
      assert IsCollisionWithObstacle(b, left[k]);
    }
  }

  /** From position `i` on, with `left` holding exactly the obstacles no
      earlier bullet overlaps, the sweep keeps the unobstructed bullets. */
  lemma {:induction false} EnemySweepKeptFrom(bullets: seq<Bullet>, obstacles: seq<Obstacle>, i: nat,
                                               left: seq<Obstacle>)
    requires i <= |bullets| && StandingBefore(bullets, obstacles, i, left)
    ensures EnemySweep(bullets[i..], left).0 == KeptFrom(bullets, obstacles, i)
    decreases |bullets| - i
  {
    if i < |bullets| {
      StandingNext(bullets, obstacles, i, left);
      UnobstructedIffNoRemoval(bullets, obstacles, i, left);
      EnemySweepKeptFrom(bullets, obstacles, i + 1, Unhit(left, bullets[i]));
      assert bullets[i..][0] == bullets[i];
      assert bullets[i..][1..] == bullets[i + 1..];
    }
  }

  /** The `forEach` keeps exactly the bullets that meet no standing
      obstacle on their turn, in their original order: a bullet that hits
      an obstacle is dropped, together with every obstacle it overlaps. */
  lemma EnemySweepKept(bullets: seq<Bullet>, obstacles: seq<Obstacle>)
    ensures EnemySweep(bullets, obstacles).0 == KeptFrom(bullets, obstacles, 0)
  {
    assert bullets[0..] == bullets;
    EnemySweepKeptFrom(bullets, obstacles, 0, obstacles);
  }

  // ---------------------------------------------------------------------
  // End of the tick.

  predicate PlayerHit(bullets: seq<Bullet>, playerX: real, screenHeight: real)
  {
    exists k :: 0 <= k < |bullets| && IsCollisionWithPlayer(bullets[k], playerX, screenHeight)
  }

  predicate AlienReached(aliens: seq<Alien>, screenHeight: real)
  {
    exists k :: 0 <= k < |aliens| && aliens[k].y >= screenHeight - 70.0
  }

  /** Everything one tick decides before the snapshot is assembled. */
  datatype Resolution = Resolution(
    formation: Formation,        // the aliens after moving, and the new direction
    bullet: Bullet,              // the player's bullet after advancing
    advanced: seq<Bullet>,       // the enemy bullets after advancing
    hit: Option<nat>,            // position of the alien hit, if any
    aliens: seq<Alien>,          // the surviving aliens
    shot: Sweep,                 // obstacles and bullet after the player's bullet
    sweep: (seq<Bullet>, seq<Obstacle>), // after the enemy bullets
    enemyBullets: seq<Bullet>,   // after the possible new enemy shot
    gameOver: bool)

  function Resolve(s: GameState, direction: real, screenWidth: real, screenHeight: real,
                   roll: int, pick: nat): Resolution
  {
    var formation := MoveFormation(s.aliens, s.alienSpeed, direction, screenWidth);
    var respawn := Respawn(s.player.x, screenHeight);
    var bullet := AdvancePlayerBullet(s.bullet, respawn);
    var advanced := AdvanceEnemyBullets(s.enemyBullets, screenHeight);
    var hit := FirstHit(formation.aliens, bullet);
    var survivors := if hit.Some? then RemoveAlien(formation.aliens, formation.aliens[hit.value])
                     else formation.aliens;
    var shot := PlayerSweep(s.obstacles, if hit.Some? then respawn else bullet, respawn);
    var sweep := EnemySweep(advanced, shot.obstacles);
    var enemyBullets := if |survivors| > 0 && roll < FireChance
                        then sweep.0 + [EnemyShot(survivors[pick % |survivors|])]
                        else sweep.0;
    var gameOver := PlayerHit(enemyBullets, s.player.x, screenHeight) ||
                    AlienReached(survivors, screenHeight);
    Resolution(formation, bullet, advanced, hit, survivors, shot, sweep, enemyBullets, gameOver)
  }

  /** `state.score + if (hitAlien != null) 10 * state.wave else 0`, in
      32-bit arithmetic. */
  function NewScore(s: GameState, r: Resolution): int
  {
    Wrap(s.score + if r.hit.Some? then Wrap(10 * s.wave) else 0)
  }

  /** The snapshot the tick publishes: a fresh wave when no alien survives,
      otherwise the resolved world with running = not game over. */
  function NextState(s: GameState, r: Resolution, screenHeight: real): GameState
  {
    var score := NewScore(s, r);
    if |r.aliens| == 0 then
      s.(aliens := CreateAliens(), bullet := Respawn(s.player.x, screenHeight), enemyBullets := [],
         obstacles := ObstacleLayout(), score := score, wave := Wrap(s.wave + 1),
         alienSpeed := s.alienSpeed + 0.5, isRunning := true, isGameOver := false)
    else
      s.(aliens := r.aliens, bullet := r.shot.bullet, enemyBullets := r.enemyBullets,
         obstacles := r.sweep.1, score := score, isRunning := !r.gameOver, isGameOver := r.gameOver)
  }

  // ---------------------------------------------------------------------
  // What one tick promises.

  /** The score rises by `10 * wave` (32-bit) on a hit and is otherwise
      unchanged; while no overflow is near, it rises by exactly `10 * wave`
      and never falls. */
  lemma TickScore(s: GameState, direction: real, screenWidth: real, screenHeight: real, roll: int, pick: nat)
    requires IsInt(s.score)
    ensures var r := Resolve(s, direction, screenWidth, screenHeight, roll, pick);
      var t := NextState(s, r, screenHeight);
      (r.hit.None? ==> t.score == s.score) &&
      (r.hit.Some? && 0 <= s.score && 1 <= s.wave && s.score + 10 * s.wave <= MaxInt ==>
         t.score == s.score + 10 * s.wave > s.score)
  {
  }

  /** At most one alien dies per tick: with distinct positions the count
      drops by exactly one on a hit and is otherwise unchanged, and grows
      only when a cleared wave is replaced by a full 40-alien formation.
      Positions stay distinct. */
  lemma TickAliens(s: GameState, direction: real, screenWidth: real, screenHeight: real, roll: int, pick: nat)
    requires Distinct(s.aliens)
    ensures var r := Resolve(s, direction, screenWidth, screenHeight, roll, pick);
      var t := NextState(s, r, screenHeight);
      && |r.aliens| == |s.aliens| - (if r.hit.Some? then 1 else 0)
      && |t.aliens| == (if |r.aliens| == 0 then Rows * Cols else |r.aliens|)
      && Distinct(t.aliens)
  {
    var r := Resolve(s, direction, screenWidth, screenHeight, roll, pick);
    var moved := r.formation.aliens;
    FormationKeepsDistinct(s.aliens, s.alienSpeed, direction, screenWidth);
    if r.hit.Some? {
      RemoveDistinctAlien(moved, r.hit.value);
      RemoveKeepsDistinct(moved, r.hit.value);
    }
  }

  /** Within a wave obstacles are only removed, and afterwards no surviving
      old enemy bullet overlaps a surviving obstacle; a cleared wave brings
      back the full layout. */
  lemma TickObstacles(s: GameState, direction: real, screenWidth: real, screenHeight: real, roll: int, pick: nat)
    ensures var r := Resolve(s, direction, screenWidth, screenHeight, roll, pick);
      var t := NextState(s, r, screenHeight);
      && (|r.aliens| > 0 ==>
            |t.obstacles| <= |s.obstacles| &&
            (forall o :: o in t.obstacles ==> o in s.obstacles) &&
            (forall b, o :: b in r.sweep.0 && o in t.obstacles ==> !IsCollisionWithObstacle(b, o)))
      && (|r.aliens| == 0 ==> t.obstacles == ObstacleLayout())
  {
    var r := Resolve(s, direction, screenWidth, screenHeight, roll, pick);
    PlayerSweepSpec(s.obstacles, if r.hit.Some? then Respawn(s.player.x, screenHeight) else r.bullet,
                    Respawn(s.player.x, screenHeight));
    EnemySweepSpec(r.advanced, r.shot.obstacles);
  }

  /** A cleared wave: 40 fresh aliens, fresh obstacles, no enemy bullets,
      the bullet respawned, the next wave at half a unit more speed, and the
      game running and not over, even if the tick also detected a game
      over. */
  lemma TickWaveCleared(s: GameState, direction: real, screenWidth: real, screenHeight: real, roll: int, pick: nat)
    requires |Resolve(s, direction, screenWidth, screenHeight, roll, pick).aliens| == 0
    ensures var r := Resolve(s, direction, screenWidth, screenHeight, roll, pick);
      var t := NextState(s, r, screenHeight);
      && t.aliens == CreateAliens() && |t.aliens| == 40
      && t.obstacles == ObstacleLayout() && |t.obstacles| == 24
      && t.enemyBullets == []
      && t.bullet == Respawn(s.player.x, screenHeight)
      && t.wave == Wrap(s.wave + 1) && t.alienSpeed == s.alienSpeed + 0.5
      && t.isRunning && !t.isGameOver
      && t.score == NewScore(s, r)
  {
    ObstaclePosition(0, 0, 0);
  }

  /** Game over is decided by the published world when aliens remain: an
      enemy bullet overlapping the player, or an alien at height - 70 or
      lower. Running is always the negation of game over, and the player
      and the pause flag are untouched. */
  lemma TickGameOver(s: GameState, direction: real, screenWidth: real, screenHeight: real, roll: int, pick: nat)
    ensures var r := Resolve(s, direction, screenWidth, screenHeight, roll, pick);
      var t := NextState(s, r, screenHeight);
      && t.isRunning == !t.isGameOver
      && (|r.aliens| > 0 ==>
            (t.isGameOver <==> PlayerHit(t.enemyBullets, s.player.x, screenHeight) ||
                               AlienReached(t.aliens, screenHeight)))
      && (|r.aliens| == 0 ==> !t.isGameOver)
      && t.player == s.player && t.isPaused == s.isPaused
  {
  }

  /** What a session relies on between ticks survives a tick: 32-bit score
      and wave, distinct alien positions, the player's own bullet, running
      exactly when not over, and game over only when the tick detected it. */
  lemma TickKeepsInvariant(s: GameState, direction: real, screenWidth: real, screenHeight: real,
                           roll: int, pick: nat)
    requires IsInt(s.score) && IsInt(s.wave) && Distinct(s.aliens) && !s.bullet.isFromEnemy
    ensures var r := Resolve(s, direction, screenWidth, screenHeight, roll, pick);
      var t := NextState(s, r, screenHeight);
      && IsInt(t.score) && IsInt(t.wave)
      && Distinct(t.aliens) && !t.bullet.isFromEnemy
      && t.isRunning == !t.isGameOver
      && (t.isGameOver ==> r.gameOver)
  {
    TickAliens(s, direction, screenWidth, screenHeight, roll, pick);
    TickPlayerBullet(s, direction, screenWidth, screenHeight, roll, pick);
  }

  /** Enemy fire: every enemy bullet after the tick is an old one that was
      above the drop limit, moved down 25, or a new shot 20 right of and 30
      below a surviving alien, which happens only when `roll < 5`; at most
      one bullet is added, and when aliens survive and `roll < 5` exactly
      one is, below the alien the draw `pick` selects. */
  lemma TickEnemyFire(s: GameState, direction: real, screenWidth: real, screenHeight: real, roll: int, pick: nat)
    ensures var r := Resolve(s, direction, screenWidth, screenHeight, roll, pick);
      && |r.enemyBullets| <= |s.enemyBullets| + 1
      && (roll >= FireChance ==> |r.enemyBullets| <= |s.enemyBullets|)
      && (forall b :: b in r.enemyBullets ==>
           (Raised(b) in s.enemyBullets && OnScreen(Raised(b), screenHeight)) ||
           (roll < FireChance && exists a :: a in r.aliens && b == EnemyShot(a)))
      && (|r.aliens| > 0 && roll < FireChance ==>
            |r.enemyBullets| == |r.sweep.0| + 1 &&
            r.enemyBullets[..|r.sweep.0|] == r.sweep.0 &&
            r.enemyBullets[|r.sweep.0|] == EnemyShot(r.aliens[pick % |r.aliens|]))
  {
    var r := Resolve(s, direction, screenWidth, screenHeight, roll, pick);
    AdvanceEnemyBulletsSpec(s.enemyBullets, screenHeight);
    EnemySweepSpec(r.advanced, r.shot.obstacles);
    if |r.aliens| > 0 && roll < FireChance {
      var shooter := r.aliens[pick % |r.aliens|];
      assert r.enemyBullets == r.sweep.0 + [EnemyShot(shooter)];
      assert shooter in r.aliens;
    }
  }

  /** The player's bullet: either at its respawn point above the player, or
      the old bullet moved up 50 after it was on screen, hit no alien and
      overlapped no obstacle; and while aliens remain, such a bullet does
      move up 50. It is always the player's bullet. */
  lemma TickPlayerBullet(s: GameState, direction: real, screenWidth: real, screenHeight: real, roll: int, pick: nat)
    requires !s.bullet.isFromEnemy
    ensures var r := Resolve(s, direction, screenWidth, screenHeight, roll, pick);
      var t := NextState(s, r, screenHeight);
      var moved := s.bullet.(y := s.bullet.y - PlayerBulletStep);
      && !t.bullet.isFromEnemy
      && (t.bullet == Respawn(s.player.x, screenHeight) ||
          (s.bullet.y >= 0.0 && r.hit.None? && t.bullet == moved &&
           forall k :: 0 <= k < |s.obstacles| ==> !IsCollisionWithObstacle(moved, s.obstacles[k])))
      && (s.bullet.y >= 0.0 && r.hit.None? && |r.aliens| > 0 &&
          (forall k :: 0 <= k < |s.obstacles| ==> !IsCollisionWithObstacle(moved, s.obstacles[k])) ==>
            t.bullet == moved)
  {
    var r := Resolve(s, direction, screenWidth, screenHeight, roll, pick);
    var respawn := Respawn(s.player.x, screenHeight);
    PlayerSweepSpec(s.obstacles, if r.hit.Some? then respawn else r.bullet, respawn);
  }

  /** A formation inside the edges stays inside them across a tick, on a
      screen wide enough for a fresh formation; the direction stays 10 or
      -10. */
  lemma TickFormation(s: GameState, direction: real, screenWidth: real, screenHeight: real, roll: int, pick: nat)
    requires InBounds(s.aliens, screenWidth) && screenWidth >= 820.0
    requires direction == 10.0 || direction == -10.0
    ensures var r := Resolve(s, direction, screenWidth, screenHeight, roll, pick);
      var t := NextState(s, r, screenHeight);
      InBounds(t.aliens, screenWidth) &&
      (r.formation.direction == 10.0 || r.formation.direction == -10.0)
  {
    var r := Resolve(s, direction, screenWidth, screenHeight, roll, pick);
    FormationStaysInBounds(s.aliens, s.alienSpeed, direction, screenWidth);
    var moved := r.formation.aliens;
    if r.hit.Some? {
      RemoveAlienSpec(moved, moved[r.hit.value]);
    }
    forall k | 0 <= k < |r.aliens|
      ensures !OutsideEdges(r.aliens[k], screenWidth)
    {
      assert r.aliens[k] in moved;
    }
  }

  /** The speed of wave `w`: 1, plus one half per wave after the first. */
  function SpeedOfWave(wave: int): real
  {
    1.0 + 0.5 * ((wave - 1) as real)
  }

  /** Speed follows the wave: a tick keeps `alienSpeed == SpeedOfWave(wave)`
      while the wave number does not overflow, and the wave never falls. */
  lemma TickSpeed(s: GameState, direction: real, screenWidth: real, screenHeight: real, roll: int, pick: nat)
    requires IsInt(s.wave) && s.wave < MaxInt
    requires s.alienSpeed == SpeedOfWave(s.wave)
    ensures var t := NextState(s, Resolve(s, direction, screenWidth, screenHeight, roll, pick), screenHeight);
      t.alienSpeed == SpeedOfWave(t.wave) && s.wave <= t.wave <= s.wave + 1
  {
  }

  /** The last alien dies in the same tick as an enemy bullet reaches the
      player: the tick reports a game over (so the score is saved), yet the
      published world starts wave 2, running and not over. */
  lemma SaveBeforeWaveCheck()
    ensures var s := GameState(Player(500.0), [Alien(100.0, 100.0)], Bullet(130.0, 150.0, false),
                               [Bullet(500.0, 1915.0, true)], [], 0, 1, 1.0, true, false, false);
      var r := Resolve(s, 10.0, 1000.0, 2000.0, 100, 0);
      var t := NextState(s, r, 2000.0);
      r.gameOver && t.isRunning && !t.isGameOver && t.wave == 2 && t.score == 10
  {
    var s := GameState(Player(500.0), [Alien(100.0, 100.0)], Bullet(130.0, 150.0, false),
                       [Bullet(500.0, 1915.0, true)], [], 0, 1, 1.0, true, false, false);
    var r := Resolve(s, 10.0, 1000.0, 2000.0, 100, 0);
    assert !AnyOutside(Shifted(s.aliens, 10.0, 0.0), 1000.0);
    assert r.formation.aliens == [Alien(110.0, 100.0)];
    assert r.bullet == Bullet(130.0, 100.0, false);
    assert IsCollision(Alien(110.0, 100.0), r.bullet);
    assert r.hit == Some(0);
    assert r.aliens == [];
    assert r.advanced == [Bullet(500.0, 1940.0, true)];
    assert r.sweep.0 == r.advanced;
    assert IsCollisionWithPlayer(r.enemyBullets[0], 500.0, 2000.0);
  }
}
