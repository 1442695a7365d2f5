/** The three collision tests of the game. Each rectangle test is the strict
    overlap of two hit-boxes; the alien test is a circle of radius 30 around
    the centres. */
module Collisions {
  import opened Geometry
  import opened GameObjects

  /** A bullet's hit-box: 10 wide, 30 tall for an enemy shot and 50 tall for
      the player's. */
  function BulletBox(b: Bullet): Rect
  {
    Rect(b.x, b.y, 10.0, if b.isFromEnemy then 30.0 else 50.0)
  }

  /** The player's hit-box: 50 wide and 20 tall, its top 50 above the
      bottom of the screen. */
  function PlayerBox(playerX: real, screenHeight: real): Rect
  {
    Rect(playerX, screenHeight - 50.0, 50.0, 20.0)
  }

  /** `isCollision`: the squared distance between the bullet's centre
      (x + 5, y + 15) and the alien's centre (x + 25, y + 15) is below 900.
      A hit lies inside the 60-by-60 square around the alien's centre, and
      every point of the inner 42-by-42 square is a hit. */
  predicate IsCollision(a: Alien, b: Bullet)
    ensures var dx, dy := b.x + 5.0 - (a.x + 25.0), b.y + 15.0 - (a.y + 15.0);
      (IsCollision(a, b) ==> -30.0 < dx < 30.0 && -30.0 < dy < 30.0) &&
      (-21.0 < dx < 21.0 && -21.0 < dy < 21.0 ==> IsCollision(a, b))
  {
    var dx := b.x + 5.0 - (a.x + 25.0);
    var dy := b.y + 15.0 - (a.y + 15.0);
    SquareBound(dx, dy);
    dx * dx + dy * dy < 900.0
  }

  lemma SquareBound(dx: real, dy: real)
    ensures dx * dx + dy * dy < 900.0 ==> -30.0 < dx < 30.0 && -30.0 < dy < 30.0
    ensures -21.0 < dx < 21.0 && -21.0 < dy < 21.0 ==> dx * dx + dy * dy < 900.0
  {
    if dx >= 30.0 || dx <= -30.0 {
      assert dx * dx >= 900.0;
    }
    if dy >= 30.0 || dy <= -30.0 {
      assert dy * dy >= 900.0;
    }
    if -21.0 < dx < 21.0 && -21.0 < dy < 21.0 {
      assert dx * dx < 441.0;
      assert dy * dy < 441.0;
    }
  }

  /** `isCollisionWithPlayer`: the bullet's 10-by-30 box strictly overlaps
      the player's box (the box height is 30 whatever the bullet's origin). */
  predicate IsCollisionWithPlayer(b: Bullet, playerX: real, screenHeight: real)
    ensures IsCollisionWithPlayer(b, playerX, screenHeight) <==>
      Overlap(Rect(b.x, b.y, 10.0, 30.0), PlayerBox(playerX, screenHeight))
  {
    var px := playerX;
    var py := screenHeight - 50.0;
    px < b.x + 10.0 && px + 50.0 > b.x && py < b.y + 30.0 && py + 20.0 > b.y
  }

  /** `isCollisionWithObstacle`: the bullet's hit-box strictly overlaps the
      obstacle's rectangle. */
  predicate IsCollisionWithObstacle(b: Bullet, o: Obstacle)
    ensures IsCollisionWithObstacle(b, o) <==> Overlap(BulletBox(b), ObstacleBox(o))
  {
    var h := if b.isFromEnemy then 30.0 else 50.0;
    o.x < b.x + 10.0 && o.x + o.width > b.x && o.y < b.y + h && o.y + o.height > b.y
  }
}
