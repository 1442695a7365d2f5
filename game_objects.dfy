/** The game's records and the factories of the initial formations. Kotlin
    `Float` coordinates are modelled as exact reals: every constant of the
    game is integral or a multiple of one half. */
module GameObjects {
  import opened Geometry

  datatype Player = Player(x: real)
  datatype Alien = Alien(x: real, y: real)
  datatype Bullet = Bullet(x: real, y: real, isFromEnemy: bool)
  datatype Obstacle = Obstacle(x: real, y: real, width: real, height: real)

  /** One snapshot of the world. */
  datatype GameState = GameState(
    player: Player,
    aliens: seq<Alien>,
    bullet: Bullet,
    enemyBullets: seq<Bullet>,
    obstacles: seq<Obstacle>,
    score: int,
    wave: int,
    alienSpeed: real,
    isRunning: bool,
    isPaused: bool,
    isGameOver: bool)

  predicate Distinct<T(==)>(s: seq<T>)
  {
    forall i, j :: 0 <= i < j < |s| ==> s[i] != s[j]
  }

  // ---------------------------------------------------------------------
  // The alien formation.

  const Rows: nat := 5
  const Cols: nat := 8

  /** The alien built for position `index` of the formation list. */
  function AlienAt(index: nat): Alien
  {
    var row := index / Cols;
    var col := index % Cols;
    Alien((col * 100) as real + 60.0, (row * 80) as real + 40.0)
  }

  /** `createAliens`: the 5-by-8 grid, row by row. Its 40 aliens sit at
      pairwise distinct positions inside the box [60, 760] x [40, 360], so
      removing one of them by value removes exactly that one. */
  function CreateAliens(): (aliens: seq<Alien>)
    ensures |aliens| == Rows * Cols == 40
    ensures Distinct(aliens)
    ensures forall k :: 0 <= k < |aliens| ==>
      60.0 <= aliens[k].x <= 760.0 && 40.0 <= aliens[k].y <= 360.0
  {
    seq(Rows * Cols, index requires 0 <= index < Rows * Cols => AlienAt(index))
  }

  /** Row `row` and column `col` of the grid is element `row * 8 + col`,
      at x = 100 * col + 60 and y = 80 * row + 40. */
  lemma AlienGridPosition(row: nat, col: nat)
    requires row < Rows && col < Cols
    ensures row * Cols + col < |CreateAliens()|
    ensures CreateAliens()[row * Cols + col] ==
      Alien((100 * col + 60) as real, (80 * row + 40) as real)
  {
    var k := row * Cols + col;
    assert k / Cols == row && k % Cols == col;
  }

  // ---------------------------------------------------------------------
  // The obstacle layout.

  const Clusters: nat := 4
  const PerClusterX: nat := 3
  const PerClusterY: nat := 2
  const Spacing: real := 5.0
  const StartY: real := 1800.0
  const BlockSize: real := 20.0
  const ClusterWidth: real := (PerClusterX as real) * BlockSize + ((PerClusterX - 1) as real) * Spacing

  /** Block `i` (across) and `j` (down) of cluster `c`. */
  function ObstacleAt(c: nat, i: nat, j: nat): Obstacle
  {
    var clusterX := ((c + 1) as real) * 200.0 - ClusterWidth / 2.0;
    Obstacle(clusterX + (i as real) * (BlockSize + Spacing), StartY + (j as real) * (BlockSize + Spacing),
             BlockSize, BlockSize)
  }

  const ObstacleCount: nat := Clusters * PerClusterX * PerClusterY

  /** The list `createObstacles` builds: cluster by cluster, then across,
      then down. */
  function ObstacleLayout(): seq<Obstacle>
  {
    seq(ObstacleCount, k requires 0 <= k < ObstacleCount =>
      ObstacleAt(k / (PerClusterX * PerClusterY), k % (PerClusterX * PerClusterY) / PerClusterY, k % PerClusterY))
  }

  /** Block (c, i, j) is element 6c + 2i + j of the 24-element layout, a
      20-by-20 square at x = 200(c + 1) - 35 + 25i, y = 1800 + 25j. */
  lemma ObstaclePosition(c: nat, i: nat, j: nat)
    requires c < Clusters && i < PerClusterX && j < PerClusterY
    ensures |ObstacleLayout()| == 24
    ensures 6 * c + 2 * i + j < 24
    ensures ObstacleLayout()[6 * c + 2 * i + j] ==
      Obstacle((200 * (c + 1) - 35 + 25 * i) as real, (1800 + 25 * j) as real, 20.0, 20.0)
  {
    var k := 6 * c + 2 * i + j;
    assert k / 6 == c && k % 6 / 2 == i && k % 2 == j;
  }

  function ObstacleBox(o: Obstacle): Rect
  {
    Rect(o.x, o.y, o.width, o.height)
  }

  lemma LayoutIndex(k: nat)
    requires k < ObstacleCount
    ensures var c, i, j := k / 6, k % 6 / 2, k % 2;
      c < Clusters && i < PerClusterX && j < PerClusterY && k == 6 * c + 2 * i + j &&
      ObstacleLayout()[k] == Obstacle((200 * (c + 1) - 35 + 25 * i) as real, (1800 + 25 * j) as real, 20.0, 20.0)
  {
  }

  /** The square of block (c, i, j) in whole units. */
  function BlockBox(c: nat, i: nat, j: nat): Rect
  {
    Rect((200 * (c + 1) - 35 + 25 * i) as real, (1800 + 25 * j) as real, 20.0, 20.0)
  }

  /** Two different blocks are apart: within a cluster the pitch of 25
      exceeds the block size of 20, and clusters are 200 apart but only 70
      wide. */
  lemma BlocksApart(c1: nat, i1: nat, j1: nat, c2: nat, i2: nat, j2: nat)
    requires c1 < Clusters && i1 < PerClusterX && j1 < PerClusterY
    requires c2 < Clusters && i2 < PerClusterX && j2 < PerClusterY
    requires (c1, i1, j1) != (c2, i2, j2)
    ensures !Overlap(BlockBox(c1, i1, j1), BlockBox(c2, i2, j2))
  {
    var x1 := 200 * (c1 + 1) - 35 + 25 * i1;
    var x2 := 200 * (c2 + 1) - 35 + 25 * i2;
    if c1 != c2 || i1 != i2 {
      assert x1 + 20 <= x2 || x2 + 20 <= x1;
    } else {
      assert j1 != j2;
    }
  }

  /** No two blocks of the layout overlap. */
  lemma ObstaclesDoNotOverlap(k1: nat, k2: nat)
    requires k1 < k2 < ObstacleCount
    ensures !Overlap(ObstacleBox(ObstacleLayout()[k1]), ObstacleBox(ObstacleLayout()[k2]))
  {
    LayoutIndex(k1);
    LayoutIndex(k2);
    var c1, i1, j1 := k1 / 6, k1 % 6 / 2, k1 % 2;
    var c2, i2, j2 := k2 / 6, k2 % 6 / 2, k2 % 2;
    assert ObstacleBox(ObstacleLayout()[k1]) == BlockBox(c1, i1, j1);
    assert ObstacleBox(ObstacleLayout()[k2]) == BlockBox(c2, i2, j2);
    BlocksApart(c1, i1, j1, c2, i2, j2);
  }

  /** `createObstacles`: three nested loops appending block (c, i, j) in
      order; the result is the layout above. */
  method CreateObstacles() returns (obstacles: seq<Obstacle>)
    ensures obstacles == ObstacleLayout()
  {
    obstacles := [];
    for c := 0 to Clusters
      invariant obstacles == ObstacleLayout()[..6 * c]
    {
      var clusterX := ((c + 1) as real) * 200.0 - ClusterWidth / 2.0;
      for i := 0 to PerClusterX
        invariant obstacles == ObstacleLayout()[..6 * c + 2 * i]
      {
        for j := 0 to PerClusterY
          invariant obstacles == ObstacleLayout()[..6 * c + 2 * i + j]
        {
          var x := clusterX + (i as real) * (BlockSize + Spacing);
          var y := StartY + (j as real) * (BlockSize + Spacing);
          ghost var k := 6 * c + 2 * i + j;
          LayoutIndex(k);
          assert k / 6 == c && k % 6 / 2 == i && k % 2 == j;
          assert ObstacleLayout()[k] == Obstacle(x, y, BlockSize, BlockSize);
          assert ObstacleLayout()[..k + 1] == ObstacleLayout()[..k] + [ObstacleLayout()[k]];
          obstacles := obstacles + [Obstacle(x, y, BlockSize, BlockSize)];
        }
      }
    }
  }

  /** The default `GameState()`: a full formation and layout, the player at
      x = 0, the bullet parked above the screen, score 0, wave 1, speed 1,
      and neither running, paused nor over. */
  function DefaultGameState(): (s: GameState)
    ensures |s.aliens| == 40 && Distinct(s.aliens)
    ensures |s.obstacles| == 24
    ensures s.bullet.y < 0.0 && !s.bullet.isFromEnemy
    ensures s.enemyBullets == []
    ensures s.score == 0 && s.wave == 1 && s.alienSpeed == 1.0
    ensures !s.isRunning && !s.isPaused && !s.isGameOver
  {
    GameState(Player(0.0), CreateAliens(), Bullet(0.0, -1.0, false), [], ObstacleLayout(),
              0, 1, 1.0, false, false, false)
  }
}
