# Space Invaders — a Dafny model of the game core

This project models the game logic of an Android Space Invaders clone:

- the game's records and the factories of the initial alien formation and obstacle layout (`src/GameObjects.kt`);
- the session controller `GameViewModel`, with its tick `updateGame` and the three collision tests (`src/GameViewModel.kt`);
- the high-score ledger kept in one preference string (`src/HighScoreMenager.kt`).

Modules:

- `Geometry`: rectangles and strict overlap.
- `KotlinInt`: the 32-bit `Int` wrap-around, `Int.toString()` and `String.toIntOrNull()`.
- `Text`: `split` and `joinToString` for a one-character delimiter.
- `GameObjects`: `Player`, `Alien`, `Bullet`, `Obstacle`, `GameState`, `createAliens`, `createObstacles`.
- `Collisions`: `isCollision`, `isCollisionWithPlayer` and `isCollisionWithObstacle`.
- `Simulation`: one tick as functions of the snapshot. `Resolve` computes everything the tick decides and `NextState` the snapshot it publishes. Lemmas state what a tick promises.
- `ViewModel`: the statement-by-statement tick.
  - The loops that update state step by step are methods proved equal to their specification functions in `Simulation`: the two `map`s of the formation move, the two `removeAll`s and the `forEach` over the enemy bullets.
  - The remaining collection calls (`mapNotNull`, `firstOrNull`, `filterNot` and the two `any` tests) are the `Simulation` functions themselves, called directly from `StepWorld`.
  - The class `GameViewModel` holds the fields the Kotlin class updates in place.
- `HighScores`: the ledger's order, sort, cut to five, encoding, decoding, and the class `ScoreStore` that holds the preference string.

Modelling choices:

- Kotlin `Float` coordinates are exact `real`s.
- Score and wave arithmetic wraps around at 32 bits, as Kotlin `Int` does.
- The two random draws of a tick are parameters of `UpdateGame`: `roll` stands for `(0..100).random()` and `pick` chooses the shooter as `aliens[pick % |aliens|]`.
- The application context's shared preferences are the `ScoreStore` object. A missing value reads as the empty string.

## Model

| member | source | states |
|---|---|---|
| KotlinInt.WrapUnique | src/GameViewModel.kt:160-161 | the wrapped result is the only 32-bit `Int` congruent to the exact sum modulo 2^32 |
| KotlinInt.ToIntOrNull | src/HighScoreMenager.kt:41-42 | a parsed value is a 32-bit `Int`, and its text is an optional sign followed by digits only |
| KotlinInt.ParseOfPrint | src/HighScoreMenager.kt:41-42 | `toIntOrNull` reads back exactly the value `toString` wrote, for every `Int` |
| KotlinInt.PrintHasNoSeparator | src/HighScoreMenager.kt:26 | a rendered `Int` contains neither `:` nor `,`, so the ledger's separators are unambiguous |
| Text.JoinOfSplit | src/HighScoreMenager.kt:38-39 | joining the pieces of `split` with the delimiter rebuilds the string |
| Text.SplitPiecesLackSeparator | src/HighScoreMenager.kt:38-39 | no piece of `split` contains the delimiter |
| Text.SplitWithoutSeparator | src/HighScoreMenager.kt:39-40 | a string without the delimiter splits into itself alone |
| Text.SplitAround | src/HighScoreMenager.kt:38-39 | splitting distributes over a delimiter placed between two strings |
| Text.SplitOfJoin | src/HighScoreMenager.kt:26 | `split` inverts `joinToString` when no piece holds the delimiter |
| GameObjects.CreateAliens | src/GameObjects.kt:17-28 | 40 aliens at pairwise distinct positions inside [60, 760] x [40, 360] |
| GameObjects.AlienGridPosition | src/GameObjects.kt:20-27 | row r, column c of the grid is element 8r + c, at x = 100c + 60, y = 80r + 40 |
| GameObjects.ObstaclePosition | src/GameObjects.kt:40-49 | block (c, i, j) is element 6c + 2i + j of 24, a 20-by-20 square at x = 200(c + 1) - 35 + 25i, y = 1800 + 25j |
| GameObjects.ObstaclesDoNotOverlap | src/GameObjects.kt:30-52 | no two obstacles of the initial layout overlap |
| GameObjects.CreateObstacles | src/GameObjects.kt:30-52 | the three nested loops build exactly the cluster-by-cluster layout |
| GameObjects.DefaultGameState | src/GameObjects.kt:3-15 | the default snapshot: 40 distinct aliens, 24 obstacles, the bullet parked above the screen, score 0, wave 1, speed 1, not running, paused or over |
| Collisions.IsCollision | src/GameViewModel.kt:203-207 | a hit lies within 30 of the alien's centre on each axis, and every bullet within 21 on both axes hits |
| Collisions.IsCollisionWithPlayer | src/GameViewModel.kt:209-217 | true iff the bullet's 10-by-30 box strictly overlaps the player's 50-by-20 box |
| Collisions.IsCollisionWithObstacle | src/GameViewModel.kt:219-225 | true iff the bullet's hit-box (30 tall for enemy shots, 50 for the player's) strictly overlaps the obstacle |
| Simulation.MoveFormationSpec | src/GameViewModel.kt:91-105 | on a reversal the direction flips and every alien ends at its old x, 40 lower; otherwise every alien moves by speed times direction |
| Simulation.FormationStaysInBounds | src/GameViewModel.kt:91-105 | a formation inside the edges stays inside them after a move |
| Simulation.FormationKeepsDistinct | src/GameViewModel.kt:91-105 | moving the formation keeps alien positions distinct |
| Simulation.AdvanceEnemyBulletsSpec | src/GameViewModel.kt:114-116 | every surviving enemy bullet was above height + 50 and moved down 25, and every such bullet survives |
| Simulation.FirstHitSpec | src/GameViewModel.kt:119 | the alien found is the first one the bullet hits; none is found only if the bullet hits no alien |
| Simulation.RemoveAlienSpec | src/GameViewModel.kt:120 | exactly the aliens different from the hit one remain |
| Simulation.RemoveDistinctAlien | src/GameViewModel.kt:119-120 | with distinct aliens, removal by value removes exactly the alien at the hit position |
| Simulation.RemoveKeepsDistinct | src/GameViewModel.kt:120 | the survivors of a hit stay at distinct positions |
| Simulation.PlayerSweepSpec | src/GameViewModel.kt:129-133 | only obstacles are removed; one is removed iff the incoming bullet overlaps one, and then the bullet has respawned; otherwise nothing changes |
| Simulation.PlayerSweepFirstHit | src/GameViewModel.kt:129-133 | when obstacle k is the first the bullet overlaps, the obstacles before it stay, it goes, the later ones are checked against the respawned bullet, and the bullet ends respawned |
| Simulation.UnhitSpec | src/GameViewModel.kt:139-143 | exactly the obstacles the enemy bullet does not overlap remain, and the list keeps its length iff it overlaps none |
| Simulation.EnemySweepSpec | src/GameViewModel.kt:136-145 | exactly the obstacles no enemy bullet overlaps survive; no surviving bullet overlaps a surviving obstacle, a bullet that overlapped no obstacle survives, and no bullet is new |
| Simulation.EnemySweepKept | src/GameViewModel.kt:137-145 | the surviving enemy bullets are, in order, exactly those whose every overlapped obstacle was already removed by an earlier bullet; a bullet that hits a standing obstacle is dropped |
| Simulation.TickScore | src/GameViewModel.kt:160-161 | the score rises by 10 x wave on a hit and is otherwise unchanged; without overflow it rises by exactly that and never falls |
| Simulation.TickAliens | src/GameViewModel.kt:119-191 | at most one alien dies per tick, a cleared wave is replaced by 40 aliens, and positions stay distinct |
| Simulation.TickObstacles | src/GameViewModel.kt:125-194 | within a wave obstacles are only removed and none overlaps a surviving old enemy bullet; a cleared wave restores the full layout |
| Simulation.TickWaveCleared | src/GameViewModel.kt:175-188 | a cleared wave publishes fresh aliens and obstacles, no enemy bullets, a respawned bullet, wave + 1, speed + 0.5, running and not over |
| Simulation.TickGameOver | src/GameViewModel.kt:155-198 | running is the negation of game over; while aliens remain, game over holds iff an enemy bullet hits the player or an alien reached height - 70 |
| Simulation.TickEnemyFire | src/GameViewModel.kt:113-153 | each enemy bullet after a tick is an old one moved down 25 or a new shot below a surviving alien, made only when the roll is below 5; at most one is added, and with survivors and a roll below 5 exactly one is appended, below the alien `pick` selects |
| Simulation.TickPlayerBullet | src/GameViewModel.kt:107-133 | the player's bullet is either at its respawn point or the old bullet moved up 50 after hitting no alien and no obstacle; while aliens remain, an on-screen bullet that hits nothing does move up 50 |
| Simulation.TickFormation | src/GameViewModel.kt:90-105 | on a screen at least 820 wide, a formation inside the edges stays inside them and the direction stays 10 or -10 |
| Simulation.TickSpeed | src/GameViewModel.kt:182-183 | the alien speed stays 1 + 0.5 x (wave - 1) and the wave never falls, barring overflow |
| Simulation.TickKeepsInvariant | src/GameViewModel.kt:85-199 | a tick keeps 32-bit score and wave, distinct aliens, the player's own bullet and running == not over, and game over only when detected |
| Simulation.SaveBeforeWaveCheck | src/GameViewModel.kt:163-188 | a tick in which the last alien dies and the player is hit saves the score yet publishes wave 2, running and not over |
| ViewModel.CoerceIn | src/GameViewModel.kt:60 | the result lies in [lo, hi], equals the value inside the range and the nearer bound outside it |
| ViewModel.MoveAliens | src/GameViewModel.kt:88-105 | the two `map` loops and the direction flip compute the formation move of the specification |
| ViewModel.SweepPlayerBullet | src/GameViewModel.kt:126-133 | the `removeAll` whose predicate respawns the bullet computes the player's sweep of the specification |
| ViewModel.RemoveHitBy | src/GameViewModel.kt:139-143 | `removeAll` for one enemy bullet keeps exactly the unhit obstacles and reports whether any was removed |
| ViewModel.SweepEnemyBullets | src/GameViewModel.kt:136-145 | the `forEach` over enemy bullets computes the enemy sweep of the specification |
| ViewModel.StepWorld | src/GameViewModel.kt:86-158 | the statements of `updateGame` up to the game-over test compute the tick's resolution |
| ViewModel.Publish | src/GameViewModel.kt:174-198 | the snapshot written at the end of `updateGame` is the specification's next state |
| ViewModel.GameViewModel.constructor | src/GameViewModel.kt:11-25 | a new controller holds the default snapshot, direction 10, zero screen size, not started, nothing saved |
| ViewModel.GameViewModel.UpdateScreenSize | src/GameViewModel.kt:27-30 | only the screen size changes |
| ViewModel.GameViewModel.StartGame | src/GameViewModel.kt:32-55 | with a zero dimension nothing changes; otherwise a fresh running session at wave 1, direction 10, nothing saved |
| ViewModel.GameViewModel.MovePlayer | src/GameViewModel.kt:57-63 | only the player's x changes, to the new x clamped to [0, width - 50] |
| ViewModel.GameViewModel.PauseGame | src/GameViewModel.kt:65-68 | only the pause flag is set, and a second pause changes nothing |
| ViewModel.GameViewModel.ResumeGame | src/GameViewModel.kt:70-74 | the pause flag is cleared only when paused and not over; otherwise nothing changes |
| ViewModel.GameViewModel.SaveOnce | src/GameViewModel.kt:163-172 | the first game over of a session stores the ledger with the new record; a later one changes nothing |
| ViewModel.GameViewModel.UpdateGame | src/GameViewModel.kt:85-199 | one tick publishes the specification's next state and direction, saves the score at most once per session, and keeps the session invariant |
| HighScores.Insert | src/HighScoreMenager.kt:22-23 | inserting into a ranked list gives a ranked list with one more element, the same records plus the new one |
| HighScores.SortByRank | src/HighScoreMenager.kt:22-23 | the sort yields a ranked permutation of its input |
| HighScores.RankedPermutationIsUnique | src/HighScoreMenager.kt:22-23 | two ranked permutations of each other are equal, so any sort with this comparator gives the same list |
| HighScores.TopScoresShape | src/HighScoreMenager.kt:20-24 | the saved list has at most five records, is ranked, is a prefix of the ranked old-plus-new list, and holds only old records or the new one |
| HighScores.TopScoresKeepsNew | src/HighScoreMenager.kt:20-24 | the new record is kept when fewer than five were stored; if dropped, five records ranking above it remain |
| HighScores.ParseEntry | src/HighScoreMenager.kt:39-46 | a parsed entry is a pair of 32-bit `Int`s |
| HighScores.ParseEntries | src/HighScoreMenager.kt:38-47 | `mapNotNull` yields at most one record per entry, each a pair of 32-bit `Int`s |
| HighScores.DecodeIsParse | src/HighScoreMenager.kt:36-38 | the empty-string shortcut agrees with parsing: decoding is parsing every comma-separated entry |
| HighScores.DecodeAppend | src/HighScoreMenager.kt:36-47 | decoding any two strings joined by a comma gives the records of each, in order |
| HighScores.DecodeSkipsMalformed | src/HighScoreMenager.kt:38-47 | a malformed entry after a comma, including the empty one from a trailing comma, is skipped and loses nothing |
| HighScores.EntryRoundTrip | src/HighScoreMenager.kt:26-46 | a rendered `score:wave` entry holds no comma and parses back to the same record |
| HighScores.ParseEntriesOfEntries | src/HighScoreMenager.kt:38-47 | parsing the rendered entries of some records gives those records |
| HighScores.DecodeOfEncode | src/HighScoreMenager.kt:26-47 | reading back what was stored gives the same list of records |
| HighScores.ScoreStore.GetScores | src/HighScoreMenager.kt:33-48 | every record read is a pair of 32-bit `Int`s, and the empty string reads as the empty ledger |
| HighScores.ScoreStore.SaveScore | src/HighScoreMenager.kt:16-31 | the stored string encodes the ranked top five of the old records plus the new one, and reading it back gives that list |

## Left out

- The coroutine game loop (`gameLoop`, `gameJob`, `delay(50)`) and its cancellation: `UpdateGame` is one iteration and requires the loop condition (running and not paused).
- Compose state (`mutableStateOf`), the screens and the Android `Context`: the snapshot is a plain field, and the context is the `ScoreStore` object.
- Randomness: `(0..100).random()` and `random()` on the survivors are the parameters `roll` and `pick`.
- IEEE-754 `Float` rounding: coordinates and the alien speed are exact reals. Every constant of the game is integral or a multiple of one half.
- Non-ASCII digits accepted by `toIntOrNull` (other Unicode decimal digits) are not modelled: only `0`-`9` are digits.
- The preference file itself and its asynchronous `apply()`: the store is one string cell written at once.
- ViewModel.GameViewModel.MovePlayer: requires a screen at least 50 wide, because `coerceIn` throws on an empty range and the exception is not modelled.
- ViewModel.GameViewModel.UpdateGame: does not carry the fact that the direction stays 10 or -10 in its invariant. That fact is proved per tick by `Simulation.TickFormation`.
- Simulation.TickFormation: assumes a screen at least 820 wide, so that a fresh formation fits; narrower screens are not covered.
