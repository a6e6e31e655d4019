# Space shooter room simulation — Dafny model

This project models the server-side game rules of a small multiplayer
shooter whose server is one Go file, `main.go`. Players join rooms of up to
four. Each room runs a 60 Hz tick (`updateGame`) with three phases:

1. players move by their velocity and are clamped to the field;
2. bullets move, leave when off the field, and destroy the first enemy they
   hit, crediting 10 points to a player standing exactly on the bullet;
3. enemies move, leave when below the bottom edge, and damage the first
   player they touch, disappearing on contact.

A player who drops to zero health is restored to 100 and loses 50 points,
never going below zero.

Everything is modelled as immutable values. Positions are exact `real`s.
Rooms are `map`s from ids to entities. Each Go `range` loop over a map,
which runs in an unspecified order, becomes an explicit sequence of ids
given as a parameter. An entity deleted earlier in the same loop is skipped
when its id comes up. Random draws and generated uuids are parameters, and
preconditions state their ranges or freshness.

Modules:

- `Wrappers` (`wrappers.dfy`): `Option`.
- `Scan` (`scan.dfy`): first match in a map visited in a given order, which
  models the `range … if … break` idiom.
- `Entities` (`entities.dfy`): `Entity`, `Player`, `Room`, the constants, and
  the constructors for players, bullets, enemies and rooms.
- `Collision` (`collision.dfy`): `checkCollision`.
- `Tick` (`tick.dfy`): the three phases and `updateGame`.
- `TickProperties` (`tick.dfy`): lemmas over whole phases and over the tick.
- `Lobby` (`lobby.dfy`): room selection and admission, join, disconnect,
  the enemy timer, and retiring empty rooms.
- `Messages` (`messages.dfy`): the `move` and `shoot` messages.

Behaviour of `main.go` worth knowing when reading the model:

- There is no boss, no item, no fire-power, no enemy bullet, no
  game-over or clear state and no restart message.
- An enemy hit never ends the game. Health drops by 10, and at 0 or below it
  resets to 100 with a 50-point penalty floored at 0.
- The strict overlap test lets a zero-width box that lies strictly inside
  another box overlap it (`Collision.ZeroWidthBoxCanOverlap`). Every entity
  the code creates has a positive size, so this never matters in play.
- A new player's `y` is drawn from [300,600), so a player can spawn below
  the clamp limit of 570. The first tick clamps it back.
- Kill credit goes to a player whose position equals the bullet's. A bullet
  starts 12.5 to the right of a 30-wide shooter and never moves sideways, so
  a shooter who has not moved since firing is never credited
  (`TickProperties.StillShooterNotCredited`).

## Model

| member | source | states |
|---|---|---|
| Scan.FirstMatchFrom | main.go:440-454 | the index returned is the first key of the scan order, from the start point on, that is still in the map and satisfies the condition; none is returned exactly when no remaining listed key does (the `range … if … break` loop) |
| Scan.FirstMatch | main.go:470-483 | the first listed key still in the map whose value satisfies the condition, with no earlier listed key qualifying; none exactly when no listed key qualifies |
| Entities.Advance | main.go:460-461 | one move displaces an entity by exactly its velocity and changes nothing else |
| Entities.AdvanceNUniform | main.go:460-461 | after n unobstructed ticks an entity has moved exactly n times its velocity, and nothing else about it changed |
| Entities.NewPlayer | main.go:207-224 | a joining player is a 30x30 rectangle at rest, at a position in [300,600)x[300,600), with health 100, score 0, a palette colour and the name "Player-" plus the first five characters of its id; it is a valid player |
| Entities.NewBullet | main.go:311-322 | a bullet is 5x10, horizontally centred on the shooter, level with the shooter's top, and moves straight up |
| Entities.NewEnemy | main.go:334-345 | a spawned enemy is 30x30 at the top edge with x in [0,600), horizontal drift -1, 0 or 1 and fall speed 1 or 2 |
| Entities.NewRoom | main.go:144-152 | a new room has no players, bullets or enemies |
| Entities.BulletKeepsColumn | main.go:313-319 | n ticks after firing, a bullet's x is still the shooter's x + width/2 - 2.5, and its y has risen by 5n |
| Entities.EnemyLeavesField | main.go:459-467 | a spawned enemy is still on the field after its first move, and one that hits nobody is below the bottom edge after 601 moves |
| Collision.OverlapsSymmetric | main.go:359-364 | the collision test gives the same answer whichever entity comes first |
| Collision.TouchingEdgesDoNotOverlap | main.go:359-364 | a copy shifted by exactly its own width on x, or its own height on y, does not collide with the original, in either argument order |
| Collision.SelfOverlap | main.go:359-364 | a rectangle collides with itself exactly when its width and height are positive |
| Collision.ZeroWidthBoxCanOverlap | main.go:359-364 | every zero-width box of positive height lying strictly inside another box horizontally and within it vertically overlaps it, in both argument orders |
| Tick.Clamp | main.go:414-425 | the clamped coordinate lies in [0, hi]: a value below 0 becomes 0, a value above hi becomes hi, and a value in range is unchanged |
| Tick.MovePlayer | main.go:409-426 | each coordinate becomes position + velocity clamped to [0,770] or [0,570]; so whatever the velocity the player ends in range; only the position changes; a move that stays in range is exactly position + velocity |
| Tick.PlayerPhase | main.go:409-426 | every player, and no other, is moved once by its own velocity and clamped, ending inside [0,770]x[0,570]; velocity, size, kind, score and health are kept; valid players stay valid |
| Tick.Credit | main.go:446-452 | when a player listed in the scan order stands exactly on the bullet, exactly one such listed player gains 10 points; when none does, nothing changes; nobody else is ever affected |
| Tick.BulletStep | main.go:429-455 | a bullet that leaves [0,800]x[0,600] is removed without touching enemies or players; an on-field bullet that overlaps no listed enemy is kept, moved, with nothing else changed; one that overlaps a listed enemy is removed together with exactly one listed enemy it overlaps, and the kill is credited; other bullets are untouched; players only gain points, and only on a kill |
| Tick.BulletPhase | main.go:428-456 | over the bullet phase bullets and enemies are only removed, enemies do not move, players keep rectangles and health, scores never fall, and valid players stay valid |
| Tick.Damage | main.go:473-480 | a hit takes 10 health; when that leaves 0 or less, health becomes 100 and the score drops by 50, floored at 0; a valid player stays valid |
| Tick.EnemyStep | main.go:459-484 | an enemy below the bottom edge after moving is removed without checking players; an on-field enemy that touches a listed player damages one listed player it touches and is removed; one that touches nobody is kept, moved, with nothing else changed; at most one player is damaged; bullets are untouched |
| Tick.EnemyPhase | main.go:458-485 | the enemy phase leaves bullets alone, only removes enemies, keeps player rectangles, and keeps valid players valid |
| Tick.UpdateGame | main.go:404-486 | after a tick, for any iteration order, the same players are present, each at the position `MovePlayer` gives it (later phases never move a player) and so inside [0,770]x[0,570], valid players stay valid (health in (0,100], score >= 0), and no bullet or enemy is created |
| TickProperties.BulletPhaseSurvivors | main.go:429-456 | every bullet the phase visited and kept is on the field and overlaps no listed enemy that is left; unvisited bullets are unchanged |
| TickProperties.BulletPhaseKills | main.go:440-454 | over the bullet phase no more enemies disappear than bullets |
| TickProperties.BulletStepKills | main.go:440-454 | one bullet removes at most one enemy, and only by being removed itself |
| TickProperties.EnemyPhaseSurvivors | main.go:459-485 | every enemy the phase visited and kept is above the bottom edge and overlaps no listed player; unvisited enemies are unchanged |
| TickProperties.EnemyPhaseClear | main.go:459-485 | an enemy phase visiting every enemy and player leaves no enemy below the edge or touching a player |
| TickProperties.TickBulletsInField | main.go:428-437 | after a tick that visits every bullet, every remaining bullet lies in [0,800]x[0,600] |
| TickProperties.TickEnemiesClear | main.go:458-485 | after a tick that visits every enemy and player, every remaining enemy is above the bottom edge and overlaps no player |
| TickProperties.TickSurvivors | main.go:404-486 | both survivor properties hold for iteration orders that list each map's ids once |
| TickProperties.CreditIffSomeoneThere | main.go:447-451 | with every player listed, the kill is credited to someone exactly when some player stands on the bullet |
| TickProperties.BulletPhaseFrame | main.go:429-456 | a bullet the phase does not visit is still present and unchanged afterwards |
| TickProperties.BulletPhaseMissKept | main.go:429-456 | a visited bullet that stays on the field and overlaps no enemy present at the start survives the phase, moved exactly once |
| TickProperties.EnemyPhaseFrame | main.go:459-485 | an enemy the phase does not visit is still present and unchanged afterwards |
| TickProperties.TouchesSomeSameBodies | main.go:470-471 | whether a moved enemy touches a listed player depends only on the players' rectangles |
| TickProperties.EnemyPhaseMissKept | main.go:459-485 | a visited enemy that stays on the field and touches no player survives the phase, moved exactly once |
| TickProperties.EnemyPhaseHitRemoved | main.go:459-485 | a visited enemy that falls below the bottom edge, or touches a player after moving, is gone after the phase |
| TickProperties.NineHitsFromFull | main.go:473-474 | from full health, each of the first nine hits takes exactly 10 health and leaves the score alone |
| TickProperties.TenthHitRespawns | main.go:473-480 | the tenth hit from full health restores health to 100 and costs 50 points, floored at 0 |
| TickProperties.StillShooterNotCredited | main.go:446-452 | a 30-wide shooter still at its firing position is never standing on its own bullet, so it is never credited for it |
| Lobby.SelectRoom | main.go:231-237 | a chosen room had fewer than four players; nothing is chosen exactly when every listed room is full |
| Lobby.Join | main.go:249-252 | the joining player is present under its own id, the others are unchanged, and the room grows by at most one |
| Lobby.Disconnect | main.go:274-277 | exactly the leaving player's entry is removed; other players, bullets and enemies are unchanged |
| Lobby.Admit | main.go:227-252 | the player ends up in a room that had a free seat, or in a new room under the fresh id that holds only that player; other rooms are unchanged |
| Lobby.AdmitFreshOnlyWhenFull | main.go:231-244 | when the order lists every room, a new room is created exactly when every existing room has four players |
| Lobby.AdmitKeepsRegistryOk | main.go:227-252 | admitting a valid player keeps every room at four players or fewer, with valid players filed under their ids |
| Lobby.AdmitKeepsSeated | main.go:249-252 | admitting a player evicts nobody: every player already seated in any room is still seated there |
| Lobby.AdmitAll | main.go:227-252 | admitting arrivals one after another removes no room and evicts nobody already seated, and every new room carries one of the arrivals' fresh identifiers |
| Lobby.AdmitAllKeepsRegistryOk | main.go:227-252 | any sequence of admissions, one after another, keeps every room at four players or fewer |
| Lobby.JoinThenDisconnect | main.go:249-277 | joining and then disconnecting a player who was not in the room restores the room exactly |
| Lobby.Leave | main.go:274-277 | a disconnect replaces the leaving player's room by that room minus exactly that player, leaves every other room alone, and keeps the registry valid |
| Lobby.SpawnEnemy | main.go:334-349 | the enemy timer adds exactly one enemy under a fresh id, and it is `NewEnemy` of the draws: a 30x30 enemy at the top edge, drifting by -1, 0 or 1 and falling by 1 or 2; nothing else changes |
| Lobby.SpawnedEnemyLeavesField | main.go:334-349 | the spawned enemy is still on the field after one move and, unobstructed, below the bottom edge after 601 moves |
| Lobby.Settle | main.go:385-391 | the ticked room is filed back under its id, or the id is retired exactly when the room has no players; other rooms are unchanged; a valid registry stays valid |
| Lobby.LoopTick | main.go:380-391 | after a tick a room is retired exactly when it has no players; other rooms are unchanged and a valid registry stays valid |
| Messages.ApplyMove | main.go:288-296 | each velocity component is replaced only when its field is present as a number; nothing but the velocity changes |
| Messages.ApplyMoveIdempotent | main.go:288-296 | applying the same move payload twice is the same as applying it once |
| Messages.ApplyMoveFullOverwrite | main.go:288-296 | a payload with both components makes the previous velocity irrelevant |
| Messages.Steer | main.go:288-296 | a `move` message changes only the sender's velocity, by `ApplyMove`; every other player, bullet and enemy is kept; players stay valid |
| Messages.Shoot | main.go:311-327 | a `shoot` message adds exactly one bullet under the fresh id, centred on the shooter's base and moving up; existing bullets, players and enemies are kept |
| Messages.HandleMessage | main.go:286-299 | `move` updates only the sender's velocity; `shoot` adds exactly one bullet, centred on the sender; any other type changes nothing; players stay valid |

## Left out

- WebSocket upgrade, JSON encoding and decoding, `ReadJSON`/`WriteJSON`, the `init` message and `broadcastGameState` are network I/O through foreign libraries (main.go:186-200, 255-270, 493-519). `Messages` starts from an already decoded value.
- The echo server bootstrap, middleware and static file serving in `main` are process wiring (main.go:158-178).
- Goroutines, tickers, `gamesMutex`, `clientsMutex`, room mutexes and the global `clients` map are concurrency and shared state. Each operation here is one atomic step. In the code, room capacity is checked under the registry lock (main.go:233) but the insert happens under the room lock (main.go:251), so two concurrent joins can overfill a room. The four-player bound is proved only for sequential admission (`Lobby.AdmitAllKeepsRegistryOk`). The `move` handler also writes the player without the room lock.
- Timing: the 60 Hz and 2 s timers and the `LastTick` field. `Lobby.LoopTick` and `Lobby.SpawnEnemy` are the two timer branches, invoked explicitly.
- `uuid` and `math/rand` are replaced by parameters. Preconditions state the draw ranges, and the identifiers are required to be fresh. `Entities.NewPlayer` requires an id of at least five characters because the code slices `id[:5]`.
- IEEE-754 rounding: coordinates are exact reals.
- `Score` and `Health` are Go `int` (64-bit) but unbounded integers here. Health never leaves (0,100]. Score would need more than 10^17 kills to overflow, so wrap-around is not modelled.
- When sending the `init` message fails (main.go:262-265), the handler returns after the player was inserted (main.go:251) without deleting it. That player stays in the room for good, so the room can never retire. The model's admission always succeeds and has no such path.
- Map iteration order: each tick takes one order per map, and every scan over that map, in every phase, reuses it. Go may pick a fresh order for each `range`. The orders are arbitrary parameters, so the proved properties hold for every order. They are not proved for orders that change between scans within one tick.
- Boss, items, fire-power, hostile bullets, game-over/clear states and restart do not exist in this code and are not modelled.
