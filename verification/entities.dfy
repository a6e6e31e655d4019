/** The game objects of one room: the axis-aligned rectangles that move
    (players, bullets, enemies), the player record built on top of one, and
    the room that owns them. Coordinates are exact reals; the random draws and
    generated identifiers of the constructors are parameters. */
module Entities {
  /** Entity, player, bullet, enemy and room identifiers (uuid strings). */
  type Id = string

  /** The `Type` tag an entity carries: "player", "bullet" or "enemy". */
  datatype Kind = PlayerKind | BulletKind | EnemyKind

  /** A moving rectangle: top-left corner (x, y), velocity per tick
      (vx, vy), and integer size. */
  datatype Entity = Entity(id: Id, kind: Kind, x: real, y: real, vx: real, vy: real, width: int, height: int)

  /** A player: its rectangle plus display name, score, health and colour. */
  datatype Player = Player(base: Entity, name: string, score: int, health: int, color: string)

  /** One game room: players, bullets and enemies, each keyed by id. */
  datatype Room = Room(id: Id, players: map<Id, Player>, bullets: map<Id, Entity>, enemies: map<Id, Entity>)

  /** Playfield size; bullets outside [0,800]x[0,600] are removed. */
  const FieldWidth: real := 800.0
  const FieldHeight: real := 600.0

  /** Player rectangles are 30x30 and are clamped to [0,770]x[0,570], so the
      whole rectangle stays on the field. */
  const PlayerSize: int := 30
  const PlayerMaxX: real := 770.0
  const PlayerMaxY: real := 570.0

  const EnemySize: int := 30
  const BulletWidth: int := 5
  const BulletHeight: int := 10
  const BulletSpeed: real := -5.0

  const MaxHealth: int := 100
  const EnemyDamage: int := 10
  const KillPoints: int := 10
  const RespawnPenalty: int := 50
  const RoomCapacity: int := 4

  /** The colours a new player is given one of. */
  const Palette: seq<string> := ["#FF0000", "#00FF00", "#0000FF", "#FFFF00", "#FF00FF"]

  /** One tick of motion: the displacement is the velocity, and nothing
      but the position changes. */
  function Advance(e: Entity): (r: Entity)
    ensures r.x - e.x == e.vx && r.y - e.y == e.vy
    ensures r == e.(x := r.x, y := r.y)
  {
    e.(x := e.x + e.vx, y := e.y + e.vy)
  }

  /** `n` ticks of motion, unobstructed. */
  function AdvanceN(e: Entity, n: nat): Entity
  {
    if n == 0 then e else Advance(AdvanceN(e, n - 1))
  }

  /** Motion is uniform: after `n` ticks an entity has moved `n` times its
      velocity and nothing else about it has changed. */
  lemma {:induction false} AdvanceNUniform(e: Entity, n: nat)
    ensures AdvanceN(e, n) == e.(x := e.x + n as real * e.vx, y := e.y + n as real * e.vy)
  {
    if n > 0 {
      AdvanceNUniform(e, n - 1);
      assert (n - 1) as real * e.vx + e.vx == n as real * e.vx;
      assert (n - 1) as real * e.vy + e.vy == n as real * e.vy;
    }
  }

  /** Health in (0,100] and a non-negative score: what every player keeps. */
  predicate PlayerOk(p: Player)
  {
    0 < p.health <= MaxHealth && p.score >= 0
  }

  /** Every player of a room map is valid and filed under its own id. */
  predicate AllPlayersOk(ps: map<Id, Player>)
  {
    forall k :: k in ps ==> PlayerOk(ps[k]) && ps[k].base.id == k
  }

  /** The rectangle lies where the player clamp keeps it. */
  predicate InPlayerArea(e: Entity)
  {
    0.0 <= e.x <= PlayerMaxX && 0.0 <= e.y <= PlayerMaxY
  }

  /** The player that joins on connection `id`: a 30x30 rectangle at rest at
      (300 + xDraw, 300 + yDraw), full health, no score, the palette colour at
      `colorDraw`, named after the first five characters of its id. The source
      slices `id[:5]`, so ids shorter than five characters are not accepted. */
  function NewPlayer(id: Id, xDraw: int, yDraw: int, colorDraw: int): (p: Player)
    requires |id| >= 5
    requires 0 <= xDraw < 300 && 0 <= yDraw < 300
    requires 0 <= colorDraw < |Palette|
    ensures p.base.id == id && p.base.kind == PlayerKind
    ensures 300.0 <= p.base.x < 600.0 && 300.0 <= p.base.y < 600.0
    ensures p.base.vx == 0.0 && p.base.vy == 0.0
    ensures p.base.width == PlayerSize && p.base.height == PlayerSize
    ensures p.health == MaxHealth && p.score == 0
    ensures p.color in Palette
    ensures |p.name| == 12 && p.name[..7] == "Player-" && p.name[7..] == id[..5]
    ensures AllPlayersOk(map[id := p])
  {
    Player(Entity(id, PlayerKind, (300 + xDraw) as real, (300 + yDraw) as real, 0.0, 0.0, PlayerSize, PlayerSize),
           "Player-" + id[..5], 0, MaxHealth, Palette[colorDraw])
  }

  /** A bullet fired by `shooter`: 5x10, centred horizontally on the shooter
      at the shooter's top edge, moving straight up at 5 per tick. */
  function NewBullet(id: Id, shooter: Entity): (b: Entity)
    ensures b.id == id && b.kind == BulletKind
    ensures b.x + b.width as real / 2.0 == shooter.x + shooter.width as real / 2.0
    ensures b.y == shooter.y
    ensures b.vx == 0.0 && b.vy < 0.0
    ensures b.width == BulletWidth && b.height == BulletHeight
  {
    Entity(id, BulletKind, shooter.x + shooter.width as real / 2.0 - 2.5, shooter.y, 0.0, BulletSpeed, BulletWidth, BulletHeight)
  }

  /** An enemy spawned at the top edge: x is the draw in [0,600), the
      horizontal drift is the draw in [0,3) minus one, the fall speed the draw
      in [0,2) plus one. */
  function NewEnemy(id: Id, xDraw: int, vxDraw: int, vyDraw: int): (e: Entity)
    requires 0 <= xDraw < 600 && 0 <= vxDraw < 3 && 0 <= vyDraw < 2
    ensures e.id == id && e.kind == EnemyKind
    ensures 0.0 <= e.x < 600.0 && e.y == 0.0
    ensures e.vx == -1.0 || e.vx == 0.0 || e.vx == 1.0
    ensures e.vy == 1.0 || e.vy == 2.0
    ensures e.width == EnemySize && e.height == EnemySize
  {
    Entity(id, EnemyKind, xDraw as real, 0.0, (vxDraw - 1) as real, (vyDraw + 1) as real, EnemySize, EnemySize)
  }

  /** A new room: no players, bullets or enemies. */
  function NewRoom(id: Id): (r: Room)
    ensures r.id == id
    ensures |r.players| == 0 && |r.bullets| == 0 && |r.enemies| == 0
  {
    Room(id, map[], map[], map[])
  }

  /** A bullet never drifts sideways, so it stays in the column it was fired
      in: `n` ticks after leaving a shooter at x, its left edge is still at
      x + width/2 - 2.5. */
  lemma BulletKeepsColumn(id: Id, shooter: Entity, n: nat)
    ensures AdvanceN(NewBullet(id, shooter), n).x == shooter.x + shooter.width as real / 2.0 - 2.5
    ensures AdvanceN(NewBullet(id, shooter), n).y == shooter.y - 5.0 * n as real
  {
    AdvanceNUniform(NewBullet(id, shooter), n);
  }

  /** A spawned enemy falls at least one unit per tick: it is still on the
      field after its first move, and after 601 moves it is below the bottom
      edge, so an enemy that hits nobody is culled within 601 ticks. */
  lemma EnemyLeavesField(id: Id, xDraw: int, vxDraw: int, vyDraw: int)
    requires 0 <= xDraw < 600 && 0 <= vxDraw < 3 && 0 <= vyDraw < 2
    ensures AdvanceN(NewEnemy(id, xDraw, vxDraw, vyDraw), 1).y <= FieldHeight
    ensures AdvanceN(NewEnemy(id, xDraw, vxDraw, vyDraw), 601).y > FieldHeight
  {
    var e := NewEnemy(id, xDraw, vxDraw, vyDraw);
    AdvanceNUniform(e, 1);
    AdvanceNUniform(e, 601);
  }
}
