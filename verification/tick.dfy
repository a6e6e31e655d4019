/** One simulation tick of a room (`updateGame`): players move and are
    clamped, then every bullet moves and is resolved against the enemies, then
    every enemy moves and is resolved against the players.

    The source mutates the room's maps while ranging over them. The model
    threads an immutable `Room` through one step per visited id, in the
    orders given by `Orders`; an entity removed by an earlier step is absent
    from every later one. */
module Tick {
  import opened Wrappers
  import opened Scan
  import opened Entities
  import opened Collision

  /** The order in which the tick visits each map. The same player order is
      used for every scan over players, the same enemy order for every scan
      over enemies. */
  datatype Orders = Orders(players: seq<Id>, bullets: seq<Id>, enemies: seq<Id>)

  /** Each order lists its map's keys once, as one Go range loop does. */
  ghost predicate OrdersFor(room: Room, ord: Orders)
  {
    && Enumerates(ord.players, room.players.Keys)
    && Enumerates(ord.bullets, room.bullets.Keys)
    && Enumerates(ord.enemies, room.enemies.Keys)
  }

  /** Two player maps with the same ids and the same rectangles: only score
      and health may differ. */
  predicate SameBodies(ps: map<Id, Player>, qs: map<Id, Player>)
  {
    ps.Keys == qs.Keys && forall k :: k in ps ==> qs[k].base == ps[k].base && qs[k].name == ps[k].name && qs[k].color == ps[k].color
  }

  /** No player lost health and no score went down. */
  predicate OnlyGains(ps: map<Id, Player>, qs: map<Id, Player>)
  {
    ps.Keys <= qs.Keys && forall k :: k in ps ==> qs[k].health == ps[k].health && qs[k].score >= ps[k].score
  }

  /** A bullet still on the field: the source removes one whose position has
      y < 0, y > 600, x < 0 or x > 800. */
  predicate InField(e: Entity)
  {
    0.0 <= e.x <= FieldWidth && 0.0 <= e.y <= FieldHeight
  }

  // ---------------------------------------------------------------- players

  /** Clamp to [0, hi] as the source does: first raise a negative value to 0,
      then lower a value above `hi` to `hi`. */
  function Clamp(v: real, hi: real): (r: real)
    requires 0.0 <= hi
    ensures 0.0 <= r <= hi
    ensures 0.0 <= v <= hi ==> r == v
    ensures v < 0.0 ==> r == 0.0
    ensures v > hi ==> r == hi
  {
    var v' := if v < 0.0 then 0.0 else v;
    if v' > hi then hi else v'
  }

  /** A player moves by its velocity and is clamped to [0,770]x[0,570],
      whatever velocity the client sent. Nothing but the position changes,
      and a move that stays inside the area is not altered. */
  function MovePlayer(p: Player): (q: Player)
    ensures InPlayerArea(q.base)
    ensures q.base == p.base.(x := q.base.x, y := q.base.y)
    ensures q == p.(base := q.base)
    ensures InPlayerArea(Advance(p.base)) ==> q.base == Advance(p.base)
    ensures q.base.x == Clamp(p.base.x + p.base.vx, PlayerMaxX)
    ensures q.base.y == Clamp(p.base.y + p.base.vy, PlayerMaxY)
  {
    var m := Advance(p.base);
    p.(base := m.(x := Clamp(m.x, PlayerMaxX), y := Clamp(m.y, PlayerMaxY)))
  }

  /** The player phase: every player moves once, by its own velocity and
      clamped; no player joins or leaves. */
  function PlayerPhase(ps: map<Id, Player>): (qs: map<Id, Player>)
    ensures qs.Keys == ps.Keys
    ensures forall k :: k in qs ==> qs[k] == MovePlayer(ps[k])
    ensures forall k :: k in qs ==> InPlayerArea(qs[k].base)
    ensures forall k :: k in qs ==> qs[k] == ps[k].(base := qs[k].base) && qs[k].base == ps[k].base.(x := qs[k].base.x, y := qs[k].base.y)
    ensures AllPlayersOk(ps) ==> AllPlayersOk(qs)
  {
    map k | k in ps :: MovePlayer(ps[k])
  }

  // ---------------------------------------------------------------- bullets

  /** The player stands exactly where the bullet is. */
  predicate AtPosition(p: Player, b: Entity)
  {
    p.base.x == b.x && p.base.y == b.y
  }

  /** Some player listed in `porder` stands exactly on the bullet. */
  predicate SomeoneAt(ps: map<Id, Player>, porder: seq<Id>, b: Entity)
  {
    exists i :: 0 <= i < |porder| && porder[i] in ps && AtPosition(ps[porder[i]], b)
  }

  /** Kill credit: the first player (in `porder`) standing exactly at the
      bullet's position gains 10 points. If nobody stands there nobody is
      credited. */
  function Credit(ps: map<Id, Player>, porder: seq<Id>, b: Entity): (qs: map<Id, Player>)
    ensures SomeoneAt(ps, porder, b) ==>
              exists i :: 0 <= i < |porder| && porder[i] in ps && AtPosition(ps[porder[i]], b) &&
                qs == ps[porder[i] := ps[porder[i]].(score := ps[porder[i]].score + KillPoints)]
    ensures !SomeoneAt(ps, porder, b) ==> qs == ps
  {
    match FirstMatch(ps, porder, (p: Player) => AtPosition(p, b))
    case None => ps
    case Some(i) =>
      var k := porder[i];
      ps[k := ps[k].(score := ps[k].score + KillPoints)]
  }

  /** Some enemy listed in `eorder` overlaps the bullet. */
  predicate HitsSome(b: Entity, enemies: map<Id, Entity>, eorder: seq<Id>)
  {
    exists i :: 0 <= i < |eorder| && eorder[i] in enemies && Overlaps(b, enemies[eorder[i]])
  }

  /** Moves bullet `id` and resolves it. A bullet that leaves the field is
      removed without looking at enemies. Otherwise the first enemy it
      overlaps (in `eorder`) is removed together with the bullet, and the
      player at the bullet's position is credited. A bullet that hits nothing
      stays, moved. Ids no longer in the room are skipped. */
  function BulletStep(room: Room, eorder: seq<Id>, porder: seq<Id>, id: Id): (r: Room)
    ensures r.id == room.id
    ensures r.bullets.Keys <= room.bullets.Keys
    ensures forall k :: k in room.bullets && k != id ==> k in r.bullets && r.bullets[k] == room.bullets[k]
    ensures id in r.bullets ==> r.bullets[id] == Advance(room.bullets[id]) && InField(r.bullets[id])
    ensures id in r.bullets ==> forall i :: 0 <= i < |eorder| && eorder[i] in r.enemies ==> !Overlaps(r.bullets[id], r.enemies[eorder[i]])
    ensures id in room.bullets && !InField(Advance(room.bullets[id])) ==> id !in r.bullets && r.enemies == room.enemies && r.players == room.players
    ensures r.enemies.Keys <= room.enemies.Keys && |room.enemies| - |r.enemies| <= 1
    ensures forall k :: k in r.enemies ==> r.enemies[k] == room.enemies[k]
    ensures r.enemies != room.enemies ==> id in room.bullets && id !in r.bullets
    ensures r.players != room.players ==> r.enemies != room.enemies
    ensures SameBodies(room.players, r.players) && OnlyGains(room.players, r.players)
    ensures id in room.bullets && InField(Advance(room.bullets[id])) && !HitsSome(Advance(room.bullets[id]), room.enemies, eorder) ==>
              r == room.(bullets := room.bullets[id := Advance(room.bullets[id])])
    ensures id in room.bullets && InField(Advance(room.bullets[id])) && HitsSome(Advance(room.bullets[id]), room.enemies, eorder) ==>
              && id !in r.bullets
              && |r.enemies| == |room.enemies| - 1
              && r.players == Credit(room.players, porder, Advance(room.bullets[id]))
              && exists i :: 0 <= i < |eorder| && eorder[i] in room.enemies && Overlaps(Advance(room.bullets[id]), room.enemies[eorder[i]]) && r.enemies == room.enemies - {eorder[i]}
  {
    if id !in room.bullets then room
    else
      var b := Advance(room.bullets[id]);
      if !InField(b) then room.(bullets := room.bullets - {id})
      else
        match FirstMatch(room.enemies, eorder, (e: Entity) => Overlaps(b, e))
        case None => room.(bullets := room.bullets[id := b])
        case Some(i) =>
          assert eorder[i] in room.enemies;
          room.(bullets := room.bullets - {id},
                enemies := room.enemies - {eorder[i]},
                players := Credit(room.players, porder, b))
  }

  /** The bullet phase: `BulletStep` for each id of `border` in turn. Bullets
      and enemies are only ever removed, never added; enemies do not move;
      players keep their rectangles and health and can only gain points. */
  function BulletPhase(room: Room, border: seq<Id>, eorder: seq<Id>, porder: seq<Id>): (r: Room)
    ensures r.id == room.id
    ensures r.bullets.Keys <= room.bullets.Keys
    ensures forall k :: k in r.enemies ==> k in room.enemies && r.enemies[k] == room.enemies[k]
    ensures SameBodies(room.players, r.players) && OnlyGains(room.players, r.players)
    ensures AllPlayersOk(room.players) ==> AllPlayersOk(r.players)
    decreases |border|
  {
    if |border| == 0 then room
    else BulletPhase(BulletStep(room, eorder, porder, border[0]), border[1..], eorder, porder)
  }

  // ---------------------------------------------------------------- enemies

  /** The effect of one enemy hit: 10 damage; if that leaves the player at or
      below zero, health is restored to 100 and the score drops by 50, but
      not below zero. */
  function Damage(p: Player): (q: Player)
    ensures q.base == p.base && q.name == p.name && q.color == p.color
    ensures PlayerOk(p) ==> PlayerOk(q)
    ensures p.health > EnemyDamage ==> q.health == p.health - EnemyDamage && q.score == p.score
    ensures p.health <= EnemyDamage ==> q.health == MaxHealth && q.score == (if p.score < RespawnPenalty then 0 else p.score - RespawnPenalty)
  {
    var h := p.health - EnemyDamage;
    if h <= 0 then
      var s := p.score - RespawnPenalty;
      p.(health := MaxHealth, score := if s < 0 then 0 else s)
    else
      p.(health := h)
  }

  /** Some player listed in `porder` overlaps the enemy. */
  predicate TouchesSome(e: Entity, players: map<Id, Player>, porder: seq<Id>)
  {
    exists i :: 0 <= i < |porder| && porder[i] in players && Overlaps(e, players[porder[i]].base)
  }

  /** Moves enemy `id` and resolves it. An enemy below the bottom edge is
      removed without looking at players. Otherwise the first player it
      overlaps (in `porder`) takes `Damage` and the enemy is removed; an enemy
      that touches nobody stays, moved. Ids no longer in the room are
      skipped. */
  function EnemyStep(room: Room, porder: seq<Id>, id: Id): (r: Room)
    ensures r.id == room.id && r.bullets == room.bullets
    ensures r.enemies.Keys <= room.enemies.Keys
    ensures forall k :: k in room.enemies && k != id ==> k in r.enemies && r.enemies[k] == room.enemies[k]
    ensures id in room.enemies && Advance(room.enemies[id]).y > FieldHeight ==> id !in r.enemies && r.players == room.players
    ensures id in r.enemies ==> r.enemies[id] == Advance(room.enemies[id]) && r.enemies[id].y <= FieldHeight && r.players == room.players
    ensures id in r.enemies ==> forall i :: 0 <= i < |porder| && porder[i] in r.players ==> !Overlaps(r.enemies[id], r.players[porder[i]].base)
    ensures r.players == room.players ||
              (id in room.enemies &&
               exists i :: 0 <= i < |porder| && porder[i] in room.players && Overlaps(Advance(room.enemies[id]), room.players[porder[i]].base) &&
                 r.players == room.players[porder[i] := Damage(room.players[porder[i]])])
    ensures r.players != room.players ==> id in room.enemies && id !in r.enemies
    ensures SameBodies(room.players, r.players)
    ensures id in room.enemies && Advance(room.enemies[id]).y <= FieldHeight && TouchesSome(Advance(room.enemies[id]), room.players, porder) ==>
              r.players != room.players && r.enemies == room.enemies - {id}
    ensures id in room.enemies && Advance(room.enemies[id]).y <= FieldHeight && !TouchesSome(Advance(room.enemies[id]), room.players, porder) ==>
              r == room.(enemies := room.enemies[id := Advance(room.enemies[id])])
  {
    if id !in room.enemies then room
    else
      var e := Advance(room.enemies[id]);
      if e.y > FieldHeight then room.(enemies := room.enemies - {id})
      else
        match FirstMatch(room.players, porder, (p: Player) => Overlaps(e, p.base))
        case None => room.(enemies := room.enemies[id := e])
        case Some(i) =>
          var k := porder[i];
          assert Overlaps(e, room.players[k].base);
          room.(players := room.players[k := Damage(room.players[k])],
                enemies := room.enemies - {id})
  }

  /** The enemy phase: `EnemyStep` for each id of `eorder` in turn. Bullets
      are untouched, enemies only removed, players keep their rectangles and
      stay valid. */
  function EnemyPhase(room: Room, eorder: seq<Id>, porder: seq<Id>): (r: Room)
    ensures r.id == room.id && r.bullets == room.bullets
    ensures r.enemies.Keys <= room.enemies.Keys
    ensures SameBodies(room.players, r.players)
    ensures AllPlayersOk(room.players) ==> AllPlayersOk(r.players)
    decreases |eorder|
  {
    if |eorder| == 0 then room
    else EnemyPhase(EnemyStep(room, porder, eorder[0]), eorder[1..], porder)
  }

  // ---------------------------------------------------------------- the tick

  /** One tick: the player, bullet and enemy phases in that order. Whatever
      the orders, no player joins or leaves, every player ends inside
      [0,770]x[0,570], and valid players stay valid: health in (0,100],
      score non-negative. */
  function UpdateGame(room: Room, ord: Orders): (r: Room)
    ensures r.id == room.id
    ensures r.players.Keys == room.players.Keys
    ensures forall k :: k in r.players ==> InPlayerArea(r.players[k].base)
    ensures AllPlayersOk(room.players) ==> AllPlayersOk(r.players)
    ensures r.bullets.Keys <= room.bullets.Keys && r.enemies.Keys <= room.enemies.Keys
    ensures forall k :: k in r.players ==> r.players[k].base == MovePlayer(room.players[k]).base
  {
    var moved := room.(players := PlayerPhase(room.players));
    var shot := BulletPhase(moved, ord.bullets, ord.enemies, ord.players);
    var r := EnemyPhase(shot, ord.enemies, ord.players);
    assert forall k :: k in r.players ==> r.players[k].base == MovePlayer(room.players[k]).base by {
      forall k | k in r.players
        ensures r.players[k].base == MovePlayer(room.players[k]).base
      {
        assert moved.players[k] == MovePlayer(room.players[k]);
        assert shot.players[k].base == moved.players[k].base;
      }
    }
    r
  }
}

/** Properties of whole phases and of the tick, proved from the step
    contracts. */
module TickProperties {
  import opened Scan
  import opened Entities
  import opened Collision
  import opened Tick

  /** After the bullet phase, every bullet it visited is on the field and
      overlaps no remaining enemy; bullets it did not visit are untouched. */
  lemma {:induction false} BulletPhaseSurvivors(room: Room, border: seq<Id>, eorder: seq<Id>, porder: seq<Id>)
    requires Distinct(border)
    ensures var r := BulletPhase(room, border, eorder, porder);
            forall k :: k in r.bullets ==>
              if k in border then
                InField(r.bullets[k]) && forall i :: 0 <= i < |eorder| && eorder[i] in r.enemies ==> !Overlaps(r.bullets[k], r.enemies[eorder[i]])
              else
                k in room.bullets && r.bullets[k] == room.bullets[k]
    decreases |border|
  {
    if |border| > 0 {
      var s := BulletStep(room, eorder, porder, border[0]);
      var rest := border[1..];
      assert Distinct(rest);
      BulletPhaseSurvivors(s, rest, eorder, porder);
      var r := BulletPhase(s, rest, eorder, porder);
      assert r == BulletPhase(room, border, eorder, porder);
      forall k | k in r.bullets
        ensures if k in border then
                  InField(r.bullets[k]) && forall i :: 0 <= i < |eorder| && eorder[i] in r.enemies ==> !Overlaps(r.bullets[k], r.enemies[eorder[i]])
                else
                  k in room.bullets && r.bullets[k] == room.bullets[k]
      {
        if k !in rest {
          if k == border[0] {
            forall i | 0 <= i < |eorder| && eorder[i] in r.enemies
              ensures !Overlaps(r.bullets[k], r.enemies[eorder[i]])
            {
              assert eorder[i] in s.enemies;
            }
          }
        }
      }
    }
  }

  /** A bullet removes at most one enemy and is itself removed when it does,
      so over the bullet phase no more enemies disappear than bullets. */
  lemma {:induction false} BulletPhaseKills(room: Room, border: seq<Id>, eorder: seq<Id>, porder: seq<Id>)
    ensures var r := BulletPhase(room, border, eorder, porder);
            |room.enemies| - |r.enemies| <= |room.bullets| - |r.bullets|
    decreases |border|
  {
    if |border| > 0 {
      var id := border[0];
      var s := BulletStep(room, eorder, porder, id);
      BulletPhaseKills(s, border[1..], eorder, porder);
      assert |room.enemies| - |s.enemies| <= |room.bullets| - |s.bullets| by {
        BulletStepKills(room, eorder, porder, id);
      }
    }
  }

  /** One step: an enemy disappears only together with the bullet. */
  lemma BulletStepKills(room: Room, eorder: seq<Id>, porder: seq<Id>, id: Id)
    ensures var s := BulletStep(room, eorder, porder, id);
            |room.enemies| - |s.enemies| <= |room.bullets| - |s.bullets|
  {
  }

  /** After the enemy phase, every enemy it visited is at or above the bottom
      edge and overlaps no player; enemies it did not visit are untouched. */
  lemma {:induction false} EnemyPhaseSurvivors(room: Room, eorder: seq<Id>, porder: seq<Id>)
    requires Distinct(eorder)
    ensures var r := EnemyPhase(room, eorder, porder);
            forall k :: k in r.enemies ==>
              if k in eorder then
                r.enemies[k].y <= FieldHeight && forall i :: 0 <= i < |porder| && porder[i] in r.players ==> !Overlaps(r.enemies[k], r.players[porder[i]].base)
              else
                k in room.enemies && r.enemies[k] == room.enemies[k]
    decreases |eorder|
  {
    if |eorder| > 0 {
      var s := EnemyStep(room, porder, eorder[0]);
      var rest := eorder[1..];
      assert Distinct(rest);
      EnemyPhaseSurvivors(s, rest, porder);
      var r := EnemyPhase(s, rest, porder);
      assert r == EnemyPhase(room, eorder, porder);
      forall k | k in r.enemies
        ensures if k in eorder then
                  r.enemies[k].y <= FieldHeight && forall i :: 0 <= i < |porder| && porder[i] in r.players ==> !Overlaps(r.enemies[k], r.players[porder[i]].base)
                else
                  k in room.enemies && r.enemies[k] == room.enemies[k]
      {
        if k !in rest && k == eorder[0] {
          forall i | 0 <= i < |porder| && porder[i] in r.players
            ensures !Overlaps(r.enemies[k], r.players[porder[i]].base)
          {
            assert porder[i] in s.players;
          }
        }
      }
    }
  }

  /** Every bullet of the room is on the field. */
  predicate BulletsInField(r: Room)
  {
    forall k :: k in r.bullets ==> InField(r.bullets[k])
  }

  /** Every enemy of the room is at or above the bottom edge and overlaps no
      player. */
  predicate EnemiesClear(r: Room)
  {
    && (forall k :: k in r.enemies ==> r.enemies[k].y <= FieldHeight)
    && (forall k, j :: k in r.enemies && j in r.players ==> !Overlaps(r.enemies[k], r.players[j].base))
  }

  /** After a tick visiting every bullet once, every remaining bullet is on
      the field. */
  lemma TickBulletsInField(room: Room, ord: Orders)
    requires Distinct(ord.bullets)
    requires forall k :: k in room.bullets ==> k in ord.bullets
    ensures BulletsInField(UpdateGame(room, ord))
  {
    var moved := room.(players := PlayerPhase(room.players));
    var shot := BulletPhase(moved, ord.bullets, ord.enemies, ord.players);
    BulletPhaseSurvivors(moved, ord.bullets, ord.enemies, ord.players);
    assert BulletsInField(shot);
    assert UpdateGame(room, ord).bullets == shot.bullets;
  }

  /** An enemy phase visiting every enemy and player once leaves no enemy
      below the bottom edge and none overlapping a player. */
  lemma EnemyPhaseClear(room: Room, eorder: seq<Id>, porder: seq<Id>)
    requires Distinct(eorder)
    requires forall k :: k in room.enemies ==> k in eorder
    requires forall k :: k in room.players ==> k in porder
    ensures EnemiesClear(EnemyPhase(room, eorder, porder))
  {
    var r := EnemyPhase(room, eorder, porder);
    EnemyPhaseSurvivors(room, eorder, porder);
    forall k | k in r.enemies
      ensures r.enemies[k].y <= FieldHeight
    {
      assert k in eorder;
    }
    forall k, j | k in r.enemies && j in r.players
      ensures !Overlaps(r.enemies[k], r.players[j].base)
    {
      assert k in eorder;
      assert j in porder;
      var i :| 0 <= i < |porder| && porder[i] == j;
    }
  }

  /** After a tick visiting every enemy and player once, every remaining
      enemy is at or above the bottom edge and overlaps no player. */
  lemma TickEnemiesClear(room: Room, ord: Orders)
    requires Distinct(ord.enemies)
    requires forall k :: k in room.enemies ==> k in ord.enemies
    requires forall k :: k in room.players ==> k in ord.players
    ensures EnemiesClear(UpdateGame(room, ord))
  {
    var moved := room.(players := PlayerPhase(room.players));
    var shot := BulletPhase(moved, ord.bullets, ord.enemies, ord.players);
    assert shot.players.Keys == room.players.Keys;
    assert shot.enemies.Keys <= room.enemies.Keys;
    EnemyPhaseClear(shot, ord.enemies, ord.players);
    assert UpdateGame(room, ord) == EnemyPhase(shot, ord.enemies, ord.players);
  }

  /** After a tick whose orders enumerate the room's maps, bullets are on the
      field and enemies are above the bottom edge and clear of every player. */
  lemma TickSurvivors(room: Room, ord: Orders)
    requires OrdersFor(room, ord)
    ensures BulletsInField(UpdateGame(room, ord))
    ensures EnemiesClear(UpdateGame(room, ord))
  {
    TickBulletsInField(room, ord);
    TickEnemiesClear(room, ord);
  }

  /** Kill credit goes to someone exactly when, with every player listed,
      some player stands on the bullet. */
  lemma CreditIffSomeoneThere(ps: map<Id, Player>, porder: seq<Id>, b: Entity)
    requires forall k :: k in ps ==> k in porder
    ensures Credit(ps, porder, b) != ps <==> exists k :: k in ps && AtPosition(ps[k], b)
  {
    if k :| k in ps && AtPosition(ps[k], b) {
      var i :| 0 <= i < |porder| && porder[i] == k;
      assert SomeoneAt(ps, porder, b);
      var k' :| k' in ps && AtPosition(ps[k'], b) && Credit(ps, porder, b) == ps[k' := ps[k'].(score := ps[k'].score + KillPoints)];
      assert Credit(ps, porder, b)[k'].score != ps[k'].score;
    }
  }

  /** Bullets the phase does not visit stay exactly as they were. */
  lemma {:induction false} BulletPhaseFrame(room: Room, border: seq<Id>, eorder: seq<Id>, porder: seq<Id>, k: Id)
    requires k in room.bullets && k !in border
    ensures k in BulletPhase(room, border, eorder, porder).bullets
    ensures BulletPhase(room, border, eorder, porder).bullets[k] == room.bullets[k]
    decreases |border|
  {
    if |border| > 0 {
      BulletPhaseFrame(BulletStep(room, eorder, porder, border[0]), border[1..], eorder, porder, k);
    }
  }

  /** A visited bullet that stays on the field and overlaps no enemy present
      when the phase starts survives the phase, moved exactly once. */
  lemma {:induction false} BulletPhaseMissKept(room: Room, border: seq<Id>, eorder: seq<Id>, porder: seq<Id>, id: Id)
    requires Distinct(border) && id in border && id in room.bullets
    requires InField(Advance(room.bullets[id])) && !HitsSome(Advance(room.bullets[id]), room.enemies, eorder)
    ensures id in BulletPhase(room, border, eorder, porder).bullets
    ensures BulletPhase(room, border, eorder, porder).bullets[id] == Advance(room.bullets[id])
    decreases |border|
  {
    var s := BulletStep(room, eorder, porder, border[0]);
    var rest := border[1..];
    assert Distinct(rest);
    if border[0] == id {
      assert id !in rest;
      BulletPhaseFrame(s, rest, eorder, porder, id);
    } else {
      assert id in rest;
      assert s.bullets[id] == room.bullets[id];
      BulletPhaseMissKept(s, rest, eorder, porder, id);
    }
  }

  /** Enemies the phase does not visit stay exactly as they were. */
  lemma {:induction false} EnemyPhaseFrame(room: Room, eorder: seq<Id>, porder: seq<Id>, k: Id)
    requires k in room.enemies && k !in eorder
    ensures k in EnemyPhase(room, eorder, porder).enemies
    ensures EnemyPhase(room, eorder, porder).enemies[k] == room.enemies[k]
    decreases |eorder|
  {
    if |eorder| > 0 {
      EnemyPhaseFrame(EnemyStep(room, porder, eorder[0]), eorder[1..], porder, k);
    }
  }

  /** Whether a moved enemy touches a listed player does not change while
      players keep their rectangles. */
  lemma TouchesSomeSameBodies(e: Entity, ps: map<Id, Player>, qs: map<Id, Player>, porder: seq<Id>)
    requires SameBodies(ps, qs)
    ensures TouchesSome(e, ps, porder) <==> TouchesSome(e, qs, porder)
  {
    if TouchesSome(e, ps, porder) {
      var i :| 0 <= i < |porder| && porder[i] in ps && Overlaps(e, ps[porder[i]].base);
      assert porder[i] in qs && qs[porder[i]].base == ps[porder[i]].base;
    }
    if TouchesSome(e, qs, porder) {
      var i :| 0 <= i < |porder| && porder[i] in qs && Overlaps(e, qs[porder[i]].base);
      assert porder[i] in ps && qs[porder[i]].base == ps[porder[i]].base;
    }
  }

  /** A visited enemy that stays on the field and touches no player survives
      the phase, moved exactly once. */
  lemma {:induction false} EnemyPhaseMissKept(room: Room, eorder: seq<Id>, porder: seq<Id>, id: Id)
    requires Distinct(eorder) && id in eorder && id in room.enemies
    requires Advance(room.enemies[id]).y <= FieldHeight && !TouchesSome(Advance(room.enemies[id]), room.players, porder)
    ensures id in EnemyPhase(room, eorder, porder).enemies
    ensures EnemyPhase(room, eorder, porder).enemies[id] == Advance(room.enemies[id])
    decreases |eorder|
  {
    var s := EnemyStep(room, porder, eorder[0]);
    var rest := eorder[1..];
    assert Distinct(rest);
    if eorder[0] == id {
      assert id !in rest;
      EnemyPhaseFrame(s, rest, porder, id);
    } else {
      assert id in rest;
      TouchesSomeSameBodies(Advance(room.enemies[id]), room.players, s.players, porder);
      EnemyPhaseMissKept(s, rest, porder, id);
    }
  }

  /** A visited enemy that falls below the bottom edge, or touches a player
      after moving, is gone after the phase. */
  lemma {:induction false} EnemyPhaseHitRemoved(room: Room, eorder: seq<Id>, porder: seq<Id>, id: Id)
    requires Distinct(eorder) && id in eorder && id in room.enemies
    requires Advance(room.enemies[id]).y > FieldHeight || TouchesSome(Advance(room.enemies[id]), room.players, porder)
    ensures id !in EnemyPhase(room, eorder, porder).enemies
    decreases |eorder|
  {
    var s := EnemyStep(room, porder, eorder[0]);
    var rest := eorder[1..];
    assert Distinct(rest);
    if eorder[0] == id {
      assert id !in s.enemies;
    } else {
      assert id in rest;
      TouchesSomeSameBodies(Advance(room.enemies[id]), room.players, s.players, porder);
      EnemyPhaseHitRemoved(s, rest, porder, id);
    }
  }

  /** `n` enemy hits in a row. */
  function DamageN(p: Player, n: nat): Player
  {
    if n == 0 then p else Damage(DamageN(p, n - 1))
  }

  /** From full health, the first nine hits each take 10 health and leave the
      score alone. */
  lemma {:induction false} NineHitsFromFull(p: Player, n: nat)
    requires p.health == MaxHealth && n <= 9
    ensures DamageN(p, n) == p.(health := MaxHealth - EnemyDamage * n)
  {
    if n > 0 {
      NineHitsFromFull(p, n - 1);
    }
  }

  /** The tenth hit from full health respawns the player: health back to 100
      and 50 points lost, floored at zero. */
  lemma TenthHitRespawns(p: Player)
    requires p.health == MaxHealth
    ensures DamageN(p, 10) == p.(score := if p.score < RespawnPenalty then 0 else p.score - RespawnPenalty)
  {
    NineHitsFromFull(p, 9);
  }

  /** Kill credit goes to a player standing exactly on the bullet, and a
      bullet is fired from the shooter's centre and never drifts sideways: a
      30-wide shooter that has not moved since firing is never credited for
      its own bullet. */
  lemma StillShooterNotCredited(shooter: Player, id: Id, n: nat)
    requires shooter.base.width == PlayerSize
    ensures !AtPosition(shooter, AdvanceN(NewBullet(id, shooter.base), n))
  {
    BulletKeepsColumn(id, shooter.base, n);
  }
}
