/** The room registry: choosing a room for a new connection, joining and
    leaving it, spawning enemies into it, and retiring it once empty.

    Admission is modelled one connection at a time. The registry is visited in
    an explicit order (Go ranges over the room map in an unspecified order) and
    a newly created room gets an identifier passed in as a parameter. */
module Lobby {
  import opened Wrappers
  import opened Scan
  import opened Entities
  import opened Tick

  /** Live rooms keyed by room id. */
  type Registry = map<Id, Room>

  /** Every room is filed under its own id, holds at most four players, and
      all of its players are valid. */
  predicate RegistryOk(reg: Registry)
  {
    forall k :: k in reg ==> reg[k].id == k && |reg[k].players| <= RoomCapacity && AllPlayersOk(reg[k].players)
  }

  /** The first room in `order` with fewer than four players, if any. */
  function SelectRoom(reg: Registry, order: seq<Id>): (r: Option<Id>)
    ensures r.Some? ==> r.value in reg && |reg[r.value].players| < RoomCapacity
    ensures r.None? <==> forall i :: 0 <= i < |order| && order[i] in reg ==> |reg[order[i]].players| >= RoomCapacity
  {
    match FirstMatch(reg, order, (room: Room) => |room.players| < RoomCapacity)
    case None => None
    case Some(i) => Some(order[i])
  }

  /** `p` enters the room under its own id; nobody else is affected. */
  function Join(room: Room, p: Player): (r: Room)
    ensures r.id == room.id && r.bullets == room.bullets && r.enemies == room.enemies
    ensures p.base.id in r.players && r.players[p.base.id] == p
    ensures forall k :: k in room.players && k != p.base.id ==> k in r.players && r.players[k] == room.players[k]
    ensures r.players.Keys == room.players.Keys + {p.base.id}
    ensures |r.players| <= |room.players| + 1
  {
    var ps := room.players[p.base.id := p];
    assert ps.Keys == room.players.Keys + {p.base.id};
    assert |room.players.Keys + {p.base.id}| <= |room.players.Keys| + 1;
    room.(players := ps)
  }

  /** A player's connection ends: exactly that player's entry is removed;
      every other player, bullet and enemy stays as it was. */
  function Disconnect(room: Room, pid: Id): (r: Room)
    ensures r.id == room.id && r.bullets == room.bullets && r.enemies == room.enemies
    ensures pid !in r.players
    ensures r.players.Keys == room.players.Keys - {pid}
    ensures forall k :: k in r.players ==> r.players[k] == room.players[k]
    ensures |r.players| <= |room.players|
  {
    room.(players := room.players - {pid})
  }

  /** The result of admitting one connection: the registry afterwards and the
      room the player was placed in. */
  datatype Admission = Admission(registry: Registry, room: Id)

  /** Admits `p`: the first room in `order` with a free seat, or else a new
      empty room registered under `freshId`, which the player then joins. */
  function Admit(reg: Registry, order: seq<Id>, freshId: Id, p: Player): (a: Admission)
    requires freshId !in reg
    ensures a.room in a.registry && p.base.id in a.registry[a.room].players
    ensures a.room in reg ==> |reg[a.room].players| < RoomCapacity && a.registry == reg[a.room := Join(reg[a.room], p)]
    ensures a.room !in reg ==> a.room == freshId && a.registry == reg[freshId := Join(NewRoom(freshId), p)]
    ensures forall k :: k in reg && k != a.room ==> k in a.registry && a.registry[k] == reg[k]
    ensures forall k :: k in a.registry ==> k in reg || k == freshId
  {
    match SelectRoom(reg, order)
    case Some(rid) => Admission(reg[rid := Join(reg[rid], p)], rid)
    case None => Admission(reg[freshId := Join(NewRoom(freshId), p)], freshId)
  }

  /** A new room is created only when every existing room is full, provided
      the order lists every room. */
  lemma AdmitFreshOnlyWhenFull(reg: Registry, order: seq<Id>, freshId: Id, p: Player)
    requires freshId !in reg
    requires forall k :: k in reg ==> k in order
    ensures Admit(reg, order, freshId, p).room !in reg <==> forall k :: k in reg ==> |reg[k].players| >= RoomCapacity
  {
  }

  /** Admission keeps the registry valid: the chosen room had a free seat or
      is new, so no room exceeds four players. */
  lemma AdmitKeepsRegistryOk(reg: Registry, order: seq<Id>, freshId: Id, p: Player)
    requires RegistryOk(reg) && freshId !in reg && PlayerOk(p)
    ensures RegistryOk(Admit(reg, order, freshId, p).registry)
  {
    var a := Admit(reg, order, freshId, p);
    var room := a.registry[a.room];
    if a.room in reg {
      assert room == Join(reg[a.room], p);
    } else {
      assert room.players == map[p.base.id := p];
    }
    assert room.id == a.room && |room.players| <= RoomCapacity && AllPlayersOk(room.players);
    forall k | k in a.registry
      ensures a.registry[k].id == k && |a.registry[k].players| <= RoomCapacity && AllPlayersOk(a.registry[k].players)
    {
      if k != a.room {
        assert a.registry[k] == reg[k];
      }
    }
  }

  /** Admission evicts nobody: every player already seated in a room is
      still seated there. */
  lemma AdmitKeepsSeated(reg: Registry, order: seq<Id>, freshId: Id, p: Player)
    requires freshId !in reg
    ensures forall k :: k in reg ==> reg[k].players.Keys <= Admit(reg, order, freshId, p).registry[k].players.Keys
  {
    var a := Admit(reg, order, freshId, p);
    forall k | k in reg
      ensures reg[k].players.Keys <= a.registry[k].players.Keys
    {
      if k == a.room {
        assert a.registry[k] == Join(reg[k], p);
      }
    }
  }

  /** One arriving connection: the registry order seen at that moment, the
      identifier a new room would get, and the new player. */
  datatype Arrival = Arrival(order: seq<Id>, freshRoom: Id, player: Player)

  /** The room identifiers the arrivals would create, all distinct and unused
      in `reg`. */
  ghost predicate FreshRooms(reg: Registry, arrivals: seq<Arrival>)
  {
    && (forall i :: 0 <= i < |arrivals| ==> arrivals[i].freshRoom !in reg)
    && (forall i, j :: 0 <= i < j < |arrivals| ==> arrivals[i].freshRoom != arrivals[j].freshRoom)
  }

  /** Admits the arrivals one after another. No room disappears, nobody
      already seated is evicted, and every room of the result existed before
      or was created under one of the arrivals' fresh identifiers. */
  function AdmitAll(reg: Registry, arrivals: seq<Arrival>): (r: Registry)
    requires FreshRooms(reg, arrivals)
    ensures reg.Keys <= r.Keys
    ensures forall k :: k in reg ==> reg[k].players.Keys <= r[k].players.Keys
    ensures forall k :: k in r ==> k in reg || exists i :: 0 <= i < |arrivals| && arrivals[i].freshRoom == k
    decreases |arrivals|
  {
    if |arrivals| == 0 then reg
    else
      var a := arrivals[0];
      var next := Admit(reg, a.order, a.freshRoom, a.player).registry;
      assert FreshRooms(next, arrivals[1..]) by {
        forall i | 0 <= i < |arrivals| - 1
          ensures arrivals[1..][i].freshRoom !in next
        {
          assert arrivals[1..][i] == arrivals[i + 1];
        }
      }
      var rest := AdmitAll(next, arrivals[1..]);
      AdmitKeepsSeated(reg, a.order, a.freshRoom, a.player);
      AdmitAllCompose(reg, next, rest, arrivals);
      rest
  }

  /** Gluing one admission onto the admission of the remaining arrivals:
      rooms and seats survive both steps, and a room of the end result came
      from the start registry or from one of the fresh identifiers. */
  lemma AdmitAllCompose(reg: Registry, next: Registry, rest: Registry, arrivals: seq<Arrival>)
    requires |arrivals| > 0
    requires reg.Keys <= next.Keys && next.Keys <= rest.Keys
    requires forall k :: k in reg ==> reg[k].players.Keys <= next[k].players.Keys
    requires forall k :: k in next ==> next[k].players.Keys <= rest[k].players.Keys
    requires forall k :: k in next ==> k in reg || k == arrivals[0].freshRoom
    requires forall k :: k in rest ==> k in next || exists i :: 0 <= i < |arrivals[1..]| && arrivals[1..][i].freshRoom == k
    ensures forall k :: k in reg ==> reg[k].players.Keys <= rest[k].players.Keys
    ensures forall k :: k in rest ==> k in reg || exists i :: 0 <= i < |arrivals| && arrivals[i].freshRoom == k
  {
    forall k | k in rest && k !in reg
      ensures exists i :: 0 <= i < |arrivals| && arrivals[i].freshRoom == k
    {
      if k in next {
        assert arrivals[0].freshRoom == k;
      } else {
        var i :| 0 <= i < |arrivals[1..]| && arrivals[1..][i].freshRoom == k;
        assert arrivals[i + 1].freshRoom == k;
      }
    }
  }

  /** Sequential admission never overfills a room: whatever orders the
      arrivals see, every room still holds at most four valid players. */
  lemma {:induction false} AdmitAllKeepsRegistryOk(reg: Registry, arrivals: seq<Arrival>)
    requires FreshRooms(reg, arrivals)
    requires RegistryOk(reg)
    requires forall i :: 0 <= i < |arrivals| ==> PlayerOk(arrivals[i].player)
    ensures RegistryOk(AdmitAll(reg, arrivals))
    decreases |arrivals|
  {
    if |arrivals| > 0 {
      var a := arrivals[0];
      var next := Admit(reg, a.order, a.freshRoom, a.player).registry;
      AdmitKeepsRegistryOk(reg, a.order, a.freshRoom, a.player);
      assert FreshRooms(next, arrivals[1..]) by {
        forall i | 0 <= i < |arrivals| - 1
          ensures arrivals[1..][i].freshRoom !in next
        {
          assert arrivals[1..][i] == arrivals[i + 1];
        }
      }
      assert forall i :: 0 <= i < |arrivals[1..]| ==> PlayerOk(arrivals[1..][i].player) by {
        forall i | 0 <= i < |arrivals[1..]|
          ensures PlayerOk(arrivals[1..][i].player)
        {
          assert arrivals[1..][i] == arrivals[i + 1];
        }
      }
      AdmitAllKeepsRegistryOk(next, arrivals[1..]);
    }
  }

  /** Joining and then leaving restores the room, for a player not already
      in it. */
  lemma JoinThenDisconnect(room: Room, p: Player)
    requires p.base.id !in room.players
    ensures Disconnect(Join(room, p), p.base.id) == room
  {
  }

  /** A disconnect in room `rid` keeps the registry valid and leaves every
      other room alone. */
  function Leave(reg: Registry, rid: Id, pid: Id): (r: Registry)
    ensures r.Keys == reg.Keys
    ensures forall k :: k in reg && k != rid ==> r[k] == reg[k]
    ensures rid in reg ==> pid !in r[rid].players
    ensures rid in reg ==> r[rid] == Disconnect(reg[rid], pid)
    ensures rid !in reg ==> r == reg
    ensures RegistryOk(reg) ==> RegistryOk(r)
  {
    if rid in reg then reg[rid := Disconnect(reg[rid], pid)] else reg
  }

  /** The enemy timer of a room: one enemy, built from the random draws,
      joins under a fresh id; nothing else changes. */
  function SpawnEnemy(room: Room, id: Id, xDraw: int, vxDraw: int, vyDraw: int): (r: Room)
    requires id !in room.enemies
    requires 0 <= xDraw < 600 && 0 <= vxDraw < 3 && 0 <= vyDraw < 2
    ensures r.id == room.id && r.players == room.players && r.bullets == room.bullets
    ensures r.enemies.Keys == room.enemies.Keys + {id} && |r.enemies| == |room.enemies| + 1
    ensures forall k :: k in room.enemies ==> r.enemies[k] == room.enemies[k]
    ensures r.enemies[id] == NewEnemy(id, xDraw, vxDraw, vyDraw)
    ensures r.enemies[id].y == 0.0 && 0.0 <= r.enemies[id].x < 600.0
  {
    var es := room.enemies[id := NewEnemy(id, xDraw, vxDraw, vyDraw)];
    assert es.Keys == room.enemies.Keys + {id};
    assert |room.enemies.Keys + {id}| == |room.enemies.Keys| + 1;
    room.(enemies := es)
  }

  /** The enemy the timer spawns survives its first move on the field and,
      unless it hits a player, falls below the bottom edge within 601 moves. */
  lemma SpawnedEnemyLeavesField(room: Room, id: Id, xDraw: int, vxDraw: int, vyDraw: int)
    requires id !in room.enemies
    requires 0 <= xDraw < 600 && 0 <= vxDraw < 3 && 0 <= vyDraw < 2
    ensures AdvanceN(SpawnEnemy(room, id, xDraw, vxDraw, vyDraw).enemies[id], 1).y <= FieldHeight
    ensures AdvanceN(SpawnEnemy(room, id, xDraw, vxDraw, vyDraw).enemies[id], 601).y > FieldHeight
  {
    EnemyLeavesField(id, xDraw, vxDraw, vyDraw);
  }

  /** Files the ticked `room` back under `rid`, or retires `rid` when the
      room has no players left. */
  function Settle(reg: Registry, rid: Id, room: Room): (r: Registry)
    requires rid in reg
    requires room.id == reg[rid].id && room.players.Keys == reg[rid].players.Keys
    requires AllPlayersOk(reg[rid].players) ==> AllPlayersOk(room.players)
    ensures rid in r <==> |reg[rid].players| > 0
    ensures rid in r ==> r[rid] == room
    ensures forall k :: k in reg && k != rid ==> k in r && r[k] == reg[k]
    ensures r.Keys <= reg.Keys
    ensures RegistryOk(reg) ==> RegistryOk(r)
  {
    assert |room.players| == |reg[rid].players|;
    var r := if |room.players| == 0 then reg - {rid} else reg[rid := room];
    assert RegistryOk(reg) ==> RegistryOk(r) by {
      if RegistryOk(reg) {
        forall k | k in r
          ensures r[k].id == k && |r[k].players| <= RoomCapacity && AllPlayersOk(r[k].players)
        {
          if k != rid {
            assert r[k] == reg[k];
          }
        }
      }
    }
    r
  }

  /** The frame timer of room `rid`: one tick, then the room is retired
      exactly when it has no players. Other rooms are untouched, and a valid
      registry stays valid. */
  function LoopTick(reg: Registry, rid: Id, ord: Orders): (r: Registry)
    requires rid in reg
    ensures rid in r <==> |reg[rid].players| > 0
    ensures rid in r ==> r[rid] == UpdateGame(reg[rid], ord)
    ensures forall k :: k in reg && k != rid ==> k in r && r[k] == reg[k]
    ensures r.Keys <= reg.Keys
    ensures RegistryOk(reg) ==> RegistryOk(r)
  {
    Settle(reg, rid, UpdateGame(reg[rid], ord))
  }
}
