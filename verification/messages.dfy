/** Inbound messages from a connected player, after JSON decoding: `move`
    overwrites the commanded velocity field by field, `shoot` fires a bullet,
    any other type is ignored. */
module Messages {
  import opened Wrappers
  import opened Entities

  /** A decoded JSON value, as Go's `interface{}` holds it: numbers are
      float64, objects are string-keyed maps. */
  datatype Json =
    | JNull
    | JBool(b: bool)
    | JNumber(n: real)
    | JString(s: string)
    | JArray(items: seq<Json>)
    | JObject(fields: map<string, Json>)

  /** The `{type, data}` envelope. */
  datatype Message = Message(kind: string, data: Json)

  /** The number held by field `name` of an object payload; `None` when the
      payload is not an object, the field is missing, or it is not a
      number. */
  function NumberField(data: Json, name: string): Option<real>
  {
    if data.JObject? && name in data.fields && data.fields[name].JNumber? then Some(data.fields[name].n) else None
  }

  /** A `move` payload: each velocity component is replaced by the number in
      `vx` / `vy` when that field is present as a number, and kept otherwise.
      Nothing but the velocity changes; no bound is put on the new value. */
  function ApplyMove(p: Player, data: Json): (q: Player)
    ensures q == p.(base := q.base)
    ensures q.base == p.base.(vx := q.base.vx, vy := q.base.vy)
    ensures q.base.vx == (if data.JObject? && "vx" in data.fields && data.fields["vx"].JNumber? then data.fields["vx"].n else p.base.vx)
    ensures q.base.vy == (if data.JObject? && "vy" in data.fields && data.fields["vy"].JNumber? then data.fields["vy"].n else p.base.vy)
  {
    var vx := match NumberField(data, "vx") case Some(v) => v case None => p.base.vx;
    var vy := match NumberField(data, "vy") case Some(v) => v case None => p.base.vy;
    p.(base := p.base.(vx := vx, vy := vy))
  }

  /** Applying the same `move` payload twice is the same as once. */
  lemma ApplyMoveIdempotent(p: Player, data: Json)
    ensures ApplyMove(ApplyMove(p, data), data) == ApplyMove(p, data)
  {
  }

  /** A payload carrying both components sets the velocity outright: the
      earlier velocity no longer matters. */
  lemma ApplyMoveFullOverwrite(p: Player, p': Player, data: Json)
    requires NumberField(data, "vx").Some? && NumberField(data, "vy").Some?
    requires p' == p.(base := p.base.(vx := p'.base.vx, vy := p'.base.vy))
    ensures ApplyMove(p, data) == ApplyMove(p', data)
  {
  }

  /** A `move` message from player `pid`: only that player's velocity
      changes, as `ApplyMove` says. */
  function Steer(room: Room, pid: Id, data: Json): (r: Room)
    requires pid in room.players
    ensures r.id == room.id && r.bullets == room.bullets && r.enemies == room.enemies
    ensures r.players.Keys == room.players.Keys
    ensures r.players[pid] == ApplyMove(room.players[pid], data)
    ensures forall k :: k in room.players && k != pid ==> r.players[k] == room.players[k]
    ensures AllPlayersOk(room.players) ==> AllPlayersOk(r.players)
  {
    room.(players := room.players[pid := ApplyMove(room.players[pid], data)])
  }

  /** A `shoot` message from player `pid`: exactly one bullet, centred on
      the shooter, joins under the fresh `bulletId`; nothing else changes. */
  function Shoot(room: Room, pid: Id, bulletId: Id): (r: Room)
    requires pid in room.players
    requires bulletId !in room.bullets
    ensures r.id == room.id && r.players == room.players && r.enemies == room.enemies
    ensures r.bullets.Keys == room.bullets.Keys + {bulletId} && |r.bullets| == |room.bullets| + 1
    ensures forall k :: k in room.bullets ==> r.bullets[k] == room.bullets[k]
    ensures r.bullets[bulletId] == NewBullet(bulletId, room.players[pid].base)
  {
    room.(bullets := room.bullets[bulletId := NewBullet(bulletId, room.players[pid].base)])
  }

  /** Handles one message from player `pid` of `room`. A bullet is filed
      under `bulletId`, a fresh identifier. */
  function HandleMessage(room: Room, pid: Id, msg: Message, bulletId: Id): (r: Room)
    requires pid in room.players
    requires bulletId !in room.bullets
    ensures r.id == room.id && r.enemies == room.enemies
    ensures r.players.Keys == room.players.Keys
    ensures forall k :: k in room.players && k != pid ==> r.players[k] == room.players[k]
    ensures msg.kind == "move" ==> r.bullets == room.bullets && r.players[pid] == ApplyMove(room.players[pid], msg.data)
    ensures msg.kind == "shoot" ==> r.players == room.players
    ensures msg.kind == "shoot" ==> r.bullets.Keys == room.bullets.Keys + {bulletId} && |r.bullets| == |room.bullets| + 1
    ensures msg.kind == "shoot" ==> r.bullets[bulletId] == NewBullet(bulletId, room.players[pid].base)
    ensures msg.kind != "move" && msg.kind != "shoot" ==> r == room
    ensures AllPlayersOk(room.players) ==> AllPlayersOk(r.players)
  {
    if msg.kind == "move" then Steer(room, pid, msg.data)
    else if msg.kind == "shoot" then Shoot(room, pid, bulletId)
    else room
  }
}
