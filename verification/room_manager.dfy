/** The room registry `RoomManager` (src/roomManager.js) as pure state
    transformers: every mutating operation takes a registry and returns the
    new registry together with the source's boolean result. */
module RoomManager {
  import opened Wrappers
  import opened Sequences
  import opened OrderedMaps
  import opened Rooms

  /** `this.rooms`: a JavaScript Map from room id to room record. */
  type Registry = OrderedMap<RoomId, Room>

  /** One entry of the room listing; the creation time is not modelled. */
  datatype RoomSummary = RoomSummary(id: RoomId, playerCount: nat)

  /** The full-state projection sent to every member of a room. */
  datatype GameState = GameState(players: seq<PlayerId>, resources: map<PlayerId, Vector>)

  /** The projection one viewer gets: the opponent's vector, never its own. */
  datatype PlayerView = PlayerView(players: seq<PlayerId>, opponentResources: Vector, roomId: RoomId)

  /** Every room is filed under its own id and is well formed. */
  predicate Valid(reg: Registry) {
    forall k :: k in reg.entries ==> reg.entries[k].id == k && reg.entries[k].WellFormed()
  }

  /** No room holds more than two players. The registry does not enforce
      this itself; the join handler's fullness guard (server.js:60) does. */
  predicate WithinCapacity(reg: Registry) {
    forall k :: k in reg.entries ==> |reg.entries[k].players| <= Capacity
  }

  /** `reg'` differs from `reg` at most in the record stored under `k`. */
  predicate OnlyRoomChanged(reg: Registry, reg': Registry, k: RoomId) {
    && reg'.order == reg.order
    && reg'.entries.Keys == reg.entries.Keys
    && forall j :: j in reg.entries && j != k ==> reg'.entries[j] == reg.entries[j]
  }

  /** `new RoomManager()`. */
  function NewRegistry(): (reg: Registry)
    ensures reg.entries == map[]
    ensures Valid(reg)
  {
    EmptyMap()
  }

  /** `createRoom(roomId)`: stores a fresh empty room under `roomId`,
      replacing whatever room had that id, and returns it. */
  function CreateRoom(reg: Registry, roomId: RoomId): (r: (Registry, Room))
    ensures roomId in r.0.entries && r.0.entries[roomId] == r.1
    ensures r.1.id == roomId && r.1.players == [] && !r.1.gameStarted && r.1.resources == map[]
    ensures r.0.entries.Keys == reg.entries.Keys + {roomId}
    ensures forall k :: k in reg.entries && k != roomId ==> r.0.entries[k] == reg.entries[k]
    ensures roomId in reg.entries ==> r.0.order == reg.order
    ensures roomId !in reg.entries ==> r.0.order == reg.order + [roomId]
  {
    var room := NewRoom(roomId);
    (Set(reg, roomId, room), room)
  }

  /** `getRoom(roomId)`. */
  function GetRoom(reg: Registry, roomId: RoomId): (r: Option<Room>)
    ensures r.Some? <==> roomId in reg.entries
    ensures r.Some? ==> r.value == reg.entries[roomId]
  {
    Get(reg, roomId)
  }

  function Summary(room: Room): RoomSummary {
    RoomSummary(room.id, |room.players|)
  }

  /** `getAllRooms()`: one summary per room, in the Map's insertion order. */
  function GetAllRooms(reg: Registry): (r: seq<RoomSummary>)
    ensures |r| == |reg.order|
    ensures forall i :: 0 <= i < |r| ==>
      r[i].id == reg.entries[reg.order[i]].id && r[i].playerCount == |reg.entries[reg.order[i]].players|
  {
    var rooms := Values(reg);
    seq(|rooms|, i requires 0 <= i < |rooms| => Summary(rooms[i]))
  }

  /** `addPlayerToRoom(roomId, playerId)`: false for a missing room; true
      and no change for a current member; otherwise the player joins. The
      registry does not check capacity here. */
  function AddPlayerToRoom(reg: Registry, roomId: RoomId, p: PlayerId): (r: (Registry, bool))
    ensures r.1 <==> roomId in reg.entries
    ensures !r.1 ==> r.0 == reg
    ensures r.1 && p in reg.entries[roomId].players ==> r.0 == reg
    ensures r.1 && p !in reg.entries[roomId].players ==>
      && OnlyRoomChanged(reg, r.0, roomId)
      && r.0.entries[roomId] == reg.entries[roomId].Join(p)
  {
    match Get(reg, roomId)
    case None => (reg, false)
    case Some(room) =>
      if p in room.players then (reg, true)
      else (Set(reg, roomId, room.Join(p)), true)
  }

  /** `removePlayerFromRoom(roomId, playerId)`: false for a missing room;
      otherwise the player (member or not) is filtered out, and the room is
      deleted when no player is left, even if it was empty already. */
  function RemovePlayerFromRoom(reg: Registry, roomId: RoomId, p: PlayerId): (r: (Registry, bool))
    ensures r.1 <==> roomId in reg.entries
    ensures !r.1 ==> r.0 == reg
    ensures r.1 ==> (roomId in r.0.entries <==> reg.entries[roomId].Leave(p).players != [])
    ensures r.1 && roomId in r.0.entries ==>
      && OnlyRoomChanged(reg, r.0, roomId)
      && r.0.entries[roomId] == reg.entries[roomId].Leave(p)
    ensures r.1 && roomId !in r.0.entries ==>
      && r.0.entries == reg.entries - {roomId}
      && r.0.order == Without(reg.order, roomId)
  {
    match Get(reg, roomId)
    case None => (reg, false)
    case Some(room) =>
      var left := room.Leave(p);
      if left.players == [] then
        WithoutIsRestrict(reg.order, reg.entries.Keys, roomId);
        (Delete(reg, roomId), true)
      else (Set(reg, roomId, left), true)
  }

  /** One iteration of `removePlayerFromAllRooms`: room `k` loses `p` if
      it holds it (src/roomManager.js:75-77); nothing else changes. */
  function RemoveIfMember(reg: Registry, k: RoomId, p: PlayerId): (next: Registry)
    ensures next.entries.Keys <= reg.entries.Keys
    ensures next.order == Restrict(reg.order, next.entries.Keys)
    ensures k in next.entries ==> p !in next.entries[k].players
    ensures forall j :: j in reg.entries && j != k ==> j in next.entries && next.entries[j] == reg.entries[j]
    ensures k in reg.entries && p !in reg.entries[k].players ==> next == reg
    ensures k in reg.entries && p in reg.entries[k].players ==>
      && (k in next.entries <==> reg.entries[k].Leave(p).players != [])
      && (k in next.entries ==> next.entries[k] == reg.entries[k].Leave(p))
  {
    RestrictAll(reg.order, reg.entries.Keys);
    if k in reg.entries && p in reg.entries[k].players then
      var next := RemovePlayerFromRoom(reg, k, p).0;
      WithoutIsRestrict(reg.order, reg.entries.Keys, k);
      next
    else reg
  }

  /** The loop of `removePlayerFromAllRooms`, over a snapshot `keys` of the
      Map's key order. Deleting the room being visited does not disturb a
      JavaScript Map iteration, so walking the snapshot visits the same
      rooms. */
  function RemoveFromEach(reg: Registry, keys: seq<RoomId>, p: PlayerId): (r: Registry)
    ensures r.entries.Keys <= reg.entries.Keys
    ensures r.order == Restrict(reg.order, r.entries.Keys)
    ensures forall k :: k in keys && k in r.entries ==> p !in r.entries[k].players
    ensures forall k :: k in reg.entries && (k !in keys || p !in reg.entries[k].players) ==>
      k in r.entries && r.entries[k] == reg.entries[k]
    ensures forall k :: k in reg.entries && k in keys && p in reg.entries[k].players ==>
      && (k in r.entries <==> reg.entries[k].Leave(p).players != [])
      && (k in r.entries ==> r.entries[k] == reg.entries[k].Leave(p))
    decreases |keys|
  {
    if |keys| == 0 then
      RestrictAll(reg.order, reg.entries.Keys);
      reg
    else
      var next := RemoveIfMember(reg, keys[0], p);
      var r := RemoveFromEach(next, keys[1..], p);
      RestrictRestrict(reg.order, next.entries.Keys, r.entries.Keys);
      assert forall k :: k in keys <==> k == keys[0] || k in keys[1..];
      r
  }

  /** `removePlayerFromAllRooms(playerId)`: afterwards no room holds the
      player; rooms that did not hold it are untouched (an empty room among
      them survives); a room that held it loses it and is deleted if that
      leaves it empty; surviving rooms keep their listing order. */
  function RemovePlayerFromAllRooms(reg: Registry, p: PlayerId): (r: Registry)
    ensures forall k :: k in r.entries ==> p !in r.entries[k].players
    ensures forall k :: k in reg.entries && p !in reg.entries[k].players ==>
      k in r.entries && r.entries[k] == reg.entries[k]
    ensures forall k :: k in reg.entries && p in reg.entries[k].players ==>
      && (k in r.entries <==> reg.entries[k].Leave(p).players != [])
      && (k in r.entries ==> r.entries[k] == reg.entries[k].Leave(p))
    ensures r.entries.Keys <= reg.entries.Keys
    ensures r.order == Restrict(reg.order, r.entries.Keys)
  {
    RemoveFromEach(reg, reg.order, p)
  }

  /** `updatePlayerResources(roomId, playerId, resources)`: all or nothing.
      It succeeds exactly when the room exists, the player is a member and
      the vector is valid, and then only that player's vector changes. */
  function UpdatePlayerResources(reg: Registry, roomId: RoomId, p: PlayerId, v: Vector): (r: (Registry, bool))
    ensures r.1 <==> roomId in reg.entries && p in reg.entries[roomId].players && ValidVector(v)
    ensures !r.1 ==> r.0 == reg
    ensures r.1 ==>
      && OnlyRoomChanged(reg, r.0, roomId)
      && r.0.entries[roomId] == reg.entries[roomId].WithVector(p, v)
  {
    match Get(reg, roomId)
    case None => (reg, false)
    case Some(room) =>
      if p !in room.players || !ValidVector(v) then (reg, false)
      else (Set(reg, roomId, room.WithVector(p, v)), true)
  }

  /** `getPlayerResources(roomId, playerId)`. */
  function GetPlayerResources(reg: Registry, roomId: RoomId, p: PlayerId): (r: Option<Vector>)
    ensures r.Some? <==> roomId in reg.entries && p in reg.entries[roomId].resources
    ensures r.Some? ==> r.value == reg.entries[roomId].resources[p]
  {
    match Get(reg, roomId)
    case None => None
    case Some(room) => if p in room.resources then Some(room.resources[p]) else None
  }

  /** `getRoomGameState(roomId)`: players and every vector, as values. */
  function GetRoomGameState(reg: Registry, roomId: RoomId): (r: Option<GameState>)
    ensures r.Some? <==> roomId in reg.entries
    ensures r.Some? ==>
      r.value.players == reg.entries[roomId].players && r.value.resources == reg.entries[roomId].resources
  {
    match Get(reg, roomId)
    case None => None
    case Some(room) => Some(GameState(room.players, room.resources))
  }

  /** The vector a viewer sees: that of the first player in join order who
      is not the viewer, or five zeros when there is none. An empty-string
      id is falsy in JavaScript, so such an opponent also yields zeros. */
  function OpponentResources(room: Room, viewer: PlayerId): (v: Vector)
    ensures v == ZeroVector || exists q :: q in room.resources && q != viewer && v == room.resources[q]
    ensures (forall i :: 0 <= i < |room.players| ==> room.players[i] == viewer) ==> v == ZeroVector
    ensures forall i ::
              && 0 <= i < |room.players|
              && room.players[i] != viewer
              && (forall j :: 0 <= j < i ==> room.players[j] == viewer)
              && room.players[i] != ""
              && room.players[i] in room.resources
              ==> v == room.resources[room.players[i]]
    ensures forall i ::
              && 0 <= i < |room.players|
              && room.players[i] != viewer
              && (forall j :: 0 <= j < i ==> room.players[j] == viewer)
              && (room.players[i] == "" || room.players[i] !in room.resources)
              ==> v == ZeroVector
    ensures room.WellFormed() ==> ValidVector(v)
  {
    var i := IndexOfFirstOther(room.players, viewer);
    if i < |room.players| && room.players[i] != "" && room.players[i] in room.resources
    then room.resources[room.players[i]]
    else ZeroVector
  }

  /** `getGameStateForPlayer(roomId, playerId)`: absent unless the room
      exists and the viewer is a member. */
  function GetGameStateForPlayer(reg: Registry, roomId: RoomId, p: PlayerId): (r: Option<PlayerView>)
    ensures r.Some? <==> roomId in reg.entries && p in reg.entries[roomId].players
    ensures r.Some? ==>
      && r.value.players == reg.entries[roomId].players
      && r.value.roomId == reg.entries[roomId].id
      && r.value.opponentResources == OpponentResources(reg.entries[roomId], p)
  {
    match Get(reg, roomId)
    case None => None
    case Some(room) =>
      if p !in room.players then None
      else Some(PlayerView(room.players, OpponentResources(room, p), room.id))
  }

  /** `isRoomFull(roomId)`: the room exists and seats two or more. */
  function IsRoomFull(reg: Registry, roomId: RoomId): (r: bool)
    ensures r <==> roomId in reg.entries && |reg.entries[roomId].players| >= Capacity
  {
    match Get(reg, roomId)
    case None => false
    case Some(room) => |room.players| >= Capacity
  }
}
