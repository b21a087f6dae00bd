/** The two guards the socket handlers put in front of the registry
    (server.js): the fullness check before a join and the started check
    before a resource update. Emits, broadcasts and logging are not
    modelled; each handler returns the new registry and which branch it
    took. */
module Gateway {
  import opened Rooms
  import opened RoomManager
  import opened RegistryInvariants

  datatype JoinOutcome = RoomNotFound | RoomIsFull | Joined

  /** The `join-room` handler (server.js:52-66). */
  function JoinRoom(reg: Registry, roomId: RoomId, p: PlayerId): (r: (Registry, JoinOutcome))
    ensures r.1 == RoomNotFound <==> roomId !in reg.entries
    ensures r.1 == RoomIsFull <==> IsRoomFull(reg, roomId)
    ensures r.1 != Joined ==> r.0 == reg
    ensures r.1 == Joined ==> AddPlayerToRoom(reg, roomId, p) == (r.0, true)
  {
    match GetRoom(reg, roomId)
    case None => (reg, RoomNotFound)
    case Some(room) =>
      if |room.players| >= Capacity then (reg, RoomIsFull)
      else (AddPlayerToRoom(reg, roomId, p).0, Joined)
  }

  datatype UpdateOutcome = UpdateRoomNotFound | NotStarted | Rejected | Updated

  /** The `update-resources` handler (server.js:100-120). */
  function UpdateResources(reg: Registry, roomId: RoomId, p: PlayerId, v: Vector): (r: (Registry, UpdateOutcome))
    ensures r.1 == UpdateRoomNotFound <==> roomId !in reg.entries
    ensures r.1 == NotStarted <==> roomId in reg.entries && !reg.entries[roomId].gameStarted
    ensures r.1 == Updated <==>
      roomId in reg.entries && reg.entries[roomId].gameStarted
      && p in reg.entries[roomId].players && ValidVector(v)
    ensures r.1 != Updated ==> r.0 == reg
    ensures r.1 == Updated ==> UpdatePlayerResources(reg, roomId, p, v) == (r.0, true)
  {
    match GetRoom(reg, roomId)
    case None => (reg, UpdateRoomNotFound)
    case Some(room) =>
      if !room.gameStarted then (reg, NotStarted)
      else
        var (next, ok) := UpdatePlayerResources(reg, roomId, p, v);
        if ok then (next, Updated) else (reg, Rejected)
  }

  /** What reaches the registry from outside: a room created under a
      caller-chosen id (the random id generator is not modelled), the two
      guarded handlers, and a disconnect. */
  datatype Event =
    | Create(roomId: RoomId)
    | Join(roomId: RoomId, player: PlayerId)
    | Update(roomId: RoomId, player: PlayerId, vector: Vector)
    | Disconnect(player: PlayerId)

  function Step(reg: Registry, e: Event): Registry {
    match e
    case Create(roomId) => CreateRoom(reg, roomId).0
    case Join(roomId, p) => JoinRoom(reg, roomId, p).0
    case Update(roomId, p, v) => UpdateResources(reg, roomId, p, v).0
    case Disconnect(p) => RemovePlayerFromAllRooms(reg, p)
  }

  function Run(reg: Registry, events: seq<Event>): Registry
    decreases |events|
  {
    if |events| == 0 then reg else Run(Step(reg, events[0]), events[1..])
  }

  /** One event keeps every invariant, the two-player cap included; a
      started room stays started unless a room is created over it. */
  lemma StepKeepsInvariants(reg: Registry, e: Event)
    requires Valid(reg) && WithinCapacity(reg)
    ensures Valid(Step(reg, e)) && WithinCapacity(Step(reg, e))
    ensures !e.Create? ==> KeepsStarted(reg, Step(reg, e))
  {
    match e
    case Create(roomId) => CreateKeepsInvariants(reg, roomId);
    case Join(roomId, p) =>
      if JoinRoom(reg, roomId, p).1 == Joined {
        AddKeepsInvariants(reg, roomId, p);
        AddKeepsCapacity(reg, roomId, p);
      }
    case Update(roomId, p, v) => UpdateKeepsInvariants(reg, roomId, p, v);
    case Disconnect(p) => RemoveAllKeepsInvariants(reg, p);
  }

  /** For every sequence of events: players are unique, vectors match the
      players exactly and are valid, and no room ever seats more than two. */
  lemma {:induction false} RunKeepsInvariants(reg: Registry, events: seq<Event>)
    requires Valid(reg) && WithinCapacity(reg)
    ensures Valid(Run(reg, events)) && WithinCapacity(Run(reg, events))
    decreases |events|
  {
    if |events| > 0 {
      StepKeepsInvariants(reg, events[0]);
      RunKeepsInvariants(Step(reg, events[0]), events[1..]);
    }
  }

  /** From a fresh registry, every reachable state keeps the invariants. */
  lemma ReachableStatesAreValid(events: seq<Event>)
    ensures Valid(Run(NewRegistry(), events)) && WithinCapacity(Run(NewRegistry(), events))
  {
    RunKeepsInvariants(NewRegistry(), events);
  }

  /** A join to a full room is turned away and nothing changes. */
  lemma JoinFullRoomRejected(reg: Registry, roomId: RoomId, p: PlayerId)
    requires IsRoomFull(reg, roomId)
    ensures JoinRoom(reg, roomId, p) == (reg, RoomIsFull)
  {
  }

  /** Nothing stops one connection from joining two rooms: the handlers do
      not keep a player to a single room. */
  lemma PlayerCanJoinTwoRooms(reg: Registry, a: RoomId, b: RoomId, p: PlayerId)
    requires a != b
    requires a in reg.entries && |reg.entries[a].players| < Capacity
    requires b in reg.entries && |reg.entries[b].players| < Capacity
    ensures
      var r := Step(Step(reg, Join(a, p)), Join(b, p));
      && a in r.entries && p in r.entries[a].players
      && b in r.entries && p in r.entries[b].players
  {
  }
}
