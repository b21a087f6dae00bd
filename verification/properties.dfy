/** Properties relating the registry's operations to each other and to its
    read projections: round trips, idempotence, deletion on empty, and what
    each viewer is shown. */
module RoomProperties {
  import opened Wrappers
  import opened Sequences
  import opened OrderedMaps
  import opened Rooms
  import opened RoomManager

  /** A created room reads back empty and unstarted, and is not full. */
  lemma CreateThenGet(reg: Registry, roomId: RoomId)
    ensures GetRoom(CreateRoom(reg, roomId).0, roomId) == Some(Room(roomId, [], false, map[]))
    ensures !IsRoomFull(CreateRoom(reg, roomId).0, roomId)
    ensures forall p :: GetGameStateForPlayer(CreateRoom(reg, roomId).0, roomId, p).None?
  {
  }

  /** Joining twice is joining once. */
  lemma AddIdempotent(reg: Registry, roomId: RoomId, p: PlayerId)
    ensures AddPlayerToRoom(AddPlayerToRoom(reg, roomId, p).0, roomId, p) == AddPlayerToRoom(reg, roomId, p)
  {
  }

  /** A joining player's vector reads back as five zeros, and the player is
      last in join order. */
  lemma AddThenGetResources(reg: Registry, roomId: RoomId, p: PlayerId)
    requires roomId in reg.entries && p !in reg.entries[roomId].players
    ensures GetPlayerResources(AddPlayerToRoom(reg, roomId, p).0, roomId, p) == Some(ZeroVector)
    ensures GetRoom(AddPlayerToRoom(reg, roomId, p).0, roomId).value.players == reg.entries[roomId].players + [p]
  {
  }

  /** At room level, joining then leaving gives back the players and the
      vectors; only the started flag may have been set on the way. */
  lemma {:induction false} JoinThenLeave(room: Room, p: PlayerId)
    requires room.WellFormed()
    requires p !in room.players
    ensures room.Join(p).Leave(p) == room.(gameStarted := room.Join(p).gameStarted)
  {
    var joined := room.Join(p);
    var n := |room.players|;
    assert joined.players[n] == p;
    JoinKeepsWellFormed(room, p);
    WithoutDeletesAt(joined.players, n);
    assert joined.players[..n] == room.players;
    assert joined.Leave(p).resources == room.resources;
  }

  /** Joining then leaving a non-empty room restores it, except that the
      room stays started if the join made it full. */
  lemma AddThenRemove(reg: Registry, roomId: RoomId, p: PlayerId)
    requires Valid(reg)
    requires roomId in reg.entries
    requires p !in reg.entries[roomId].players
    requires reg.entries[roomId].players != []
    ensures
      var room := reg.entries[roomId];
      RemovePlayerFromRoom(AddPlayerToRoom(reg, roomId, p).0, roomId, p)
        == (Set(reg, roomId, room.(gameStarted := room.gameStarted || |room.players| + 1 == Capacity)), true)
  {
    var room := reg.entries[roomId];
    JoinThenLeave(room, p);
    var added := AddPlayerToRoom(reg, roomId, p).0;
    var left := room.Join(p).Leave(p);
    assert left.players != [];
    assert RemovePlayerFromRoom(added, roomId, p).0.entries == added.entries[roomId := left];
    assert added.entries[roomId := left] == reg.entries[roomId := left];
  }

  /** Joining an empty room and leaving it deletes the room. */
  lemma AddToEmptyThenRemoveDeletes(reg: Registry, roomId: RoomId, p: PlayerId)
    requires roomId in reg.entries && reg.entries[roomId].players == []
    ensures GetRoom(RemovePlayerFromRoom(AddPlayerToRoom(reg, roomId, p).0, roomId, p).0, roomId) == None
  {
    var joined := reg.entries[roomId].Join(p);
    assert joined.players == [p];
  }

  /** Leaving keeps the other players in their join order. */
  lemma RemoveKeepsOrder(reg: Registry, roomId: RoomId, i: nat)
    requires Valid(reg)
    requires roomId in reg.entries
    requires i < |reg.entries[roomId].players|
    requires |reg.entries[roomId].players| > 1
    ensures
      var players := reg.entries[roomId].players;
      var r := RemovePlayerFromRoom(reg, roomId, players[i]).0;
      roomId in r.entries && r.entries[roomId].players == players[..i] + players[i + 1..]
  {
    var players := reg.entries[roomId].players;
    WithoutDeletesAt(players, i);
  }

  /** Removing a non-member from a non-empty room reports success and
      changes nothing. */
  lemma RemoveNonMemberIsNoOp(reg: Registry, roomId: RoomId, p: PlayerId)
    requires Valid(reg)
    requires roomId in reg.entries
    requires reg.entries[roomId].players != []
    requires p !in reg.entries[roomId].players
    ensures RemovePlayerFromRoom(reg, roomId, p) == (reg, true)
  {
    var room := reg.entries[roomId];
    assert room.Leave(p) == room;
    assert reg.entries[roomId := room] == reg.entries;
  }

  /** The emptiness check runs after the filter, so removing anyone, member
      or not, from an empty room deletes it. */
  lemma RemoveFromEmptyRoomDeletes(reg: Registry, roomId: RoomId, p: PlayerId)
    requires roomId in reg.entries && reg.entries[roomId].players == []
    ensures RemovePlayerFromRoom(reg, roomId, p).1
    ensures GetRoom(RemovePlayerFromRoom(reg, roomId, p).0, roomId) == None
  {
  }

  /** When the last player leaves, the room is gone. */
  lemma LastLeaveDeletes(reg: Registry, roomId: RoomId, p: PlayerId)
    requires roomId in reg.entries && reg.entries[roomId].players == [p]
    ensures GetRoom(RemovePlayerFromRoom(reg, roomId, p).0, roomId) == None
    ensures GetRoom(RemovePlayerFromAllRooms(reg, p), roomId) == None
  {
  }

  /** A successful update reads back exactly; a rejected one leaves the
      stored vector as it was. */
  lemma UpdateThenGet(reg: Registry, roomId: RoomId, p: PlayerId, v: Vector)
    ensures UpdatePlayerResources(reg, roomId, p, v).1 ==>
      GetPlayerResources(UpdatePlayerResources(reg, roomId, p, v).0, roomId, p) == Some(v)
    ensures !UpdatePlayerResources(reg, roomId, p, v).1 ==>
      GetPlayerResources(UpdatePlayerResources(reg, roomId, p, v).0, roomId, p) == GetPlayerResources(reg, roomId, p)
  {
  }

  /** In a valid registry a player's vector is present exactly for members,
      and always valid. */
  lemma ResourcesExactlyForMembers(reg: Registry, roomId: RoomId, p: PlayerId)
    requires Valid(reg)
    ensures GetPlayerResources(reg, roomId, p).Some? <==> roomId in reg.entries && p in reg.entries[roomId].players
    ensures GetPlayerResources(reg, roomId, p).Some? ==> ValidVector(GetPlayerResources(reg, roomId, p).value)
  {
  }

  /** The full-state projection carries one vector per player, no more. */
  lemma GameStateCoversPlayers(reg: Registry, roomId: RoomId)
    requires Valid(reg)
    requires roomId in reg.entries
    ensures GetRoomGameState(reg, roomId).Some?
    ensures forall q :: q in GetRoomGameState(reg, roomId).value.resources <==> q in GetRoomGameState(reg, roomId).value.players
  {
  }

  /** In a two-player room each viewer sees the other's vector. */
  lemma ViewShowsOpponent(reg: Registry, roomId: RoomId, p: PlayerId, q: PlayerId)
    requires Valid(reg) && WithinCapacity(reg)
    requires roomId in reg.entries
    requires p in reg.entries[roomId].players && q in reg.entries[roomId].players
    requires p != q && q != ""
    ensures GetGameStateForPlayer(reg, roomId, p).Some?
    ensures GetGameStateForPlayer(reg, roomId, p).value.opponentResources == reg.entries[roomId].resources[q]
  {
    var players := reg.entries[roomId].players;
    var i :| 0 <= i < |players| && players[i] == p;
    var j :| 0 <= j < |players| && players[j] == q;
    assert i != j;
    FirstOtherOfPair(players, p);
  }

  /** A viewer alone in the room sees five zeros. */
  lemma ViewAloneIsZeros(reg: Registry, roomId: RoomId, p: PlayerId)
    requires roomId in reg.entries && reg.entries[roomId].players == [p]
    ensures GetGameStateForPlayer(reg, roomId, p) == Some(PlayerView([p], ZeroVector, reg.entries[roomId].id))
  {
  }

  /** An opponent whose id is the empty string is falsy in JavaScript, so
      the viewer is shown five zeros even though that opponent has a
      vector. */
  lemma ViewEmptyIdOpponentIsZeros(reg: Registry, roomId: RoomId, p: PlayerId)
    requires roomId in reg.entries && |reg.entries[roomId].players| == 2
    requires p in reg.entries[roomId].players && "" in reg.entries[roomId].players
    requires p != ""
    ensures GetGameStateForPlayer(reg, roomId, p).Some?
    ensures GetGameStateForPlayer(reg, roomId, p).value.opponentResources == ZeroVector
  {
    var ps := reg.entries[roomId].players;
    if ps[0] == p {
      assert ps[1] == "";
    } else {
      assert ps[0] != p;
    }
  }

  /** A viewer's own vector never shows in its view: changing it leaves the
      view unchanged. */
  lemma ViewIgnoresOwnVector(reg: Registry, roomId: RoomId, p: PlayerId, v: Vector)
    ensures GetGameStateForPlayer(UpdatePlayerResources(reg, roomId, p, v).0, roomId, p) == GetGameStateForPlayer(reg, roomId, p)
  {
    if UpdatePlayerResources(reg, roomId, p, v).1 {
      var room := reg.entries[roomId];
      var i := IndexOfFirstOther(room.players, p);
      assert i < |room.players| ==> room.players[i] != p;
    }
  }

  /** A successful update is what the other member of a two-player room
      sees next. */
  lemma UpdateSeenByOpponent(reg: Registry, roomId: RoomId, p: PlayerId, q: PlayerId, v: Vector)
    requires Valid(reg) && WithinCapacity(reg)
    requires roomId in reg.entries
    requires p in reg.entries[roomId].players && q in reg.entries[roomId].players
    requires p != q && p != ""
    requires ValidVector(v)
    ensures UpdatePlayerResources(reg, roomId, p, v).1
    ensures GetGameStateForPlayer(UpdatePlayerResources(reg, roomId, p, v).0, roomId, q).value.opponentResources == v
  {
    var r := UpdatePlayerResources(reg, roomId, p, v).0;
    WithVectorKeepsWellFormed(reg.entries[roomId], p, v);
    ViewShowsOpponent(r, roomId, q, p);
  }

  /** The listing names every room once and nothing else. */
  lemma ListingCoversRooms(reg: Registry)
    requires Valid(reg)
    ensures forall i, j :: 0 <= i < j < |GetAllRooms(reg)| ==> GetAllRooms(reg)[i].id != GetAllRooms(reg)[j].id
    ensures forall i :: 0 <= i < |GetAllRooms(reg)| ==> GetAllRooms(reg)[i].id in reg.entries
    ensures forall k :: k in reg.entries ==> exists i :: 0 <= i < |GetAllRooms(reg)| && GetAllRooms(reg)[i].id == k
  {
    var rooms := GetAllRooms(reg);
    forall k | k in reg.entries
      ensures exists i :: 0 <= i < |rooms| && rooms[i].id == k
    {
      var i :| 0 <= i < |reg.order| && reg.order[i] == k;
      assert rooms[i].id == k;
    }
  }
}
