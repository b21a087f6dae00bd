/** The registry's invariants and the operations that keep them: unique
    players, one resource vector per player, a started room stays started,
    and (given the join handler's guard) at most two players per room. */
module RegistryInvariants {
  import opened Rooms
  import opened RoomManager

  /** Every room present in both registries that had started is still
      started in `reg'`. */
  predicate KeepsStarted(reg: Registry, reg': Registry) {
    forall k :: k in reg.entries && k in reg'.entries && reg.entries[k].gameStarted ==> reg'.entries[k].gameStarted
  }

  lemma CreateKeepsInvariants(reg: Registry, roomId: RoomId)
    requires Valid(reg)
    ensures Valid(CreateRoom(reg, roomId).0)
    ensures WithinCapacity(reg) ==> WithinCapacity(CreateRoom(reg, roomId).0)
    ensures forall k :: k in reg.entries && k != roomId && reg.entries[k].gameStarted ==>
      CreateRoom(reg, roomId).0.entries[k].gameStarted
  {
  }

  /** Creating a room under the id of a started room resets it: the
      one-way `gameStarted` flag only holds per room record. */
  lemma CreateOverStartedRoomResets(reg: Registry, roomId: RoomId)
    requires roomId in reg.entries && reg.entries[roomId].gameStarted
    ensures roomId in CreateRoom(reg, roomId).0.entries
    ensures !CreateRoom(reg, roomId).0.entries[roomId].gameStarted
  {
  }

  lemma AddKeepsInvariants(reg: Registry, roomId: RoomId, p: PlayerId)
    requires Valid(reg)
    ensures Valid(AddPlayerToRoom(reg, roomId, p).0)
    ensures KeepsStarted(reg, AddPlayerToRoom(reg, roomId, p).0)
  {
    var r := AddPlayerToRoom(reg, roomId, p).0;
    if roomId in reg.entries && p !in reg.entries[roomId].players {
      JoinKeepsWellFormed(reg.entries[roomId], p);
    }
  }

  /** The two-player cap, given the caller's fullness guard (server.js:60). */
  lemma AddKeepsCapacity(reg: Registry, roomId: RoomId, p: PlayerId)
    requires WithinCapacity(reg)
    requires roomId in reg.entries ==> |reg.entries[roomId].players| < Capacity
    ensures WithinCapacity(AddPlayerToRoom(reg, roomId, p).0)
  {
  }

  /** Without the guard the cap fails: a third distinct player is let in. */
  lemma AddWithoutGuardExceedsCapacity(reg: Registry, roomId: RoomId, p: PlayerId)
    requires roomId in reg.entries
    requires |reg.entries[roomId].players| == Capacity
    requires p !in reg.entries[roomId].players
    ensures AddPlayerToRoom(reg, roomId, p).1
    ensures !WithinCapacity(AddPlayerToRoom(reg, roomId, p).0)
  {
    var r := AddPlayerToRoom(reg, roomId, p).0;
    assert |r.entries[roomId].players| == Capacity + 1;
  }

  lemma RemoveKeepsInvariants(reg: Registry, roomId: RoomId, p: PlayerId)
    requires Valid(reg)
    ensures Valid(RemovePlayerFromRoom(reg, roomId, p).0)
    ensures WithinCapacity(reg) ==> WithinCapacity(RemovePlayerFromRoom(reg, roomId, p).0)
    ensures KeepsStarted(reg, RemovePlayerFromRoom(reg, roomId, p).0)
  {
    var r := RemovePlayerFromRoom(reg, roomId, p).0;
    if roomId in r.entries {
      LeaveKeepsWellFormed(reg.entries[roomId], p);
      if WithinCapacity(reg) {
        assert |r.entries[roomId].players| <= |reg.entries[roomId].players|;
      }
    }
  }

  lemma RemoveAllKeepsInvariants(reg: Registry, p: PlayerId)
    requires Valid(reg)
    ensures Valid(RemovePlayerFromAllRooms(reg, p))
    ensures WithinCapacity(reg) ==> WithinCapacity(RemovePlayerFromAllRooms(reg, p))
    ensures KeepsStarted(reg, RemovePlayerFromAllRooms(reg, p))
  {
    var r := RemovePlayerFromAllRooms(reg, p);
    forall k | k in r.entries
      ensures r.entries[k].id == k && r.entries[k].WellFormed()
      ensures WithinCapacity(reg) ==> |r.entries[k].players| <= Capacity
    {
      if p in reg.entries[k].players {
        LeaveKeepsWellFormed(reg.entries[k], p);
        assert |r.entries[k].players| <= |reg.entries[k].players|;
      }
    }
  }

  lemma UpdateKeepsInvariants(reg: Registry, roomId: RoomId, p: PlayerId, v: Vector)
    requires Valid(reg)
    ensures Valid(UpdatePlayerResources(reg, roomId, p, v).0)
    ensures WithinCapacity(reg) ==> WithinCapacity(UpdatePlayerResources(reg, roomId, p, v).0)
    ensures KeepsStarted(reg, UpdatePlayerResources(reg, roomId, p, v).0)
  {
    if UpdatePlayerResources(reg, roomId, p, v).1 {
      WithVectorKeepsWellFormed(reg.entries[roomId], p, v);
    }
  }

  /** Under the cap, "full" means exactly two players. */
  lemma FullMeansTwoPlayers(reg: Registry, roomId: RoomId)
    requires WithinCapacity(reg)
    ensures IsRoomFull(reg, roomId) <==> roomId in reg.entries && |reg.entries[roomId].players| == Capacity
  {
  }

  /** A full room in a valid registry has started. */
  lemma FullRoomHasStarted(reg: Registry, roomId: RoomId)
    requires Valid(reg)
    requires IsRoomFull(reg, roomId)
    ensures reg.entries[roomId].gameStarted
  {
  }
}
