/** The join, update and disconnect walkthroughs of the room protocol,
    stated for arbitrary room and player ids. */
module Scenarios {
  import opened Wrappers
  import opened Rooms
  import opened RoomManager
  import opened RoomProperties
  import opened Gateway

  /** Two players join an empty room: the first waits, the second starts
      the game. */
  lemma TwoJoinsStartTheGame(reg: Registry, r: RoomId, p1: PlayerId, p2: PlayerId)
    requires r in reg.entries && reg.entries[r].players == [] && !reg.entries[r].gameStarted
    requires p1 != p2
    ensures
      var s1 := JoinRoom(reg, r, p1);
      var s2 := JoinRoom(s1.0, r, p2);
      && s1.1 == Joined && s2.1 == Joined
      && s1.0.entries[r].players == [p1] && !s1.0.entries[r].gameStarted
      && s2.0.entries[r].players == [p1, p2] && s2.0.entries[r].gameStarted
  {
  }

  /** A valid update is relayed to the opponent; an out-of-range one is
      refused and the opponent keeps seeing the earlier vector. */
  lemma UpdateThenRejectedUpdate(reg: Registry, r: RoomId, p1: PlayerId, p2: PlayerId)
    requires Valid(reg) && WithinCapacity(reg)
    requires r in reg.entries && reg.entries[r].players == [p1, p2]
    requires p1 != ""
    ensures
      var good := UpdateResources(reg, r, p1, [10, 20, 30, 40, 50]);
      var bad := UpdateResources(good.0, r, p1, [10, 20, 30, 40, 51]);
      && good.1 == Updated
      && GetGameStateForPlayer(good.0, r, p2).value.opponentResources == [10, 20, 30, 40, 50]
      && bad.1 == Rejected
      && GetGameStateForPlayer(bad.0, r, p2).value.opponentResources == [10, 20, 30, 40, 50]
  {
    var v: Vector := [10, 20, 30, 40, 50];
    var w: Vector := [10, 20, 30, 40, 51];
    assert ValidVector(v);
    assert !InRange(w[4]);
    assert reg.entries[r].players[0] != reg.entries[r].players[1];
    UpdateSeenByOpponent(reg, r, p1, p2, v);
  }

  /** The first player disconnects and the room stays for the second; when
      the second disconnects too the room is gone. */
  lemma DisconnectsDrainTheRoom(reg: Registry, r: RoomId, p1: PlayerId, p2: PlayerId)
    requires Valid(reg)
    requires r in reg.entries && reg.entries[r].players == [p1, p2]
    ensures
      var s1 := Step(reg, Disconnect(p1));
      var s2 := Step(s1, Disconnect(p2));
      && r in s1.entries && s1.entries[r].players == [p2]
      && GetRoom(s2, r) == None
  {
    var room := reg.entries[r];
    assert room.Leave(p1).players == [p2] by {
      assert room.players[0] == p1;
      assert [p1, p2][1..] == [p2];
    }
    var s1 := Step(reg, Disconnect(p1));
    LastLeaveDeletes(s1, r, p2);
  }
}
