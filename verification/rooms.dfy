/** One room record of the registry and the per-room steps the registry
    applies to it (src/roomManager.js). Timestamps are not modelled. */
module Rooms {
  import opened Sequences

  /** Socket connection ids and room ids are strings in the source. */
  type PlayerId = string
  type RoomId = string

  /** A player's resource vector. */
  type Vector = seq<int>

  const VectorLength: nat := 5
  const MinResource: int := 0
  const MaxResource: int := 50

  /** A room seats two players; the game starts when the second one joins. */
  const Capacity: nat := 2

  const ZeroVector: Vector := [0, 0, 0, 0, 0]

  predicate InRange(x: int) {
    MinResource <= x <= MaxResource
  }

  /** Five values, each in [0, 50]. */
  predicate ValidVector(v: Vector) {
    |v| == VectorLength && forall i :: 0 <= i < |v| ==> InRange(v[i])
  }

  /** Why `updatePlayerResources` accepts or rejects a vector: the length
      check runs first, then the elements are scanned left to right and the
      first bad index is reported. */
  datatype Verdict = Accepted | WrongLength | OutOfRange(index: nat)

  method ValidateResources(v: Vector) returns (verdict: Verdict)
    ensures verdict == Accepted <==> ValidVector(v)
    ensures verdict == WrongLength <==> |v| != VectorLength
    ensures verdict.OutOfRange? ==>
      && verdict.index < |v|
      && !InRange(v[verdict.index])
      && forall j :: 0 <= j < verdict.index ==> InRange(v[j])
  {
    if |v| != VectorLength {
      return WrongLength;
    }
    var i := 0;
    while i < |v|
      invariant 0 <= i <= |v|
      invariant forall j :: 0 <= j < i ==> InRange(v[j])
    {
      if v[i] < MinResource || v[i] > MaxResource {
        return OutOfRange(i);
      }
      i := i + 1;
    }
    return Accepted;
  }

  datatype Room = Room(
    id: RoomId,
    players: seq<PlayerId>,
    gameStarted: bool,
    resources: map<PlayerId, Vector>)
  {
    /** The per-room invariants every registry operation keeps: join order
        without repeats, one valid vector per current player and for no one
        else, started once full, and never started while empty. */
    predicate WellFormed() {
      && NoDuplicates(players)
      && (forall p :: p in players ==> p in resources)
      && (forall p :: p in resources ==> p in players)
      && (forall p :: p in resources ==> ValidVector(resources[p]))
      && (|players| >= Capacity ==> gameStarted)
      && (gameStarted ==> |players| > 0)
    }

    /** A new member joins (src/roomManager.js:44-51): appended in join
        order with a zero vector; the room starts exactly when the count
        reaches two, and a started room stays started. */
    function Join(p: PlayerId): (room: Room)
      ensures room.id == id
      ensures room.players == players + [p]
      ensures room.resources == resources[p := ZeroVector]
      ensures room.gameStarted <==> gameStarted || |room.players| == Capacity
    {
      var joined := players + [p];
      Room(id, joined, gameStarted || |joined| == Capacity, resources[p := ZeroVector])
    }

    /** A player leaves (src/roomManager.js:61-62): gone from the player
        list and the resource map; the others keep their order. */
    function Leave(p: PlayerId): (room: Room)
      ensures room.id == id && room.gameStarted == gameStarted
      ensures p !in room.players && p !in room.resources
      ensures forall q :: q in room.players <==> q in players && q != p
      ensures forall q :: q in room.resources <==> q in resources && q != p
      ensures forall q :: q in room.resources ==> room.resources[q] == resources[q]
    {
      Room(id, Without(players, p), gameStarted, resources - {p})
    }

    /** One player's vector is replaced (src/roomManager.js:100). */
    function WithVector(p: PlayerId, v: Vector): (room: Room)
      ensures room.id == id && room.players == players && room.gameStarted == gameStarted
      ensures room.resources.Keys == resources.Keys + {p}
      ensures room.resources[p] == v
      ensures forall q :: q in resources && q != p ==> room.resources[q] == resources[q]
    {
      Room(id, players, gameStarted, resources[p := v])
    }
  }

  /** The record `createRoom` builds (src/roomManager.js:11-20). */
  function NewRoom(id: RoomId): (room: Room)
    ensures room.WellFormed()
  {
    Room(id, [], false, map[])
  }

  lemma JoinKeepsWellFormed(room: Room, p: PlayerId)
    requires room.WellFormed()
    requires p !in room.players
    ensures room.Join(p).WellFormed()
  {
    var r := room.Join(p);
    forall i, j | 0 <= i < j < |r.players| ensures r.players[i] != r.players[j] {
      if j == |room.players| {
        assert r.players[i] == room.players[i];
      }
    }
  }

  lemma LeaveKeepsWellFormed(room: Room, p: PlayerId)
    requires room.WellFormed()
    requires room.Leave(p).players != []
    ensures room.Leave(p).WellFormed()
  {
  }

  lemma WithVectorKeepsWellFormed(room: Room, p: PlayerId, v: Vector)
    requires room.WellFormed()
    requires p in room.players
    requires ValidVector(v)
    ensures room.WithVector(p, v).WellFormed()
  {
  }
}
