# Room registry of a two-player resource-sharing relay

This project models the in-memory room registry `RoomManager` of a small
real-time relay in Dafny. Two players share a room, and the server passes
each player's five-number resource vector to the other. The registry maps
room ids to room records. Each record holds:

- an ordered, duplicate-free list of players, in join order;
- a one-way `gameStarted` flag, set when the second player joins;
- a map from player id to that player's resource vector (five integers in [0, 50]).

The registry is modelled as pure state transformers. Each operation takes a
registry and returns the new registry together with the source's boolean or
optional result. The registry is the JavaScript `Map` of the source, so the
model keeps its insertion order as well (`OrderedMaps`). `Map.set` on an
existing key keeps that key's place. `Map.delete` removes the key from the
order. This order is what `getAllRooms` lists and what
`removePlayerFromAllRooms` walks.

Modules:

- `Sequences`: the array operations the registry uses (`filter`, `find`), and `Restrict` with its lemmas, which describe the Map's key order after deletions.
- `OrderedMaps`: the `Map` with its key order.
- `Rooms`: the room record, the resource-vector check, and the per-room join/leave/update steps.
- `RoomManager`: every registry operation.
- `RegistryInvariants`: what each operation preserves.
- `RoomProperties`: how the operations relate to each other and to the read projections.
- `Gateway`: the two guards the socket handlers put in front of the registry, plus event runs.
- `Scenarios`: the join, update and disconnect walkthroughs.

The model follows the code, including these behaviours:

- `createRoom` overwrites a room that already has the same id. This resets a started room (`CreateOverStartedRoomResets`). Room ids are assumed fresh, but nothing checks this.
- `addPlayerToRoom` does not check capacity. The two-player cap comes from the join handler's guard (server.js:60). `AddWithoutGuardExceedsCapacity` shows that without the guard a third player gets in.
- `removePlayerFromRoom` filters first and checks for emptiness afterwards. So removing anyone, member or not, from an empty room deletes that room (`RemoveFromEmptyRoomDeletes`). Removing an absent player is a no-op only for a non-empty room (`RemoveNonMemberIsNoOp`).
- `isRoomFull` tests `>= 2`. Under the two-player cap, this means exactly two players (`FullMeansTwoPlayers`).
- A player is meant to be in at most one room, but nothing in the code enforces this (`PlayerCanJoinTwoRooms`).
- `getGameStateForPlayer` tests the opponent id for JavaScript truthiness. An opponent whose id is the empty string therefore shows as five zeros (`ViewEmptyIdOpponentIsZeros`).

## Model

| member | source | states |
|---|---|---|
| Sequences.Without | src/roomManager.js:61 | filtering a player out keeps exactly the other elements, drops every occurrence, keeps a duplicate-free list duplicate-free, and leaves a list without that player unchanged |
| Sequences.WithoutDeletesAt | src/roomManager.js:61 | in a duplicate-free list, filtering out the element at position i is deleting position i: all other players keep their order and the length drops by one |
| Sequences.IndexOfFirstOther | src/roomManager.js:126 | `find(id => id !== p)` stops at the first element different from p, and every element before it is p |
| Sequences.FirstOtherOfPair | src/roomManager.js:126 | in a two-element duplicate-free list holding p, the first element other than p is the other member |
| Rooms.ValidateResources | src/roomManager.js:86-98 | a vector is accepted iff it has length 5 and every element is in [0, 50]; a wrong length is reported before any element is scanned; otherwise the first out-of-range index is reported |
| Rooms.Room.Join | src/roomManager.js:44-51 | a joining player is appended after the existing players and gets five zeros; the room is started iff it already was or now seats two |
| Rooms.Room.Leave | src/roomManager.js:61-62 | the leaving player is gone from the players and the vectors; every other player and every other vector stays; the started flag is kept |
| Rooms.Room.WithVector | src/roomManager.js:100 | the player's vector becomes exactly the given one; the players, the started flag and every other vector stay |
| Rooms.NewRoom | src/roomManager.js:11-20 | the record createRoom builds satisfies every room invariant |
| Rooms.JoinKeepsWellFormed | src/roomManager.js:43-51 | a non-member joining keeps the players unique, the vector keys equal to the players, every vector valid, and "started when two are seated" |
| Rooms.LeaveKeepsWellFormed | src/roomManager.js:61-62 | a leave that leaves the room non-empty keeps every room invariant |
| Rooms.WithVectorKeepsWellFormed | src/roomManager.js:100 | storing a valid vector for a member keeps every room invariant |
| RoomManager.NewRegistry | src/roomManager.js:2-4 | a new registry holds no rooms and is valid |
| RoomManager.CreateRoom | src/roomManager.js:10-25 | afterwards the id holds an empty, unstarted room with no vectors, which is also returned; every other room is unchanged; a replaced room keeps its listing position and a new id goes last |
| RoomManager.GetRoom | src/roomManager.js:27-29 | lookup is present iff a room is stored under the id, and returns that room |
| RoomManager.GetAllRooms | src/roomManager.js:31-37 | one summary per room in insertion order, carrying its id and player count |
| RoomManager.AddPlayerToRoom | src/roomManager.js:39-55 | false and no change for a missing room; true and no change for a member; otherwise only that room changes: the player is appended, gets a zero vector, and the room is started iff it was started or now seats two |
| RoomManager.RemovePlayerFromRoom | src/roomManager.js:57-71 | false and no change for a missing room; otherwise true and the player and its vector are gone; the room is deleted (and leaves the listing order) iff no player remains, and otherwise is the only room that changes |
| RoomManager.RemoveIfMember | src/roomManager.js:75-77 | one loop iteration: a room holding the player loses it or is deleted, a room not holding it is untouched, every other room is untouched, and the listing order only loses deleted rooms |
| RoomManager.RemoveFromEach | src/roomManager.js:74-79 | after walking the given room ids, none of them holds the player; rooms not visited or not holding it are untouched; visited rooms holding it lost it, deleted iff emptied |
| RoomManager.RemovePlayerFromAllRooms | src/roomManager.js:73-80 | afterwards no room holds the player; rooms that did not hold it are untouched (an empty one survives); a room that did lost it and is deleted iff emptied; survivors keep their listing order |
| RoomManager.UpdatePlayerResources | src/roomManager.js:82-102 | succeeds iff the room exists, the player is a member and the vector is valid; on failure nothing changes; on success only that player's vector changes, to exactly the given vector |
| RoomManager.GetPlayerResources | src/roomManager.js:104-109 | present iff the room exists and has a vector for the player, and returns that vector |
| RoomManager.GetRoomGameState | src/roomManager.js:111-119 | present iff the room exists, and carries its players and every vector |
| RoomManager.OpponentResources | src/roomManager.js:125-127 | the viewer is shown the vector of the first player in join order who is not the viewer; it is shown five zeros when every player is the viewer, when that first other player's id is the empty string (falsy in JavaScript), or when that player has no stored vector; in every case it is shown either five zeros or a vector stored for someone other than the viewer, and in a well-formed room that vector is valid |
| RoomManager.GetGameStateForPlayer | src/roomManager.js:121-134 | present iff the room exists and the viewer is a member; carries the players, the room id and the opponent's vector |
| RoomManager.IsRoomFull | src/roomManager.js:136-139 | true iff the room exists and seats two or more |
| RegistryInvariants.CreateKeepsInvariants | src/roomManager.js:10-25 | creating a room keeps the registry valid and within the cap, and keeps other started rooms started |
| RegistryInvariants.CreateOverStartedRoomResets | src/roomManager.js:22 | creating a room under a started room's id replaces it with an unstarted one |
| RegistryInvariants.AddKeepsInvariants | src/roomManager.js:43-51 | adding a player keeps the registry valid and never unsets a started flag |
| RegistryInvariants.AddKeepsCapacity | server.js:60 | with the caller's fullness guard, adding a player keeps every room at two players or fewer |
| RegistryInvariants.AddWithoutGuardExceedsCapacity | src/roomManager.js:43-45 | without the guard, a new player added to a full room is accepted and the cap is broken |
| RegistryInvariants.RemoveKeepsInvariants | src/roomManager.js:57-71 | removing a player keeps the registry valid and within the cap, and keeps started rooms started |
| RegistryInvariants.RemoveAllKeepsInvariants | src/roomManager.js:73-80 | removing a player everywhere keeps the registry valid and within the cap, and keeps started rooms started |
| RegistryInvariants.UpdateKeepsInvariants | src/roomManager.js:82-101 | an update keeps the registry valid and within the cap, and keeps started rooms started |
| RegistryInvariants.FullMeansTwoPlayers | src/roomManager.js:136-139 | within the cap, a room is full iff it exists with exactly two players |
| RegistryInvariants.FullRoomHasStarted | src/roomManager.js:48-49 | in a valid registry a full room has started |
| RoomProperties.CreateThenGet | src/roomManager.js:10-29 | a created room reads back as the empty unstarted room, is not full, and gives no viewer a projection |
| RoomProperties.AddIdempotent | src/roomManager.js:39-55 | adding the same player twice gives the same registry and result as adding it once |
| RoomProperties.AddThenGetResources | src/roomManager.js:44-45 | a joining player is last in join order and its vector reads back as five zeros |
| RoomProperties.JoinThenLeave | src/roomManager.js:44-62 | at room level, joining then leaving gives back the players and vectors; only the started flag may have changed |
| RoomProperties.AddThenRemove | src/roomManager.js:39-71 | joining then leaving a non-empty room restores the registry, except that the room stays started if the join filled it |
| RoomProperties.AddToEmptyThenRemoveDeletes | src/roomManager.js:61-66 | joining an empty room and leaving it deletes the room |
| RoomProperties.RemoveKeepsOrder | src/roomManager.js:61 | removing the i-th of several players leaves the others in join order with position i deleted |
| RoomProperties.RemoveNonMemberIsNoOp | src/roomManager.js:57-71 | removing a non-member from a non-empty room succeeds and changes nothing |
| RoomProperties.RemoveFromEmptyRoomDeletes | src/roomManager.js:61-66 | removing anyone from an empty room succeeds and deletes the room |
| RoomProperties.LastLeaveDeletes | src/roomManager.js:64-66 | when the last player leaves, directly or through the all-rooms sweep, the room is gone |
| RoomProperties.UpdateThenGet | src/roomManager.js:82-109 | a successful update reads back exactly; a rejected one leaves the stored vector as it was |
| RoomProperties.ResourcesExactlyForMembers | src/roomManager.js:104-109 | in a valid registry a vector is present exactly for members, and it is valid |
| RoomProperties.GameStateCoversPlayers | src/roomManager.js:111-119 | the full-state projection holds one vector per player and no other |
| RoomProperties.ViewShowsOpponent | src/roomManager.js:121-134 | in a valid room within the cap, each of two members is shown the other's vector, provided the other's id is not the empty string |
| RoomProperties.ViewEmptyIdOpponentIsZeros | src/roomManager.js:126-127 | in a two-player room whose other member has the empty string as id, the viewer is shown five zeros whichever of the two joined first, because that id is falsy |
| RoomProperties.ViewAloneIsZeros | src/roomManager.js:126-127 | a viewer alone in its room is shown five zeros |
| RoomProperties.ViewIgnoresOwnVector | src/roomManager.js:125-127 | changing the viewer's own vector never changes the viewer's projection |
| RoomProperties.UpdateSeenByOpponent | src/roomManager.js:82-134 | after a valid update by one member of a two-player room, the other member's projection shows exactly that vector, provided the updater's id is not the empty string |
| RoomProperties.ListingCoversRooms | src/roomManager.js:31-37 | the listing names every stored room exactly once and nothing else |
| Gateway.JoinRoom | server.js:52-66 | not-found iff the room is missing, full iff the room is full, and otherwise the player is added; a refused join changes nothing |
| Gateway.UpdateResources | server.js:100-120 | an update is applied iff the room exists, has started, the sender is a member and the vector is valid; otherwise nothing changes |
| Gateway.StepKeepsInvariants | server.js:52-137 | each event keeps the registry valid and within the cap; every event except a room creation keeps started rooms started |
| Gateway.RunKeepsInvariants | server.js:52-137 | over any sequence of events the registry stays valid and no room seats more than two |
| Gateway.ReachableStatesAreValid | src/roomManager.js:2-4 | every state reachable from a new registry is valid and within the cap |
| Gateway.JoinFullRoomRejected | server.js:60-63 | a join to a full room is refused and nothing changes |
| Gateway.PlayerCanJoinTwoRooms | server.js:52-66 | one player id can join two different rooms, so "one room per player" is not maintained |
| Scenarios.TwoJoinsStartTheGame | src/roomManager.js:43-51 | two distinct players joining an empty room: after the first, one player and not started; after the second, both players in join order and started |
| Scenarios.UpdateThenRejectedUpdate | src/roomManager.js:86-100 | [10,20,30,40,50] is stored and relayed to the opponent; [10,20,30,40,51] is refused and the opponent still sees the earlier vector, provided the updater's id is not the empty string |
| Scenarios.DisconnectsDrainTheRoom | src/roomManager.js:73-80 | in a two-player room the first disconnect leaves only the second player; the second disconnect deletes the room |

## Left out

- Room ids are caller-supplied. `generateRoomId` (src/roomManager.js:6-8, 143-145) draws on `Math.random`, so it is not modelled. A collision is modelled as the overwrite it causes.
- The `createdAt` and `gameStartedAt` timestamps are not modelled. They read the wall clock. The `createdAt` field of the room listing is dropped for the same reason.
- `console.log` and `console.error` output is not modelled.
- Rooms.ValidateResources: values are mathematical integers, so this is stricter than the source. In the source, `NaN` passes (`typeof NaN === 'number'` and both range comparisons are false), fractional numbers in [0, 50] pass, and a non-array or a non-number element is rejected. Those inputs cannot be written in this model.
- RoomManager.UpdatePlayerResources: the same integer restriction applies to the vector it stores.
- RoomManager.GetPlayerResources: the resource record is a plain JavaScript object. A player id such as `toString` would read an inherited prototype property and not be reported as missing. This is not modelled; ids are socket ids.
- RoomManager.OpponentResources: the same prototype-property lookup applies to the opponent's entry (`|| [0,0,0,0,0]`). This is not modelled.
- The source's projections return live references into the registry. The model returns values.
- Transport plumbing is not modelled: the Express routes, socket.io emits and broadcasts, CORS, static files and `server.listen` in server.js. Only the fullness guard (server.js:60) and the started guard (server.js:109) appear, in `Gateway`. The handlers' emitted messages do not.
- The `if (playerAdded)` test in the join handler is not modelled separately. The room was checked to exist just before, so it is always true.
- Concurrency is out of scope. The source runs on one event loop, so each operation is atomic.
