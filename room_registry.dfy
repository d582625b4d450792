/**
 * The in-memory room registry of the plain socket server: one map from room
 * id to a set of user ids, shared by every connection, and per connection
 * the room it is in and the user id it last joined as.
 *
 * A JavaScript `Set` is an object: the registry maps room ids to
 * `MemberSet` objects, and a handler that holds a set keeps holding it even
 * after the map lets go of it. A set's members are kept in insertion order,
 * as `Array.from` lists them.
 */
module RoomRegistry {
  import opened Common

  /** Where an emission goes: the connection's own socket, or a socket.io room. */
  datatype Target = ToSocket(socketId: string) | ToRoom(room: string)

  datatype Event =
    | RoomError(text: string)
    | RoomUsers(roomId: string, users: seq<string>)
    | RoomJoined(roomId: string)
    | Chat(userId: string, message: string, timeStamp: string)

  datatype Emission = Emission(to: Target, event: Event)

  const RoomFullText := "Room is full"

  /** `Set.add`: a present member is not added twice. */
  function SetAdd(s: seq<string>, x: string): (r: seq<string>)
    ensures x in r && forall y :: y in r <==> y in s || y == x
  {
    if x in s then s else s + [x]
  }

  // ----------------------------------------------------------- the view

  /** What a connection's handlers read and change, as values. */
  datatype View = View(
    rooms: map<string, seq<string>>,
    currentRoom: string,
    currentUserId: string,
    ioRooms: set<string>,
    log: seq<Emission>)

  /** A join-room's new view, and whether the handler threw. */
  datatype Joined = Joined(view: View, threw: bool)

  /** The previous room loses the (already overwritten) current user id, and goes when empty. */
  function LeaveCurrent(v: View): View
    requires v.currentRoom in v.rooms
  {
    var rest := Without(v.rooms[v.currentRoom], v.currentUserId);
    v.(ioRooms := v.ioRooms - {v.currentRoom},
       rooms := if |rest| == 0 then v.rooms - {v.currentRoom} else v.rooms[v.currentRoom := rest])
  }

  /** The `join-room` handler of a connection on socket `socketId`. */
  function AfterJoin(v: View, socketId: string, roomId: string, userId: string, capacity: int): (j: Joined)
    ensures j.view.currentUserId == userId && v.log <= j.view.log
  {
    var v1 := v.(currentUserId := userId, rooms := if roomId in v.rooms then v.rooms else v.rooms[roomId := []]);
    if |v1.rooms[roomId]| >= capacity then
      Joined(v1.(log := v1.log + [Emission(ToSocket(socketId), RoomError(RoomFullText))]), false)
    else EnterRoom(v1, socketId, roomId)
  }

  /** join-room past the capacity check: leave the previous room, then join. */
  function EnterRoom(v: View, socketId: string, roomId: string): (j: Joined)
    requires roomId in v.rooms
    ensures j.threw <==> v.currentRoom != "" && v.currentRoom !in v.rooms
    ensures j.view.currentUserId == v.currentUserId && v.log <= j.view.log
    ensures !j.threw ==> j.view.currentRoom == roomId && roomId in j.view.ioRooms
    ensures j.threw ==> j.view.log == v.log && j.view.currentRoom == v.currentRoom
  {
    if v.currentRoom != "" && v.currentRoom !in v.rooms then
      // `rooms.get(currentRoom)` is undefined: the delete throws a TypeError
      Joined(v.(ioRooms := v.ioRooms - {v.currentRoom}), true)
    else
      var v2 := if v.currentRoom != "" then LeaveCurrent(v) else v;
      // the handler's `room` is the set object it fetched before leaving
      var held := if v.currentRoom != "" && v.currentRoom == roomId then Without(v.rooms[roomId], v.currentUserId) else v.rooms[roomId];
      Joined(JoinHeld(v2, socketId, roomId, held), false)
  }

  /**
   * The user joins through the set the handler holds, whose members are
   * `held`; the map shows the change only if it still registers that set.
   */
  function JoinHeld(v: View, socketId: string, roomId: string, held: seq<string>): View {
    var joined := SetAdd(held, v.currentUserId);
    var sent := [Emission(ToRoom(roomId), RoomUsers(roomId, joined)), Emission(ToSocket(socketId), RoomJoined(roomId))];
    v.(rooms := if roomId in v.rooms then v.rooms[roomId := joined] else v.rooms,
       currentRoom := roomId, ioRooms := v.ioRooms + {roomId}, log := v.log + sent)
  }

  /** The `message` handler: relayed to the room only from the connection's current room. */
  function AfterMessage(v: View, roomId: string, message: string, userId: string, now: string): (w: View)
    ensures w.(log := v.log) == v && v.log <= w.log && |w.log| <= |v.log| + 1
  {
    if roomId == v.currentRoom then v.(log := v.log + [Emission(ToRoom(roomId), Chat(userId, message, now))])
    else v
  }

  /** The `disconnect` handler. */
  function AfterDisconnect(v: View): (w: View)
    ensures w.(rooms := v.rooms, log := v.log) == v && v.log <= w.log
    ensures forall r | r in w.rooms && r != v.currentRoom :: r in v.rooms && w.rooms[r] == v.rooms[r]
    ensures w.rooms.Keys <= v.rooms.Keys
  {
    if v.currentRoom != "" && v.currentUserId != "" && v.currentRoom in v.rooms then
      var rest := Without(v.rooms[v.currentRoom], v.currentUserId);
      if |rest| == 0 then v.(rooms := v.rooms - {v.currentRoom})
      else v.(rooms := v.rooms[v.currentRoom := rest],
              log := v.log + [Emission(ToRoom(v.currentRoom), RoomUsers(v.currentRoom, rest))])
    else v
  }

  // ------------------------------------------------------------- objects

  /** A JavaScript `Set` of user ids. */
  class MemberSet {
    var members: seq<string>

    constructor()
      ensures members == []
    {
      members := [];
    }

    method Add(x: string)
      modifies this
      ensures members == SetAdd(old(members), x)
    {
      if x !in members {
        members := members + [x];
      }
    }

    method Delete(x: string)
      modifies this
      ensures members == Without(old(members), x)
    {
      members := Without(members, x);
    }
  }

  /** The `rooms` map and the socket.io server's emissions, shared by every connection. */
  class Registry {
    const capacity: int
    var rooms: map<string, MemberSet>
    var log: seq<Emission>

    /** No set object is registered under two room ids. */
    ghost predicate Valid()
      reads this
    {
      forall r1, r2 | r1 in rooms && r2 in rooms && r1 != r2 :: rooms[r1] != rooms[r2]
    }

    function Contents(): map<string, seq<string>>
      reads this, rooms.Values
    {
      map r | r in rooms :: rooms[r].members
    }

    /** `if (!rooms.has(roomId)) rooms.set(roomId, new Set())` */
    method EnsureRoom(roomId: string)
      requires Valid()
      modifies this
      ensures Valid() && log == old(log) && roomId in rooms
      ensures Contents() == if roomId in old(Contents()) then old(Contents()) else old(Contents())[roomId := []]
      ensures forall r | r in old(rooms) :: r in rooms && rooms[r] == old(rooms[r])
      ensures rooms.Values <= old(rooms.Values) + {rooms[roomId]} && fresh(rooms.Values - old(rooms.Values))
    {
      if roomId !in rooms {
        var created := new MemberSet();
        rooms := rooms[roomId := created];
      }
    }

    constructor(capacity: int)
      ensures Valid() && this.capacity == capacity && Contents() == map[] && log == []
    {
      this.capacity := capacity;
      rooms := map[];
      log := [];
    }
  }

  /** One socket's connection handler: its closure variables and its socket.io rooms. */
  class Connection {
    const registry: Registry
    const socketId: string
    var currentRoom: string
    var currentUserId: string
    var ioRooms: set<string>

    function State(): View
      reads this, registry, registry.rooms.Values
    {
      View(registry.Contents(), currentRoom, currentUserId, ioRooms, registry.log)
    }

    constructor(registry: Registry, socketId: string)
      ensures this.registry == registry && this.socketId == socketId
      ensures currentRoom == "" && currentUserId == "" && ioRooms == {}
    {
      this.registry := registry;
      this.socketId := socketId;
      currentRoom := "";
      currentUserId := "";
      ioRooms := {};
    }

    /** `join-room` */
    method JoinRoom(roomId: string, userId: string) returns (threw: bool)
      requires registry.Valid()
      modifies this, registry, registry.rooms.Values
      ensures registry.Valid()
      ensures Joined(State(), threw) == AfterJoin(old(State()), socketId, roomId, userId, registry.capacity)
    {
      ghost var v0 := State();
      currentUserId := userId;
      registry.EnsureRoom(roomId);
      var room := registry.rooms[roomId];
      ghost var v1 := State();
      assert v1 == v0.(currentUserId := userId, rooms := if roomId in v0.rooms then v0.rooms else v0.rooms[roomId := []]);
      assert room.members == v1.rooms[roomId];
      if |room.members| >= registry.capacity {
        registry.log := registry.log + [Emission(ToSocket(socketId), RoomError(RoomFullText))];
        assert State() == v1.(log := v1.log + [Emission(ToSocket(socketId), RoomError(RoomFullText))]);
        return false;
      }
      threw := Enter(room, roomId);
    }

    /** join-room from the "leave" block on, holding the set fetched for `roomId`. */
    method Enter(room: MemberSet, roomId: string) returns (threw: bool)
      requires registry.Valid() && roomId in registry.rooms && registry.rooms[roomId] == room
      modifies this, registry, registry.rooms.Values
      ensures registry.Valid()
      ensures Joined(State(), threw) == EnterRoom(old(State()), socketId, roomId)
    {
      ghost var v1 := State();
      assert room.members == v1.rooms[roomId];
      if currentRoom != "" {
        ioRooms := ioRooms - {currentRoom};
        if currentRoom !in registry.rooms {
          return true;
        }
        ghost var target := registry.rooms[currentRoom];
        assert currentRoom == roomId <==> target == room;
        ghost var before := room.members;
        LeaveRoomObject();
        if currentRoom == roomId {
          assert room.members == Without(before, currentUserId);
        } else {
          assert room.members == before;
        }
      }
      assert State() == if v1.currentRoom != "" then LeaveCurrent(v1) else v1;
      assert room.members == if v1.currentRoom != "" && v1.currentRoom == roomId then Without(v1.rooms[roomId], v1.currentUserId) else v1.rooms[roomId];
      AddHeld(room, roomId);
      threw := false;
    }

    /** `socket.join(roomId); room.add(userId); currentRoom = roomId` and the two emissions. */
    method AddHeld(room: MemberSet, roomId: string)
      requires registry.Valid()
      requires forall r | r in registry.rooms :: registry.rooms[r] == room <==> r == roomId
      modifies this, registry, room
      ensures registry.Valid()
      ensures State() == JoinHeld(old(State()), socketId, roomId, old(room.members))
    {
      ghost var v := State();
      room.Add(currentUserId);
      assert forall r | r in registry.rooms && r != roomId :: registry.rooms[r].members == v.rooms[r];
      currentRoom := roomId;
      ioRooms := ioRooms + {roomId};
      registry.log := registry.log + [Emission(ToRoom(roomId), RoomUsers(roomId, room.members)), Emission(ToSocket(socketId), RoomJoined(roomId))];
    }

    /** `message`: relayed to the room with the given time stamp when it is the current room. */
    method Message(roomId: string, message: string, userId: string, now: string)
      modifies registry
      ensures registry.rooms == old(registry.rooms)
      ensures State() == AfterMessage(old(State()), roomId, message, userId, now)
    {
      if roomId == currentRoom {
        registry.log := registry.log + [Emission(ToRoom(roomId), Chat(userId, message, now))];
      }
    }

    /** `disconnect` */
    method Disconnect()
      requires registry.Valid()
      modifies registry, registry.rooms.Values
      ensures registry.Valid()
      ensures State() == AfterDisconnect(old(State()))
    {
      if currentRoom != "" && currentUserId != "" && currentRoom in registry.rooms {
        ghost var rest := Without(registry.Contents()[currentRoom], currentUserId);
        LeaveRoomObject();
        assert currentRoom in registry.rooms <==> currentRoom in registry.Contents();
        assert currentRoom in registry.rooms <==> |rest| != 0;
        if currentRoom in registry.rooms {
          var room := registry.rooms[currentRoom];
          assert room.members == registry.Contents()[currentRoom] == rest;
          registry.log := registry.log + [Emission(ToRoom(currentRoom), RoomUsers(currentRoom, room.members))];
        }
      }
    }

    /** join-room's "leave" block: out of the previous room's set, and the set out of the map when empty. */
    method LeaveRoomObject()
      requires registry.Valid() && currentRoom in registry.rooms
      modifies registry, registry.rooms[currentRoom]
      ensures registry.Valid() && registry.log == old(registry.log)
      ensures registry.Contents() == LeaveCurrent(old(State())).rooms
      ensures forall r | r in registry.rooms :: r in old(registry.rooms) && registry.rooms[r] == old(registry.rooms[r])
      ensures old(registry.rooms[currentRoom]).members == Without(old(registry.rooms[currentRoom].members), currentUserId)
    {
      var oldRoom := registry.rooms[currentRoom];
      oldRoom.Delete(currentUserId);
      if |oldRoom.members| == 0 {
        registry.rooms := registry.rooms - {currentRoom};
      }
    }
  }

  // ------------------------------------------------------------- lemmas

  /** Every room holds distinct user ids, and no more than the capacity. */
  ghost predicate WithinCapacity(rooms: map<string, seq<string>>, capacity: int) {
    forall r | r in rooms :: NoDup(rooms[r]) && |rooms[r]| <= capacity
  }

  lemma {:induction false} WithoutNoDup(s: seq<string>, x: string)
    requires NoDup(s)
    ensures NoDup(Without(s, x))
  {
    if s != [] {
      assert NoDup(s[1..]) by {
        forall i, j | 0 <= i < j < |s[1..]| ensures s[1..][i] != s[1..][j] {
          assert s[1..][i] == s[i + 1] && s[1..][j] == s[j + 1];
        }
      }
      WithoutNoDup(s[1..], x);
      if s[0] != x {
        var r := Without(s[1..], x);
        assert s[0] !in s[1..] by {
          forall k | 0 <= k < |s[1..]| ensures s[1..][k] != s[0] {
            assert s[1..][k] == s[k + 1];
          }
        }
        assert s[0] !in r;
        var t := [s[0]] + r;
        forall i, j | 0 <= i < j < |t| ensures t[i] != t[j] {
          if i == 0 {
            assert t[j] == r[j - 1];
          } else {
            assert t[i] == r[i - 1] && t[j] == r[j - 1];
          }
        }
      }
    }
  }

  lemma SetAddNoDup(s: seq<string>, x: string)
    requires NoDup(s)
    ensures NoDup(SetAdd(s, x)) && |SetAdd(s, x)| <= |s| + 1
  {
    if x !in s {
      var t := s + [x];
      forall i, j | 0 <= i < j < |t| ensures t[i] != t[j] {
        if j == |s| {
          assert t[i] == s[i];
        }
      }
    }
  }

  /** Without empties a set exactly when every member is the removed one. */
  lemma WithoutEmpty(s: seq<string>, x: string)
    ensures Without(s, x) == [] <==> forall y | y in s :: y == x
  {
    if Without(s, x) != [] {
      assert Without(s, x)[0] in Without(s, x);
    }
  }

  /** join-room keeps every room duplicate-free and within the capacity. */
  lemma JoinKeepsCapacity(v: View, socketId: string, roomId: string, userId: string, capacity: int)
    requires 0 <= capacity && WithinCapacity(v.rooms, capacity)
    ensures WithinCapacity(AfterJoin(v, socketId, roomId, userId, capacity).view.rooms, capacity)
  {
    var v1 := v.(currentUserId := userId, rooms := if roomId in v.rooms then v.rooms else v.rooms[roomId := []]);
    assert WithinCapacity(v1.rooms, capacity);
    if |v1.rooms[roomId]| < capacity && !(v1.currentRoom != "" && v1.currentRoom !in v1.rooms) {
      var room := v1.rooms[roomId];
      if v1.currentRoom != "" {
        WithoutNoDup(v1.rooms[v1.currentRoom], userId);
        WithoutNoDup(room, userId);
      }
      var v2 := if v1.currentRoom != "" then LeaveCurrent(v1) else v1;
      assert WithinCapacity(v2.rooms, capacity);
      var held := if v1.currentRoom != "" && v1.currentRoom == roomId then Without(room, userId) else room;
      SetAddNoDup(held, userId);
    }
  }

  /** disconnect keeps every room duplicate-free and within the capacity. */
  lemma DisconnectKeepsCapacity(v: View, capacity: int)
    requires WithinCapacity(v.rooms, capacity)
    ensures WithinCapacity(AfterDisconnect(v).rooms, capacity)
  {
    if v.currentRoom != "" && v.currentUserId != "" && v.currentRoom in v.rooms {
      WithoutNoDup(v.rooms[v.currentRoom], v.currentUserId);
    }
  }

  /**
   * A full room refuses the join: only the error, to the caller. The
   * rooms, the current room and the socket.io rooms stay, except that an
   * unknown room id (with a capacity of zero or less) is registered empty.
   */
  lemma JoinRefusedWhenFull(v: View, socketId: string, roomId: string, userId: string, capacity: int)
    requires |(if roomId in v.rooms then v.rooms[roomId] else [])| >= capacity
    ensures var j := AfterJoin(v, socketId, roomId, userId, capacity);
      && !j.threw
      && j.view.rooms == (if roomId in v.rooms then v.rooms else v.rooms[roomId := []])
      && j.view.currentRoom == v.currentRoom && j.view.ioRooms == v.ioRooms
      && j.view.log == v.log + [Emission(ToSocket(socketId), RoomError(RoomFullText))]
  {
  }

  /**
   * A join from no room, or from a different registered room: the user is
   * in the new room's set, which the room is told in full; the previous
   * room has lost the joining user id and is gone if that emptied it;
   * every other room is as it was.
   */
  lemma JoinMovesUser(v: View, socketId: string, roomId: string, userId: string, capacity: int)
    requires |(if roomId in v.rooms then v.rooms[roomId] else [])| < capacity
    requires v.currentRoom == "" || (v.currentRoom in v.rooms && v.currentRoom != roomId)
    ensures var j := AfterJoin(v, socketId, roomId, userId, capacity);
      && !j.threw
      && j.view.currentRoom == roomId && roomId in j.view.ioRooms
      && roomId in j.view.rooms && userId in j.view.rooms[roomId]
      && j.view.log == v.log + [Emission(ToRoom(roomId), RoomUsers(roomId, j.view.rooms[roomId])), Emission(ToSocket(socketId), RoomJoined(roomId))]
      && (v.currentRoom != "" ==>
            var rest := Without(v.rooms[v.currentRoom], userId);
            && v.currentRoom !in j.view.ioRooms
            && (rest == [] ==> v.currentRoom !in j.view.rooms)
            && (rest != [] ==> v.currentRoom in j.view.rooms && j.view.rooms[v.currentRoom] == rest))
      && forall r | r in v.rooms && r != roomId && r != v.currentRoom :: r in j.view.rooms && j.view.rooms[r] == v.rooms[r]
  {
  }

  /**
   * The user id is overwritten before the previous room is left: joining
   * another room under a new user id leaves the old id in the previous
   * room.
   */
  lemma JoinStrandsPreviousUserId(v: View, socketId: string, roomId: string, userId: string, capacity: int)
    requires |(if roomId in v.rooms then v.rooms[roomId] else [])| < capacity
    requires v.currentRoom != "" && v.currentRoom in v.rooms && v.currentRoom != roomId
    requires v.currentUserId in v.rooms[v.currentRoom] && userId != v.currentUserId
    ensures var j := AfterJoin(v, socketId, roomId, userId, capacity);
      && v.currentRoom in j.view.rooms && v.currentUserId in j.view.rooms[v.currentRoom]
  {
    assert v.currentUserId in Without(v.rooms[v.currentRoom], userId);
  }

  /**
   * Rejoining the current room as its only member: the leave block empties
   * and unregisters the room, and the user is added to the set the handler
   * still holds. The room is told it holds the user, the connection's
   * current room is that room, yet the registry no longer knows it.
   */
  lemma RejoinLosesRoom(v: View, socketId: string, roomId: string, userId: string, capacity: int)
    requires 1 < capacity
    requires roomId != "" && v.currentRoom == roomId && roomId in v.rooms && v.rooms[roomId] == [userId]
    ensures var j := AfterJoin(v, socketId, roomId, userId, capacity);
      && !j.threw
      && j.view.currentRoom == roomId
      && roomId !in j.view.rooms
      && j.view.log == v.log + [Emission(ToRoom(roomId), RoomUsers(roomId, [userId])), Emission(ToSocket(socketId), RoomJoined(roomId))]
  {
    assert Without([userId], userId) == [];
    assert SetAdd([], userId) == [userId];
  }

  /**
   * A join while the current room is no longer registered (as after
   * `RejoinLosesRoom`) throws once the target room has space: the socket
   * has left its socket.io room, and nobody is added anywhere.
   */
  lemma JoinFromLostRoomThrows(v: View, socketId: string, roomId: string, userId: string, capacity: int)
    requires |(if roomId in v.rooms then v.rooms[roomId] else [])| < capacity
    requires v.currentRoom != "" && v.currentRoom != roomId && v.currentRoom !in v.rooms
    ensures var j := AfterJoin(v, socketId, roomId, userId, capacity);
      && j.threw
      && j.view.rooms == (if roomId in v.rooms then v.rooms else v.rooms[roomId := []])
      && j.view.currentRoom == v.currentRoom
      && j.view.ioRooms == v.ioRooms - {v.currentRoom}
      && j.view.log == v.log
  {
  }

  /** A message is relayed, to its room, exactly when it names the current room. */
  lemma MessageGated(v: View, roomId: string, message: string, userId: string, now: string)
    ensures AfterMessage(v, roomId, message, userId, now) != v <==> roomId == v.currentRoom
    ensures roomId == v.currentRoom ==>
      AfterMessage(v, roomId, message, userId, now).log == v.log + [Emission(ToRoom(roomId), Chat(userId, message, now))]
  {
    if roomId == v.currentRoom {
      assert |AfterMessage(v, roomId, message, userId, now).log| == |v.log| + 1;
    }
  }

  /**
   * disconnect takes the connection's user id out of its registered
   * current room; the room goes exactly when that user was its only
   * member, and otherwise the room is told who remains.
   */
  lemma DisconnectLeaves(v: View)
    requires v.currentRoom != "" && v.currentUserId != "" && v.currentRoom in v.rooms
    ensures var w := AfterDisconnect(v);
      && (v.currentRoom !in w.rooms <==> forall u | u in v.rooms[v.currentRoom] :: u == v.currentUserId)
      && (v.currentRoom in w.rooms ==>
            && v.currentUserId !in w.rooms[v.currentRoom]
            && w.log == v.log + [Emission(ToRoom(v.currentRoom), RoomUsers(v.currentRoom, w.rooms[v.currentRoom]))])
      && (v.currentRoom !in w.rooms ==> w.log == v.log)
      && forall r | r in v.rooms && r != v.currentRoom :: r in w.rooms && w.rooms[r] == v.rooms[r]
  {
    WithoutEmpty(v.rooms[v.currentRoom], v.currentUserId);
  }
}
