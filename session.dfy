/**
 * The session coordinator: the socket handlers of `SocketSetup` over the
 * room directory and the signaling store.
 *
 * One `SocketSetup` object serves every connection, so `currentRoomId` and
 * `currentUserId` are shared by all sockets. Each handler runs to the end as
 * one step; one that throws stops where it threw. What the handlers send is
 * appended to a log of emissions, the socket.io rooms a socket has joined
 * are kept as (socket, room) pairs, and the message bus as the list of
 * publications plus the subscriber's channels.
 */
module SessionCoordinator {
  import opened Common
  import opened RedisStore
  import opened RoomDirectory
  import opened Signaling

  /** Where an emission goes: one socket, a socket.io room, or everyone. */
  datatype Target = ToSocket(socketId: string) | ToRoom(room: string) | ToAll

  datatype Event =
    | RoomError(text: string)
    | RoomJoined(roomId: string, userId: string)
    | RoomUsers(roomId: string, userIds: seq<string>)
    | CreateOffer(roomId: string, userId: string)
    | OfferReceived(roomId: string, offerer: Option<string>, userId: string, userSocketId: string, offer: Option<Json>)
    | AnswerReceived(roomId: string, offererSocketId: string, userId: string, userSocketId: string, answer: Option<Json>)
    | IceCandidateReceived(candidate: Json, senderSocketId: string)
    | OffererChanged(roomId: string, newOffererId: Option<string>, newOffererSocketId: string)
    | RoomLeft(roomId: string, userId: string)
    | MessageReceived(message: string, roomId: string, userId: string)

  datatype Emission = Emission(to: Target, event: Event)

  /** The payload of a chat message on the bus: `{message, roomId, userId}`. */
  datatype ChatMessage = ChatMessage(message: string, roomId: string, userId: string)

  datatype Publication = Publication(channel: string, payload: ChatMessage)

  /** The media part of a join request. */
  datatype MediaData = MediaData(avator: string, isAudioEnabled: bool, isVideoEnabled: bool)

  /** What the room-data acknowledgement carries: the users, or a text. */
  datatype AckMessage = Users(users: seq<UserRecord>) | Text(text: string)

  datatype Ack = Ack(status: string, message: AckMessage)

  /** Everything the handlers read and change. */
  datatype SessionState = SessionState(
    db: Db,
    currentRoomId: string,
    currentUserId: string,
    subscribed: set<string>,
    ioRooms: set<(string, string)>,
    published: seq<Publication>,
    log: seq<Emission>)

  const RoomFullText := "You can't join this room"
  const NotInRoomText := "You are not in this room !!"
  /** Offers and answers live five minutes. */
  const SignalTtl: nat := 5 * 60

  /** The bus channel of a room's chat. */
  function Channel(roomId: string): (c: string)
    ensures StartsWith(c, "MESSAGE") && c[7..] == roomId
  {
    "MESSAGE" + roomId
  }

  /** JavaScript's `a !== b` between a string-or-undefined and a string-or-null. */
  predicate StrictlyDiffers(a: Option<string>, b: Option<string>) {
    !(a.Some? && b.Some? && a.value == b.value)
  }

  // ------------------------------------------------------------ join-room

  /** join-room's room setup: create the room when it does not exist. */
  function JoinPrepare(db: Db, roomId: string, now: string): (d: Db)
    ensures DoesRoomExist(d, roomId)
    ensures DoesRoomExist(db, roomId) ==> d == db
  {
    if DoesRoomExist(db, roomId) then db
    else
      CreateRoomWrites(db, roomId, NewRoom(roomId, 0, Some(now)), now);
      AfterCreateRoom(db, roomId, NewRoom(roomId, 0, Some(now)), now).db
  }

  /**
   * join-room's "leave previous room" block, as written: it leaves and
   * inspects the room being joined, not the previous one.
   */
  function LeavePreviousBlock(s: SessionState, socketId: string, roomId: string): SessionState {
    if s.currentRoomId == "" then s
    else s.(
      ioRooms := s.ioRooms - {(socketId, roomId)},
      subscribed := if GetRoomSize(s.db, roomId) == 0 then s.subscribed - {Channel(roomId)} else s.subscribed,
      currentRoomId := "")
  }

  /** One `offer-received` to the joiner per user whose socket id is not the offerer's. */
  function OfferEmissions(users: seq<UserSnapshot>, offerer: Option<string>, to: string, ev: Event): (es: seq<Emission>)
    ensures |es| <= |users|
    ensures forall i | 0 <= i < |es| :: es[i] == Emission(ToSocket(to), ev)
  {
    if users == [] then []
    else
      (if StrictlyDiffers(users[0].socketId, offerer) then [Emission(ToSocket(to), ev)] else [])
      + OfferEmissions(users[1..], offerer, to, ev)
  }

  /** The offer-received a later joiner is sent, once per other user. */
  function StoredOfferEvent(db: Db, roomId: string, userId: string, socketId: string): Event {
    OfferReceived(roomId, GetOfferer(db, roomId), userId, socketId, GetOffer(db, roomId))
  }

  /** The WebRTC part of join-room, after the announcements. */
  function JoinSignal(s: SessionState, socketId: string, roomId: string, userId: string, size: nat, rnd: real): (t: SessionState)
    requires 0.0 <= rnd < 1.0
    ensures t.(db := s.db, log := s.log) == s && s.log <= t.log
  {
    if size == 1 then
      var log := s.log + [Emission(ToSocket(socketId), CreateOffer(roomId, userId))];
      s.(db := AfterChangeOfferer(s.db, roomId, rnd).db, log := log)
    else
      var users := ExtractRoomData(s.db, roomId).users;
      s.(log := s.log + OfferEmissions(users, GetOfferer(s.db, roomId), socketId, StoredOfferEvent(s.db, roomId, userId, socketId)))
  }

  /** The record join-room writes for the joiner. */
  function Joiner(socketId: string, media: MediaData): NewUser {
    NewUser(socketId, media.isAudioEnabled, media.isVideoEnabled, media.avator)
  }

  /** The state after a successful store part: the room current, its channel subscribed, the announcements sent. */
  function Admitted(s: SessionState, socketId: string, roomId: string, userId: string, media: MediaData, now: string): SessionState {
    s.(db := AdmitStore(s.db, roomId, userId, Joiner(socketId, media), now).db,
       ioRooms := s.ioRooms + {(socketId, roomId)},
       currentRoomId := roomId,
       subscribed := s.subscribed + {Channel(roomId)},
       log := s.log + Announcements(roomId, userId))
  }

  /** join-room once the capacity check has passed. */
  function JoinAdmit(s: SessionState, socketId: string, roomId: string, userId: string, media: MediaData, now: string, rnd: real): (t: SessionState)
    requires 0.0 <= rnd < 1.0
    ensures s.log <= t.log && t.currentUserId == s.currentUserId && t.published == s.published
    ensures (socketId, roomId) in t.ioRooms && s.ioRooms <= t.ioRooms
  {
    var user := Joiner(socketId, media);
    var added := AfterAddUserToRoom(s.db, roomId, userId, user, now).db;
    if AdmitStore(s.db, roomId, userId, user, now).result.Err? then s.(db := added, ioRooms := s.ioRooms + {(socketId, roomId)})
    else JoinSignal(Admitted(s, socketId, roomId, userId, media, now), socketId, roomId, userId, GetRoomSize(added, roomId), rnd)
  }

  /** room-joined and room-users, to the room. */
  function Announcements(roomId: string, userId: string): seq<Emission> {
    [Emission(ToRoom(roomId), RoomJoined(roomId, userId)), Emission(ToRoom(roomId), RoomUsers(roomId, [userId]))]
  }

  /** The store part of an admission: add the user, then record the size. */
  function AdmitStore(db: Db, roomId: string, userId: string, user: NewUser, now: string): After {
    var added := AfterAddUserToRoom(db, roomId, userId, user, now).db;
    AfterUpdateRoomData(added, roomId, RoomUpdates(None, Some(GetRoomSize(added, roomId) + 1), None))
  }

  /** The `Event:join-room` handler. */
  function AfterJoinRoom(s: SessionState, socketId: string, roomId: string, userId: string, media: MediaData, now: string, rnd: real): (t: SessionState)
    requires 0.0 <= rnd < 1.0
    ensures s.log <= t.log
    ensures t.currentUserId == userId && t.published == s.published
  {
    var s1 := s.(currentUserId := userId, db := JoinPrepare(s.db, roomId, now));
    if |ExtractRoomData(s1.db, roomId).users| >= 2 then
      s1.(log := s1.log + [Emission(ToSocket(socketId), RoomError(RoomFullText))])
    else
      JoinAdmit(LeavePreviousBlock(s1, socketId, roomId), socketId, roomId, userId, media, now, rnd)
  }

  // ----------------------------------------------------------- leave-room

  /** leave-room after removeUserFromRoom: re-elect when the user is the stored offerer. */
  function LeaveSignal(s: SessionState, socketId: string, roomId: string, userId: string, rnd: real): (t: SessionState)
    requires 0.0 <= rnd < 1.0
    ensures t.(db := s.db, log := s.log) == s && s.log <= t.log
  {
    var closing := Closing(roomId, userId);
    if GetOfferer(s.db, roomId) == Some(userId) then
      var e := AfterChangeOfferer(s.db, roomId, rnd);
      if e.thrown.Some? then s
      else
        var changed := Emission(ToRoom(roomId), OffererChanged(roomId, GetOfferer(e.db, roomId), socketId));
        s.(db := e.db, log := s.log + [changed] + closing)
    else s.(log := s.log + closing)
  }

  /** The `Event:leave-room` handler. */
  function AfterLeaveRoom(s: SessionState, socketId: string, roomId: string, userId: string, rnd: real): (t: SessionState)
    requires 0.0 <= rnd < 1.0
    ensures s.log <= t.log
    ensures t.currentRoomId == s.currentRoomId && t.currentUserId == s.currentUserId
    ensures t.subscribed == s.subscribed && t.published == s.published && t.ioRooms <= s.ioRooms
  {
    if !IsUserInRoom(s.db, roomId, userId) || !DoesRoomExist(s.db, roomId) then
      s.(log := s.log + [Emission(ToSocket(socketId), RoomError(NotInRoomText))])
    else
      var removed := AfterRemoveUserFromRoom(s.db, roomId, userId);
      var s1 := s.(ioRooms := s.ioRooms - {(socketId, userId)}, db := removed.db);
      if removed.result.Err? then s1
      else LeaveSignal(s1, socketId, roomId, userId, rnd)
  }

  // ------------------------------------------------------- the relays

  /** The `Event:answer` handler: store, read back, forward to the offerer. */
  function AfterAnswer(s: SessionState, roomId: string, offererSocketId: string, userId: string, userSocketId: string, answer: Json): (t: SessionState)
    ensures t.(db := s.db, log := s.log) == s
    ensures s.log <= t.log && |t.log| == |s.log| + 1 && t.log[|s.log|].to == ToSocket(offererSocketId)
  {
    var db := s.db.HSet(AnswerKey(roomId), userId, answer).Expire(AnswerKey(roomId), SignalTtl);
    var forwarded := AnswerReceived(roomId, offererSocketId, userId, userSocketId, GetAnswer(db, roomId, userId));
    s.(db := db, log := s.log + [Emission(ToSocket(offererSocketId), forwarded)])
  }

  /** The subscriber's filter: re-emit only a message on its own room's channel. */
  function AfterBusMessage(s: SessionState, channel: string, payload: ChatMessage): (t: SessionState)
    ensures t.(log := s.log) == s && s.log <= t.log && |t.log| <= |s.log| + 1
  {
    if channel == Channel(payload.roomId) then
      s.(log := s.log + [Emission(ToAll, MessageReceived(payload.message, payload.roomId, payload.userId))])
    else s
  }

  // ---------------------------------------------------- the handler object

  /** `SocketSetup`: one object, its fields shared by every connection. */
  class SocketSetup {
    const rooms: RoomManager
    const signaling: SignalingServiceManager
    var currentRoomId: string
    var currentUserId: string
    var subscribed: set<string>
    var ioRooms: set<(string, string)>
    var published: seq<Publication>
    var log: seq<Emission>

    /** Both managers work on the same Redis client. */
    predicate Wired() {
      signaling.redis == rooms.redis
    }

    function State(): SessionState
      reads this, rooms.redis
    {
      SessionState(rooms.redis.db, currentRoomId, currentUserId, subscribed, ioRooms, published, log)
    }

    constructor(rooms: RoomManager, signaling: SignalingServiceManager)
      requires signaling.redis == rooms.redis
      ensures Wired() && this.rooms == rooms && this.signaling == signaling
      ensures State() == SessionState(rooms.redis.db, "", "", {}, {}, [], [])
    {
      this.rooms := rooms;
      this.signaling := signaling;
      currentRoomId := "";
      currentUserId := "";
      subscribed := {};
      ioRooms := {};
      published := [];
      log := [];
    }

    /** `Event:offer`: store the offer for five minutes. */
    method Offer(roomId: string, userId: string, offer: Json)
      requires Wired()
      modifies rooms.redis
      ensures State() == old(State()).(db := old(rooms.redis.db).SetStr(OfferKey(roomId), offer, Some(SignalTtl)))
    {
      signaling.AddOffer(roomId, offer, SignalTtl);
    }

    /** `Event:answer` */
    method Answer(roomId: string, offererSocketId: string, userId: string, userSocketId: string, answer: Json)
      requires Wired()
      modifies this, rooms.redis
      ensures State() == AfterAnswer(old(State()), roomId, offererSocketId, userId, userSocketId, answer)
    {
      signaling.AddAnswer(roomId, userId, answer, SignalTtl);
      var stored := GetAnswer(rooms.redis.db, roomId, userId);
      log := log + [Emission(ToSocket(offererSocketId), AnswerReceived(roomId, offererSocketId, userId, userSocketId, stored))];
    }

    /** `Event:exchangeICEcandidate`: forwarded to the receiver, never stored. */
    method ExchangeIceCandidate(candidate: Json, roomId: string, senderSocketId: string, receiverSocketId: string, isOfferer: bool)
      modifies this
      ensures State() == old(State()).(log := old(log) + [Emission(ToSocket(receiverSocketId), IceCandidateReceived(candidate, senderSocketId))])
    {
      log := log + [Emission(ToSocket(receiverSocketId), IceCandidateReceived(candidate, senderSocketId))];
    }

    /** `Event:changeOfferer`: ask the named socket to create an offer. */
    method ChangeOffererRelay(roomId: string, newOffererId: string, newOffererSocketId: string)
      modifies this
      ensures State() == old(State()).(log := old(log) + [Emission(ToSocket(newOffererSocketId), CreateOffer(roomId, newOffererId))])
    {
      log := log + [Emission(ToSocket(newOffererSocketId), CreateOffer(roomId, newOffererId))];
    }

    /** `Event:message`: publish `{message, roomId, userId}` on the room's channel. */
    method Message(message: string, roomId: string, userId: string)
      modifies this
      ensures State() == old(State()).(published := old(published) + [Publication(Channel(roomId), ChatMessage(message, roomId, userId))])
    {
      var data := ChatMessage(message, roomId, userId);
      published := published + [Publication(Channel(roomId), data)];
    }

    /** The subscriber's `message` listener. */
    method OnBusMessage(channel: string, payload: ChatMessage)
      modifies this
      ensures State() == AfterBusMessage(old(State()), channel, payload)
    {
      if channel == Channel(payload.roomId) {
        log := log + [Emission(ToAll, MessageReceived(payload.message, payload.roomId, payload.userId))];
      }
    }

    /** `Event:room-data`: the acknowledgement; nothing changes. */
    method RoomData(roomId: string) returns (ack: Ack)
      ensures ack.status == "ok"
      ensures ack.message.Text? <==> !DoesRoomExist(rooms.redis.db, roomId) && rooms.redis.db.SCard(UsersKey(roomId)) > 0
      ensures ack.message.Text? ==> ack.message.text == "Room does not exist"
      ensures ack.message.Users? ==> ack.message.users == GetRoomUsers(rooms.redis.db, roomId)
    {
      var isRoom := DoesRoomExist(rooms.redis.db, roomId);
      var isEmpty := IsRoomEmpty(rooms.redis.db, roomId);
      if isRoom || isEmpty {
        ack := Ack("ok", Users(GetRoomUsers(rooms.redis.db, roomId)));
      } else {
        ack := Ack("ok", Text("Room does not exist"));
      }
    }

    /** The for-loop of join-room: one offer-received per other user. */
    method SendStoredOffer(users: seq<UserSnapshot>, offerer: Option<string>, socketId: string, ev: Event)
      modifies this`log
      ensures log == old(log) + OfferEmissions(users, offerer, socketId, ev)
    {
      var i := 0;
      while i < |users|
        invariant 0 <= i <= |users|
        invariant log == old(log) + OfferEmissions(users[..i], offerer, socketId, ev)
      {
        OfferEmissionsStep(users, i, offerer, socketId, ev);
        if StrictlyDiffers(users[i].socketId, offerer) {
          log := log + [Emission(ToSocket(socketId), ev)];
        }
        i := i + 1;
      }
      assert users[..i] == users;
    }

    /** `Event:join-room` */
    method JoinRoom(socketId: string, roomId: string, userId: string, userData: MediaData, now: string, rnd: real)
      requires Wired() && 0.0 <= rnd < 1.0
      modifies this, rooms.redis
      ensures State() == AfterJoinRoom(old(State()), socketId, roomId, userId, userData, now, rnd)
    {
      ghost var s0 := State();
      currentUserId := userId;
      var roomExists := DoesRoomExist(rooms.redis.db, roomId);
      if !roomExists {
        var created := rooms.CreateRoom(roomId, NewRoom(roomId, 0, Some(now)), now);
      }
      ghost var s1 := s0.(currentUserId := userId, db := JoinPrepare(s0.db, roomId, now));
      assert State() == s1;
      var roomSize := |ExtractRoomData(rooms.redis.db, roomId).users|;
      if roomSize >= 2 {
        log := log + [Emission(ToSocket(socketId), RoomError(RoomFullText))];
        return;
      }
      LeavePrevious(socketId, roomId);
      Admit(socketId, roomId, userId, userData, now, rnd);
    }

    /** join-room's "leave previous room" block. */
    method LeavePrevious(socketId: string, roomId: string)
      modifies this
      ensures State() == LeavePreviousBlock(old(State()), socketId, roomId)
    {
      if currentRoomId != "" {
        ioRooms := ioRooms - {(socketId, roomId)};
        var sizeNow := GetRoomSize(rooms.redis.db, roomId);
        if sizeNow == 0 {
          subscribed := subscribed - {Channel(roomId)};
        }
        currentRoomId := "";
      }
    }

    /** join-room from `socket.join(roomId)` on. */
    method Admit(socketId: string, roomId: string, userId: string, userData: MediaData, now: string, rnd: real)
      requires Wired() && 0.0 <= rnd < 1.0
      modifies this, rooms.redis
      ensures State() == JoinAdmit(old(State()), socketId, roomId, userId, userData, now, rnd)
    {
      ghost var s0 := State();
      ioRooms := ioRooms + {(socketId, roomId)};
      var user := Joiner(socketId, userData);
      var added := rooms.AddUserToRoom(roomId, userId, user, now);
      ghost var db1 := rooms.redis.db;
      assert db1 == AfterAddUserToRoom(s0.db, roomId, userId, user, now).db;
      var roomSize := GetRoomSize(rooms.redis.db, roomId);
      var updated := rooms.UpdateRoomData(roomId, RoomUpdates(None, Some(roomSize + 1), None));
      ghost var a := AfterUpdateRoomData(db1, roomId, RoomUpdates(None, Some(roomSize + 1), None));
      assert AdmitStore(s0.db, roomId, userId, user, now) == a;
      assert rooms.redis.db == a.db && updated == a.result;
      if updated.Err? {
        // the handler's promise rejects here
        return;
      }
      currentRoomId := roomId;
      subscribed := subscribed + {Channel(roomId)};
      log := log + Announcements(roomId, userId);
      assert State() == Admitted(s0, socketId, roomId, userId, userData, now);
      Signal(socketId, roomId, userId, roomSize, rnd);
    }

    /** join-room's WebRTC step: elect the first joiner, or hand a later one the stored offer. */
    method Signal(socketId: string, roomId: string, userId: string, roomSize: nat, rnd: real)
      requires Wired() && 0.0 <= rnd < 1.0
      modifies this, rooms.redis
      ensures State() == JoinSignal(old(State()), socketId, roomId, userId, roomSize, rnd)
    {
      if roomSize == 1 {
        log := log + [Emission(ToSocket(socketId), CreateOffer(roomId, userId))];
        var thrown := signaling.ChangeOfferer(roomId, rooms, rnd);
      } else {
        var roomData := ExtractRoomData(rooms.redis.db, roomId);
        var offerer := GetOfferer(rooms.redis.db, roomId);
        var offer := GetOffer(rooms.redis.db, roomId);
        SendStoredOffer(roomData.users, offerer, socketId, OfferReceived(roomId, offerer, userId, socketId, offer));
      }
    }

    /** `Event:leave-room` */
    method LeaveRoom(socketId: string, roomId: string, userId: string, rnd: real)
      requires Wired() && 0.0 <= rnd < 1.0
      modifies this, rooms.redis
      ensures State() == AfterLeaveRoom(old(State()), socketId, roomId, userId, rnd)
    {
      var isUserInRoom := IsUserInRoom(rooms.redis.db, roomId, userId);
      var isRoom := DoesRoomExist(rooms.redis.db, roomId);
      if !isUserInRoom || !isRoom {
        log := log + [Emission(ToSocket(socketId), RoomError(NotInRoomText))];
        return;
      }
      ioRooms := ioRooms - {(socketId, userId)};
      var removed := rooms.RemoveUserFromRoom(roomId, userId);
      if removed.Err? {
        return;
      }
      var offerer := GetOfferer(rooms.redis.db, roomId);
      if offerer == Some(userId) {
        var thrown := signaling.ChangeOfferer(roomId, rooms, rnd);
        if thrown.Some? {
          return;
        }
        var newOffererId := GetOfferer(rooms.redis.db, roomId);
        log := log + [Emission(ToRoom(roomId), OffererChanged(roomId, newOffererId, socketId))];
      }
      log := log + Closing(roomId, userId);
    }
  }

  // ------------------------------------------------------------- lemmas

  /** The offer emissions of two runs of users are those of each run, in order. */
  lemma {:induction false} OfferEmissionsSplit(a: seq<UserSnapshot>, b: seq<UserSnapshot>, offerer: Option<string>, to: string, ev: Event)
    ensures OfferEmissions(a + b, offerer, to, ev) == OfferEmissions(a, offerer, to, ev) + OfferEmissions(b, offerer, to, ev)
  {
    if a == [] {
      assert a + b == b;
    } else {
      assert (a + b)[0] == a[0] && (a + b)[1..] == a[1..] + b;
      OfferEmissionsSplit(a[1..], b, offerer, to, ev);
    }
  }

  /** One more user adds at most its own offer to the emissions so far. */
  lemma OfferEmissionsStep(users: seq<UserSnapshot>, i: nat, offerer: Option<string>, to: string, ev: Event)
    requires i < |users|
    ensures OfferEmissions(users[..i + 1], offerer, to, ev)
         == OfferEmissions(users[..i], offerer, to, ev)
            + (if StrictlyDiffers(users[i].socketId, offerer) then [Emission(ToSocket(to), ev)] else [])
  {
    OfferEmissionsSplit(users[..i], [users[i]], offerer, to, ev);
    assert users[..i + 1] == users[..i] + [users[i]];
    assert [users[i]][1..] == [];
  }

  /**
   * A joiner is sent one offer per user when no user's socket id is the
   * pointer, and none when every user's is.
   */
  lemma {:induction false} OfferEmissionsCount(users: seq<UserSnapshot>, offerer: Option<string>, to: string, ev: Event)
    ensures (forall u | u in users :: StrictlyDiffers(u.socketId, offerer)) ==>
      |OfferEmissions(users, offerer, to, ev)| == |users|
    ensures (forall u | u in users :: !StrictlyDiffers(u.socketId, offerer)) ==>
      OfferEmissions(users, offerer, to, ev) == []
  {
    if users != [] {
      assert forall u | u in users[1..] :: u in users;
      OfferEmissionsCount(users[1..], offerer, to, ev);
    }
  }

  // ------------------------------------------------------- key injectivity

  lemma UsersKeyInjective(a: string, b: string)
    requires UsersKey(a) == UsersKey(b)
    ensures a == b
  {
    assert RoomKey(a) == UsersKey(a)[..|UsersKey(a)| - 6];
    assert RoomKey(b) == UsersKey(b)[..|UsersKey(b)| - 6];
  }

  lemma UserKeySameUser(a: string, b: string, userId: string)
    requires UserKey(a, userId) == UserKey(b, userId)
    ensures a == b
  {
  }

  lemma ChannelInjective(a: string, b: string)
    requires Channel(a) == Channel(b)
    ensures a == b
  {
  }

  // ------------------------------------------------------------ join-room

  /** The directory keys outside `changed` read the same in both stores. */
  ghost predicate DirectoryUnchangedExcept(a: Db, b: Db, changed: iset<string>) {
    forall k | DirectoryKey(k) && k !in changed :: a.At(k) == b.At(k)
  }

  /**
   * join-room's setup leaves an existing room alone; an absent one is
   * created with its own id as name, size "0", never active, created now,
   * and indexed in `activeRooms`. Its membership set is not touched.
   */
  lemma JoinCreatesAbsentRoom(db: Db, roomId: string, now: string)
    ensures DoesRoomExist(db, roomId) ==> JoinPrepare(db, roomId, now) == db
    ensures !DoesRoomExist(db, roomId) ==>
      var d := JoinPrepare(db, roomId, now);
      && DoesRoomExist(d, roomId)
      && GetRoomData(d, roomId) == Some(RoomData(Some(roomId), Some("0"), false, Some(now)))
      && roomId in d.MembersAt(ActiveRoomsKey)
    ensures SameExcept(db, JoinPrepare(db, roomId, now), iset{RoomKey(roomId), ActiveRoomsKey})
  {
    CreateRoomOutcome(db, roomId, NewRoom(roomId, 0, Some(now)), now);
    ZeroString();
  }

  /** The WebRTC step of join-room touches no directory key and only appends to the log. */
  lemma JoinSignalKeepsDirectory(s: SessionState, socketId: string, roomId: string, userId: string, size: nat, rnd: real)
    requires 0.0 <= rnd < 1.0
    ensures var t := JoinSignal(s, socketId, roomId, userId, size, rnd);
      && SameDirectory(s.db, t.db)
      && t.(db := s.db, log := s.log) == s
      && |s.log| <= |t.log| && t.log[..|s.log|] == s.log
  {
    if size == 1 {
      ChangeOffererKeepsDirectory(s.db, roomId, rnd);
    }
  }

  /**
   * join-room refused for a full room: the only emission is the error to
   * the caller, the previous room and subscriptions are kept, and no
   * membership changes (an absent room is still created first).
   */
  lemma JoinRefusedWhenFull(s: SessionState, socketId: string, roomId: string, userId: string, media: MediaData, now: string, rnd: real)
    requires 0.0 <= rnd < 1.0
    requires |ExtractRoomData(JoinPrepare(s.db, roomId, now), roomId).users| >= 2
    ensures var t := AfterJoinRoom(s, socketId, roomId, userId, media, now, rnd);
      && t.log == s.log + [Emission(ToSocket(socketId), RoomError(RoomFullText))]
      && t.currentRoomId == s.currentRoomId && t.currentUserId == userId
      && t.subscribed == s.subscribed && t.ioRooms == s.ioRooms
      && SameExcept(s.db, t.db, iset{RoomKey(roomId), ActiveRoomsKey})
      && (DoesRoomExist(s.db, roomId) ==> t.db == s.db)
  {
    JoinCreatesAbsentRoom(s.db, roomId, now);
  }

  /** The size field records the cardinality plus one. */
  predicate SizeRecordedPlusOne(db: Db, roomId: string) {
    db.HGet(RoomKey(roomId), "roomSize") == Some(IntToString(db.SCard(UsersKey(roomId)) + 1))
  }

  /** The directory keys an admission may change. */
  function AdmitKeys(roomId: string, userId: string): iset<string> {
    iset{RoomKey(roomId), ActiveRoomsKey, UserKey(roomId, userId), UsersKey(roomId)}
  }

  /**
   * On a room with metadata the admission succeeds; the user is a member
   * whose record holds the given data, the membership set is as the add
   * made it, the size field holds the cardinality plus one, and no key
   * outside the admission's four changes.
   */
  lemma AdmitStoreOutcome(db: Db, roomId: string, userId: string, user: NewUser, now: string)
    requires GetRoomData(db, roomId).Some?
    ensures var a := AdmitStore(db, roomId, userId, user, now);
      && a.result == Ok(true)
      && a.db.MembersAt(UsersKey(roomId)) == AfterAddUserToRoom(db, roomId, userId, user, now).db.MembersAt(UsersKey(roomId))
      && userId in a.db.MembersAt(UsersKey(roomId))
      && a.db.HashAt(UserKey(roomId, userId)) == db.HashAt(UserKey(roomId, userId)) + UserFields(user, now)
      && SizeRecordedPlusOne(a.db, roomId)
      && SameExcept(db, a.db, AdmitKeys(roomId, userId))
  {
    AddUserJoins(db, roomId, userId, user, now);
    AdmitStoreUpdates(db, roomId, userId, user, now);
    AdmitStoreFrame(db, roomId, userId, user, now);
  }

  /** addUserToRoom leaves the user in the membership set with the given data over its record. */
  lemma AddUserJoins(db: Db, roomId: string, userId: string, user: NewUser, now: string)
    ensures var added := AfterAddUserToRoom(db, roomId, userId, user, now).db;
      && userId in added.MembersAt(UsersKey(roomId))
      && added.HashAt(UserKey(roomId, userId)) == db.HashAt(UserKey(roomId, userId)) + UserFields(user, now)
  {
    AddUserToRoomStores(db, roomId, userId, user, now);
  }

  /** The store part changes no key outside the admission's four. */
  lemma AdmitStoreFrame(db: Db, roomId: string, userId: string, user: NewUser, now: string)
    requires GetRoomData(db, roomId).Some?
    ensures SameExcept(db, AdmitStore(db, roomId, userId, user, now).db, AdmitKeys(roomId, userId))
  {
    var added := AfterAddUserToRoom(db, roomId, userId, user, now).db;
    var x := iset{ActiveRoomsKey, UserKey(roomId, userId), UsersKey(roomId)};
    AddUserToRoomFrame(db, roomId, userId, user, now);
    UpdateRoomDataFrame(added, roomId, RoomUpdates(None, Some(GetRoomSize(added, roomId) + 1), None));
    SameExceptCompose(db, added, AdmitStore(db, roomId, userId, user, now).db, x, iset{RoomKey(roomId)});
    assert AdmitKeys(roomId, userId) == x + iset{RoomKey(roomId)};
  }

  /** After the add, the store part's size update succeeds and writes only the metadata. */
  lemma AdmitStoreUpdates(db: Db, roomId: string, userId: string, user: NewUser, now: string)
    requires GetRoomData(db, roomId).Some?
    ensures var added := AfterAddUserToRoom(db, roomId, userId, user, now).db;
      var a := AdmitStore(db, roomId, userId, user, now);
      && a.result == Ok(true)
      && SameExcept(added, a.db, iset{RoomKey(roomId)})
      && a.db.MembersAt(UsersKey(roomId)) == added.MembersAt(UsersKey(roomId))
      && a.db.HashAt(UserKey(roomId, userId)) == added.HashAt(UserKey(roomId, userId))
      && SizeRecordedPlusOne(a.db, roomId)
  {
    var added := AfterAddUserToRoom(db, roomId, userId, user, now).db;
    var size := added.SCard(UsersKey(roomId));
    var a := AfterUpdateRoomData(added, roomId, RoomUpdates(None, Some(size + 1), None));
    assert AdmitStore(db, roomId, userId, user, now) == a;
    AddKeepsRoom(db, roomId, userId, user, now);
    UpdateRoomSizeWrites(added, roomId, size + 1);
    DirectoryKeysDistinct(roomId, roomId, userId);
    SameExceptAt(added, a.db, iset{RoomKey(roomId)}, UsersKey(roomId));
    SameExceptAt(added, a.db, iset{RoomKey(roomId)}, UserKey(roomId, userId));
    SizeRecorded(a.db, roomId, size);
  }

  lemma SizeRecorded(db: Db, roomId: string, size: int)
    requires db.SCard(UsersKey(roomId)) == size
    requires db.HGet(RoomKey(roomId), "roomSize") == Some(IntToString(size + 1))
    ensures SizeRecordedPlusOne(db, roomId)
  {
  }



  /** addUserToRoom leaves the room's metadata as it was. */
  lemma AddKeepsRoom(db: Db, roomId: string, userId: string, user: NewUser, now: string)
    ensures var added := AfterAddUserToRoom(db, roomId, userId, user, now).db;
      && GetRoomData(added, roomId) == GetRoomData(db, roomId)
      && (GetRoomData(db, roomId).Some? ==> DoesRoomExist(added, roomId))
  {
    var added := AfterAddUserToRoom(db, roomId, userId, user, now).db;
    AddUserToRoomStores(db, roomId, userId, user, now);
    DirectoryKeysDistinct(roomId, roomId, userId);
    assert added.At(RoomKey(roomId)) == db.At(RoomKey(roomId));
    assert added.HashAt(RoomKey(roomId)) == db.HashAt(RoomKey(roomId));
  }

  /** A store that changes nothing outside `changed` changes no directory key outside it either. */
  lemma SameExceptKeepsDirectory(a: Db, b: Db, changed: iset<string>)
    requires SameExcept(a, b, changed)
    ensures DirectoryUnchangedExcept(a, b, changed)
  {
  }

  /** A user record read from its hash: the socket id is the stored one. */
  lemma ReadUserSocket(db: Db, roomId: string, userId: string, user: NewUser, now: string)
    requires exists h :: db.HashAt(UserKey(roomId, userId)) == h + UserFields(user, now)
    ensures ReadUser(db, roomId, userId).socketId == Some(user.socketId)
  {
    var h :| db.HashAt(UserKey(roomId, userId)) == h + UserFields(user, now);
    assert (h + UserFields(user, now))["socketId"] == user.socketId;
  }

  /** With metadata, the admission is the WebRTC step run on the admitted state. */
  lemma JoinAdmitSignals(s: SessionState, socketId: string, roomId: string, userId: string, media: MediaData, now: string, rnd: real)
    requires 0.0 <= rnd < 1.0
    requires GetRoomData(s.db, roomId).Some?
    ensures var added := AfterAddUserToRoom(s.db, roomId, userId, Joiner(socketId, media), now).db;
      JoinAdmit(s, socketId, roomId, userId, media, now, rnd)
      == JoinSignal(Admitted(s, socketId, roomId, userId, media, now), socketId, roomId, userId, GetRoomSize(added, roomId), rnd)
  {
    AdmitStoreOutcome(s.db, roomId, userId, Joiner(socketId, media), now);
  }

  /** Two stores that agree on a directory key read the same members, hash and fields there. */
  lemma SameDirectoryAt(a: Db, b: Db, k: string)
    requires SameDirectory(a, b) && DirectoryKey(k)
    ensures a.MembersAt(k) == b.MembersAt(k) && a.SCard(k) == b.SCard(k) && a.HashAt(k) == b.HashAt(k)
    ensures forall f :: a.HGet(k, f) == b.HGet(k, f)
  {
    assert a.At(k) == b.At(k);
  }

  /**
   * What a successful admission leaves: the user in the membership set with
   * the caller's socket id, the room's size recorded as the cardinality
   * after the add plus one, the joiner's room current and its channel
   * subscribed, and the two announcements right after the old log.
   */
  lemma AdmitOutcome(s: SessionState, socketId: string, roomId: string, userId: string, media: MediaData, now: string, rnd: real)
    requires 0.0 <= rnd < 1.0
    requires GetRoomData(s.db, roomId).Some?
    ensures var t := JoinAdmit(s, socketId, roomId, userId, media, now, rnd);
      && t.currentRoomId == roomId && t.currentUserId == s.currentUserId
      && Channel(roomId) in t.subscribed
      && (socketId, roomId) in t.ioRooms
      && userId in t.db.MembersAt(UsersKey(roomId))
      && ReadUser(t.db, roomId, userId).socketId == Some(socketId)
      && SizeRecordedPlusOne(t.db, roomId)
      && |t.log| >= |s.log| + 2
      && t.log[..|s.log| + 2] == s.log + Announcements(roomId, userId)
      && DirectoryUnchangedExcept(s.db, t.db, AdmitKeys(roomId, userId))
  {
    AdmitSession(s, socketId, roomId, userId, media, now, rnd);
    AdmitDirectory(s, socketId, roomId, userId, media, now, rnd);
  }

  /** A successful admission makes the room current, subscribes its channel and announces the joiner. */
  lemma AdmitSession(s: SessionState, socketId: string, roomId: string, userId: string, media: MediaData, now: string, rnd: real)
    requires 0.0 <= rnd < 1.0
    requires GetRoomData(s.db, roomId).Some?
    ensures var t := JoinAdmit(s, socketId, roomId, userId, media, now, rnd);
      && t.currentRoomId == roomId && t.currentUserId == s.currentUserId
      && Channel(roomId) in t.subscribed
      && (socketId, roomId) in t.ioRooms
      && |t.log| >= |s.log| + 2
      && t.log[..|s.log| + 2] == s.log + Announcements(roomId, userId)
  {
    var s2 := Admitted(s, socketId, roomId, userId, media, now);
    var size := GetRoomSize(AfterAddUserToRoom(s.db, roomId, userId, Joiner(socketId, media), now).db, roomId);
    JoinAdmitSignals(s, socketId, roomId, userId, media, now, rnd);
    JoinSignalKeepsDirectory(s2, socketId, roomId, userId, size, rnd);
  }

  /**
   * A successful admission leaves the user a member at the caller's socket
   * with the size recorded, and no other directory key changed.
   */
  lemma AdmitDirectory(s: SessionState, socketId: string, roomId: string, userId: string, media: MediaData, now: string, rnd: real)
    requires 0.0 <= rnd < 1.0
    requires GetRoomData(s.db, roomId).Some?
    ensures var t := JoinAdmit(s, socketId, roomId, userId, media, now, rnd);
      && userId in t.db.MembersAt(UsersKey(roomId))
      && ReadUser(t.db, roomId, userId).socketId == Some(socketId)
      && SizeRecordedPlusOne(t.db, roomId)
      && DirectoryUnchangedExcept(s.db, t.db, AdmitKeys(roomId, userId))
  {
    var user := Joiner(socketId, media);
    var s2 := Admitted(s, socketId, roomId, userId, media, now);
    var size := GetRoomSize(AfterAddUserToRoom(s.db, roomId, userId, user, now).db, roomId);
    JoinAdmitSignals(s, socketId, roomId, userId, media, now, rnd);
    AdmitStoreOutcome(s.db, roomId, userId, user, now);
    SameExceptKeepsDirectory(s.db, s2.db, AdmitKeys(roomId, userId));
    SignalKeepsAdmission(s.db, s2, socketId, roomId, userId, user, now, size, rnd);
  }

  /** The WebRTC step keeps what the store part of an admission left in the directory. */
  lemma SignalKeepsAdmission(db: Db, s2: SessionState, socketId: string, roomId: string, userId: string, user: NewUser, now: string, size: nat, rnd: real)
    requires 0.0 <= rnd < 1.0 && user.socketId == socketId
    requires userId in s2.db.MembersAt(UsersKey(roomId))
    requires s2.db.HashAt(UserKey(roomId, userId)) == db.HashAt(UserKey(roomId, userId)) + UserFields(user, now)
    requires SizeRecordedPlusOne(s2.db, roomId)
    requires DirectoryUnchangedExcept(db, s2.db, AdmitKeys(roomId, userId))
    ensures var t := JoinSignal(s2, socketId, roomId, userId, size, rnd);
      && userId in t.db.MembersAt(UsersKey(roomId))
      && ReadUser(t.db, roomId, userId).socketId == Some(socketId)
      && SizeRecordedPlusOne(t.db, roomId)
      && DirectoryUnchangedExcept(db, t.db, AdmitKeys(roomId, userId))
  {
    var t := JoinSignal(s2, socketId, roomId, userId, size, rnd);
    JoinSignalKeepsDirectory(s2, socketId, roomId, userId, size, rnd);
    SameDirectoryAt(s2.db, t.db, UsersKey(roomId));
    SameDirectoryAt(s2.db, t.db, UserKey(roomId, userId));
    ReadUserSocket(t.db, roomId, userId, user, now);
    SizeRecordKept(s2.db, t.db, roomId);
    UnchangedThenSame(db, s2.db, t.db, AdmitKeys(roomId, userId));
  }

  /** Stores that agree on the directory agree on whether the size is recorded so. */
  lemma SizeRecordKept(a: Db, b: Db, roomId: string)
    requires SameDirectory(a, b)
    ensures SizeRecordedPlusOne(a, roomId) == SizeRecordedPlusOne(b, roomId)
  {
    SameDirectoryAt(a, b, UsersKey(roomId));
    SameDirectoryAt(a, b, RoomKey(roomId));
  }

  /** Directory changes only inside `changed`, then none, are changes only inside `changed`. */
  lemma UnchangedThenSame(a: Db, b: Db, c: Db, changed: iset<string>)
    requires DirectoryUnchangedExcept(a, b, changed) && SameDirectory(b, c)
    ensures DirectoryUnchangedExcept(a, c, changed)
  {
  }

  /** The state join-room's admission starts from. */
  function JoinEntry(s: SessionState, socketId: string, roomId: string, userId: string, now: string): SessionState {
    LeavePreviousBlock(s.(currentUserId := userId, db := JoinPrepare(s.db, roomId, now)), socketId, roomId)
  }

  /** Past the capacity check, join-room is its admission. */
  lemma JoinIsAdmit(s: SessionState, socketId: string, roomId: string, userId: string, media: MediaData, now: string, rnd: real)
    requires 0.0 <= rnd < 1.0
    requires |ExtractRoomData(JoinPrepare(s.db, roomId, now), roomId).users| < 2
    ensures AfterJoinRoom(s, socketId, roomId, userId, media, now, rnd)
            == JoinAdmit(JoinEntry(s, socketId, roomId, userId, now), socketId, roomId, userId, media, now, rnd)
    ensures JoinEntry(s, socketId, roomId, userId, now).db == JoinPrepare(s.db, roomId, now)
    ensures JoinEntry(s, socketId, roomId, userId, now).log == s.log
    ensures JoinEntry(s, socketId, roomId, userId, now).currentUserId == userId
    ensures s.ioRooms - {(socketId, roomId)} <= JoinEntry(s, socketId, roomId, userId, now).ioRooms
  {
  }

  /**
   * A successful join-room: the admission's outcome, reached whenever the
   * room is not full and has metadata once set up.
   */
  lemma JoinAdmits(s: SessionState, socketId: string, roomId: string, userId: string, media: MediaData, now: string, rnd: real)
    requires 0.0 <= rnd < 1.0
    requires |ExtractRoomData(JoinPrepare(s.db, roomId, now), roomId).users| < 2
    requires GetRoomData(JoinPrepare(s.db, roomId, now), roomId).Some?
    ensures var t := AfterJoinRoom(s, socketId, roomId, userId, media, now, rnd);
      && t.currentRoomId == roomId && t.currentUserId == userId
      && Channel(roomId) in t.subscribed
      && userId in t.db.MembersAt(UsersKey(roomId))
      && ReadUser(t.db, roomId, userId).socketId == Some(socketId)
      && SizeRecordedPlusOne(t.db, roomId)
      && |t.log| >= |s.log| + 2
      && t.log[..|s.log| + 2] == s.log + Announcements(roomId, userId)
  {
    JoinIsAdmit(s, socketId, roomId, userId, media, now, rnd);
    AdmitOutcome(JoinEntry(s, socketId, roomId, userId, now), socketId, roomId, userId, media, now, rnd);
  }

  /**
   * An admission changes no directory key outside its own four and takes
   * no socket out of a socket.io room, whether or not the room has
   * metadata.
   */
  lemma JoinAdmitFrame(s: SessionState, socketId: string, roomId: string, userId: string, media: MediaData, now: string, rnd: real)
    requires 0.0 <= rnd < 1.0
    ensures var t := JoinAdmit(s, socketId, roomId, userId, media, now, rnd);
      && DirectoryUnchangedExcept(s.db, t.db, AdmitKeys(roomId, userId))
      && s.ioRooms <= t.ioRooms
  {
    if GetRoomData(s.db, roomId).Some? {
      AdmitOutcome(s, socketId, roomId, userId, media, now, rnd);
      var s2 := Admitted(s, socketId, roomId, userId, media, now);
      var size := GetRoomSize(AfterAddUserToRoom(s.db, roomId, userId, Joiner(socketId, media), now).db, roomId);
      JoinAdmitSignals(s, socketId, roomId, userId, media, now, rnd);
      JoinSignalKeepsDirectory(s2, socketId, roomId, userId, size, rnd);
    } else {
      AdmitStoreRefused(s.db, roomId, userId, Joiner(socketId, media), now);
    }
  }

  /** Without metadata the store part throws once the user is added; the add alone stays. */
  lemma AdmitStoreRefused(db: Db, roomId: string, userId: string, user: NewUser, now: string)
    requires GetRoomData(db, roomId).None?
    ensures AdmitStore(db, roomId, userId, user, now).result.Err?
    ensures SameExcept(db, AfterAddUserToRoom(db, roomId, userId, user, now).db, AdmitKeys(roomId, userId))
  {
    var added := AfterAddUserToRoom(db, roomId, userId, user, now).db;
    AddUserToRoomStores(db, roomId, userId, user, now);
    AddKeepsRoom(db, roomId, userId, user, now);
    UpdateRoomDataOutcome(added, roomId, RoomUpdates(None, Some(GetRoomSize(added, roomId) + 1), None));
  }


  /**
   * The previous room's keys are neither the joined room's nor the
   * activeRooms index, unless the joined room is named after the previous
   * room's membership key.
   */
  lemma PreviousKeysOutside(prev: string, roomId: string, userId: string)
    requires prev != roomId && roomId != prev + ":users"
    ensures DirectoryKey(UsersKey(prev)) && DirectoryKey(UserKey(prev, userId))
    ensures UsersKey(prev) !in AdmitKeys(roomId, userId) && UserKey(prev, userId) !in AdmitKeys(roomId, userId)
  {
    DirectoryKeysDistinct(prev, roomId, userId);
    DirectoryKeysDistinct(roomId, prev, userId);
    if UsersKey(prev) == UsersKey(roomId) {
      UsersKeyInjective(prev, roomId);
    }
    if UserKey(prev, userId) == UserKey(roomId, userId) {
      UserKeySameUser(prev, roomId, userId);
    }
    assert UsersKey(prev)[5..] == prev + ":users";
  }

  /**
   * Directory keys are not prefix-free: the membership set of room `r` is
   * the metadata hash of room `r:users`.
   */
  lemma UsersKeyIsRoomKey(r: string)
    ensures UsersKey(r) == RoomKey(r + ":users")
  {
  }

  /**
   * join-room never leaves the previous room in the directory: the
   * previous room's membership set and the user's record there are
   * untouched.
   */
  lemma JoinKeepsPreviousRoom(s: SessionState, socketId: string, roomId: string, userId: string, media: MediaData, now: string, rnd: real)
    requires 0.0 <= rnd < 1.0
    requires s.currentRoomId != roomId && roomId != s.currentRoomId + ":users"
    ensures var t := AfterJoinRoom(s, socketId, roomId, userId, media, now, rnd);
      && t.db.MembersAt(UsersKey(s.currentRoomId)) == s.db.MembersAt(UsersKey(s.currentRoomId))
      && IsUserInRoom(t.db, s.currentRoomId, userId) == IsUserInRoom(s.db, s.currentRoomId, userId)
  {
    var prev := s.currentRoomId;
    var t := AfterJoinRoom(s, socketId, roomId, userId, media, now, rnd);
    var prep := JoinPrepare(s.db, roomId, now);
    CreateRoomFrame(s.db, roomId, NewRoom(roomId, 0, Some(now)), now);
    PreviousKeysOutside(prev, roomId, userId);
    assert prep.At(UsersKey(prev)) == s.db.At(UsersKey(prev));
    assert prep.At(UserKey(prev, userId)) == s.db.At(UserKey(prev, userId));
    if |ExtractRoomData(prep, roomId).users| >= 2 {
      JoinRefusedWhenFull(s, socketId, roomId, userId, media, now, rnd);
    } else {
      var e := JoinEntry(s, socketId, roomId, userId, now);
      JoinIsAdmit(s, socketId, roomId, userId, media, now, rnd);
      JoinAdmitFrame(e, socketId, roomId, userId, media, now, rnd);
      assert t.db.At(UsersKey(prev)) == e.db.At(UsersKey(prev));
      assert t.db.At(UserKey(prev, userId)) == e.db.At(UserKey(prev, userId));
    }
    SameAt(t.db, s.db, UsersKey(prev));
  }

  /**
   * join-room takes the socket out of no socket.io room but the one being
   * joined (and puts it back there): the previous room's membership stays.
   */
  lemma JoinKeepsPreviousSocketRoom(s: SessionState, socketId: string, roomId: string, userId: string, media: MediaData, now: string, rnd: real)
    requires 0.0 <= rnd < 1.0
    ensures s.ioRooms - {(socketId, roomId)} <= AfterJoinRoom(s, socketId, roomId, userId, media, now, rnd).ioRooms
  {
    if |ExtractRoomData(JoinPrepare(s.db, roomId, now), roomId).users| < 2 {
      JoinIsAdmit(s, socketId, roomId, userId, media, now, rnd);
      JoinAdmitFrame(JoinEntry(s, socketId, roomId, userId, now), socketId, roomId, userId, media, now, rnd);
    }
  }

  // ---------------------------------------------------- who gets the offer

  /** A room whose metadata has a size field is readable: it exists and extracts in full. */
  lemma SizedRoomReadable(db: Db, roomId: string)
    requires db.HGet(RoomKey(roomId), "roomSize").Some?
    ensures DoesRoomExist(db, roomId) && GetRoomData(db, roomId).Some?
    ensures |ExtractRoomData(db, roomId).users| == GetRoomSize(db, roomId)
  {
  }

  /** The admission's keys are all directory keys, so no signaling key is among them. */
  lemma AdmitKeysAreDirectory(roomId: string, userId: string)
    ensures forall k | k in AdmitKeys(roomId, userId) :: DirectoryKey(k)
    ensures OfferKey(roomId) !in AdmitKeys(roomId, userId) && OffererKey(roomId) !in AdmitKeys(roomId, userId)
  {
    SignalingKeysDistinct(roomId, roomId, "", "");
  }

  /** The election in a room whose only member is `userId`, at `socketId`, elects that socket. */
  lemma SoleMemberElected(db: Db, roomId: string, userId: string, socketId: string, rnd: real)
    requires 0.0 <= rnd < 1.0
    requires db.HGet(RoomKey(roomId), "roomSize").Some?
    requires db.MembersAt(UsersKey(roomId)) == [userId]
    requires ReadUser(db, roomId, userId).socketId == Some(socketId)
    ensures var e := AfterChangeOfferer(db, roomId, rnd);
      && e.thrown.None?
      && GetOfferer(e.db, roomId) == Some(socketId)
      && GetOffer(e.db, roomId).None?
  {
    SizedRoomReadable(db, roomId);
    var users := ExtractRoomData(db, roomId).users;
    assert |users| == 1;
    assert users[0] == SnapshotUser(GetRoomUsers(db, roomId)[0]);
    assert Pick(rnd, 1) == 0;
    assert Elected(db, roomId, rnd) == socketId;
    ChangeOffererThrows(db, roomId, rnd);
    ChangeOffererWipes(db, roomId, rnd);
  }

  /**
   * The first joiner of a room (no member yet, or only a stale entry of
   * the same user) is asked to create the offer, becomes the offerer
   * pointer, and any stored offer is wiped.
   */
  lemma AdmitFirstElectsJoiner(s: SessionState, socketId: string, roomId: string, userId: string, media: MediaData, now: string, rnd: real)
    requires 0.0 <= rnd < 1.0
    requires GetRoomData(s.db, roomId).Some?
    requires s.db.MembersAt(UsersKey(roomId)) == [] || s.db.MembersAt(UsersKey(roomId)) == [userId]
    ensures var t := JoinAdmit(s, socketId, roomId, userId, media, now, rnd);
      && t.log == s.log + Announcements(roomId, userId) + [Emission(ToSocket(socketId), CreateOffer(roomId, userId))]
      && GetOfferer(t.db, roomId) == Some(socketId)
      && GetOffer(t.db, roomId).None?
  {
    var user := Joiner(socketId, media);
    var added := AfterAddUserToRoom(s.db, roomId, userId, user, now).db;
    var s2 := Admitted(s, socketId, roomId, userId, media, now);
    AddUserToRoomStores(s.db, roomId, userId, user, now);
    AdmitStoreOutcome(s.db, roomId, userId, user, now);
    assert added.MembersAt(UsersKey(roomId)) == [userId];
    ReadUserSocket(s2.db, roomId, userId, user, now);
    JoinAdmitSignals(s, socketId, roomId, userId, media, now, rnd);
    SoleMemberElected(s2.db, roomId, userId, socketId, rnd);
  }

  /**
   * join-room into an empty room that has metadata once set up (a fresh
   * room always has): the joiner is asked to create the offer and becomes
   * the offerer.
   */
  lemma JoinFirstBecomesOfferer(s: SessionState, socketId: string, roomId: string, userId: string, media: MediaData, now: string, rnd: real)
    requires 0.0 <= rnd < 1.0
    requires GetRoomData(JoinPrepare(s.db, roomId, now), roomId).Some?
    requires s.db.MembersAt(UsersKey(roomId)) == [] || s.db.MembersAt(UsersKey(roomId)) == [userId]
    ensures var t := AfterJoinRoom(s, socketId, roomId, userId, media, now, rnd);
      && t.currentRoomId == roomId
      && t.log == s.log + Announcements(roomId, userId) + [Emission(ToSocket(socketId), CreateOffer(roomId, userId))]
      && GetOfferer(t.db, roomId) == Some(socketId)
      && GetOffer(t.db, roomId).None?
  {
    JoinPrepareKeeps(s.db, roomId, now);
    var e := JoinEntry(s, socketId, roomId, userId, now);
    JoinIsAdmit(s, socketId, roomId, userId, media, now, rnd);
    AdmitOutcome(e, socketId, roomId, userId, media, now, rnd);
    AdmitFirstElectsJoiner(e, socketId, roomId, userId, media, now, rnd);
  }

  /**
   * The WebRTC step for any size but one sends the joiner one copy of the
   * stored offer per member at most, and changes nothing else.
   */
  lemma JoinSignalSendsStoredOffer(s: SessionState, socketId: string, roomId: string, userId: string, size: nat, rnd: real)
    requires 0.0 <= rnd < 1.0 && size != 1
    ensures var t := JoinSignal(s, socketId, roomId, userId, size, rnd);
      && t.(log := s.log) == s
      && |s.log| <= |t.log| <= |s.log| + |ExtractRoomData(s.db, roomId).users|
      && t.log[..|s.log|] == s.log
      && forall i | |s.log| <= i < |t.log| :: t.log[i] == Emission(ToSocket(socketId), StoredOfferEvent(s.db, roomId, userId, socketId))
  {
    var users := ExtractRoomData(s.db, roomId).users;
    var es := OfferEmissions(users, GetOfferer(s.db, roomId), socketId, StoredOfferEvent(s.db, roomId, userId, socketId));
    var t := JoinSignal(s, socketId, roomId, userId, size, rnd);
    assert t.log == s.log + es;
    forall i | |s.log| <= i < |t.log|
      ensures t.log[i] == Emission(ToSocket(socketId), StoredOfferEvent(s.db, roomId, userId, socketId))
    {
      assert t.log[i] == es[i - |s.log|];
    }
  }

  /** The admission's store part leaves the offer and the pointer alone. */
  lemma AdmitStoreKeepsSignaling(db: Db, roomId: string, userId: string, user: NewUser, now: string)
    requires GetRoomData(db, roomId).Some?
    ensures var a := AdmitStore(db, roomId, userId, user, now);
      && GetOfferer(a.db, roomId) == GetOfferer(db, roomId)
      && GetOffer(a.db, roomId) == GetOffer(db, roomId)
  {
    AdmitStoreFrame(db, roomId, userId, user, now);
    AdmitKeysAreDirectory(roomId, userId);
    SignalingOutside(db, AdmitStore(db, roomId, userId, user, now).db, roomId, AdmitKeys(roomId, userId));
  }

  /** A change confined to directory keys leaves the offer and the pointer alone. */
  lemma SignalingOutside(a: Db, b: Db, roomId: string, changed: iset<string>)
    requires SameExcept(a, b, changed)
    requires forall k | k in changed :: DirectoryKey(k)
    ensures GetOffer(a, roomId) == GetOffer(b, roomId) && GetOfferer(a, roomId) == GetOfferer(b, roomId)
  {
    SignalingKeysDistinct(roomId, roomId, "", "");
    SignalingReadsAgree(a, b, roomId);
  }

  /** The offer and the pointer depend on their two keys alone. */
  lemma SignalingReadsAgree(a: Db, b: Db, roomId: string)
    requires a.At(OfferKey(roomId)) == b.At(OfferKey(roomId)) && a.At(OffererKey(roomId)) == b.At(OffererKey(roomId))
    ensures GetOffer(a, roomId) == GetOffer(b, roomId) && GetOfferer(a, roomId) == GetOfferer(b, roomId)
  {
  }


  /**
   * A later joiner (the room already holds another member) elects nobody:
   * after the announcements it is only sent offer-received events, each to
   * itself and carrying the stored offer and pointer, at most one per
   * member; the offer and the pointer stay as they were.
   */
  lemma AdmitLaterGetsOffers(s: SessionState, socketId: string, roomId: string, userId: string, media: MediaData, now: string, rnd: real, other: string)
    requires 0.0 <= rnd < 1.0
    requires GetRoomData(s.db, roomId).Some?
    requires other != userId && s.db.MembersAt(UsersKey(roomId)) == [other]
    ensures var t := JoinAdmit(s, socketId, roomId, userId, media, now, rnd);
      && GetOfferer(t.db, roomId) == GetOfferer(s.db, roomId)
      && GetOffer(t.db, roomId) == GetOffer(s.db, roomId)
      && t.db.MembersAt(UsersKey(roomId)) == [other, userId]
      && |s.log| + 2 <= |t.log| <= |s.log| + 4
      && t.log[..|s.log| + 2] == s.log + Announcements(roomId, userId)
      && forall i | |s.log| + 2 <= i < |t.log| ::
           t.log[i] == Emission(ToSocket(socketId), OfferReceived(roomId, GetOfferer(s.db, roomId), userId, socketId, GetOffer(s.db, roomId)))
  {
    var user := Joiner(socketId, media);
    var added := AfterAddUserToRoom(s.db, roomId, userId, user, now).db;
    var s2 := Admitted(s, socketId, roomId, userId, media, now);
    assert s2.db == AdmitStore(s.db, roomId, userId, user, now).db;
    AddUserToRoomStores(s.db, roomId, userId, user, now);
    assert added.MembersAt(UsersKey(roomId)) == [other, userId];
    AdmitStoreUpdates(s.db, roomId, userId, user, now);
    AdmitStoreKeepsSignaling(s.db, roomId, userId, user, now);
    SizedRoomReadable(s2.db, roomId);
    JoinAdmitSignals(s, socketId, roomId, userId, media, now, rnd);
    JoinSignalSendsStoredOffer(s2, socketId, roomId, userId, 2, rnd);
  }

  /** join-room's setup keeps the membership set, the offer and the pointer. */
  lemma JoinPrepareKeeps(db: Db, roomId: string, now: string)
    ensures var prep := JoinPrepare(db, roomId, now);
      && prep.MembersAt(UsersKey(roomId)) == db.MembersAt(UsersKey(roomId))
      && GetOfferer(prep, roomId) == GetOfferer(db, roomId)
      && GetOffer(prep, roomId) == GetOffer(db, roomId)
      && (GetRoomData(prep, roomId).Some? ==> |ExtractRoomData(prep, roomId).users| == db.SCard(UsersKey(roomId)))
  {
    var prep := JoinPrepare(db, roomId, now);
    JoinPrepareFrame(db, roomId, now);
    if GetRoomData(prep, roomId).Some? {
      ExtractedCount(prep, roomId);
    }
  }

  /** join-room's setup writes no key but the metadata and the room list. */
  lemma JoinPrepareFrame(db: Db, roomId: string, now: string)
    ensures var prep := JoinPrepare(db, roomId, now);
      && prep.MembersAt(UsersKey(roomId)) == db.MembersAt(UsersKey(roomId))
      && GetOfferer(prep, roomId) == GetOfferer(db, roomId)
      && GetOffer(prep, roomId) == GetOffer(db, roomId)
  {
    var prep := JoinPrepare(db, roomId, now);
    var changed := iset{RoomKey(roomId), ActiveRoomsKey};
    CreateRoomFrame(db, roomId, NewRoom(roomId, 0, Some(now)), now);
    DirectoryKeysDistinct(roomId, roomId, "");
    SameExceptAt(db, prep, changed, UsersKey(roomId));
    KeysAreDirectory(roomId, "");
    SignalingOutside(db, prep, roomId, changed);
  }

  /** A room with metadata extracts one snapshot per member. */
  lemma ExtractedCount(db: Db, roomId: string)
    requires GetRoomData(db, roomId).Some?
    ensures |ExtractRoomData(db, roomId).users| == db.SCard(UsersKey(roomId))
  {
    assert DoesRoomExist(db, roomId);
  }

  /**
   * join-room into a room holding one other member: after the
   * announcements the joiner is only sent the stored offer and pointer, at
   * most twice, and nobody is elected.
   */
  lemma JoinLaterGetsOffers(s: SessionState, socketId: string, roomId: string, userId: string, media: MediaData, now: string, rnd: real, other: string)
    requires 0.0 <= rnd < 1.0
    requires GetRoomData(JoinPrepare(s.db, roomId, now), roomId).Some?
    requires other != userId && s.db.MembersAt(UsersKey(roomId)) == [other]
    ensures var t := AfterJoinRoom(s, socketId, roomId, userId, media, now, rnd);
      && GetOfferer(t.db, roomId) == GetOfferer(s.db, roomId)
      && GetOffer(t.db, roomId) == GetOffer(s.db, roomId)
      && t.db.MembersAt(UsersKey(roomId)) == [other, userId]
      && |s.log| + 2 <= |t.log| <= |s.log| + 4
      && t.log[..|s.log| + 2] == s.log + Announcements(roomId, userId)
      && forall i | |s.log| + 2 <= i < |t.log| ::
           t.log[i] == Emission(ToSocket(socketId), OfferReceived(roomId, GetOfferer(s.db, roomId), userId, socketId, GetOffer(s.db, roomId)))
  {
    JoinPrepareKeeps(s.db, roomId, now);
    JoinIsAdmit(s, socketId, roomId, userId, media, now, rnd);
    AdmitLaterGetsOffers(JoinEntry(s, socketId, roomId, userId, now), socketId, roomId, userId, media, now, rnd, other);
  }

  // ----------------------------------------------------------- leave-room

  /** The room-left and room-users pair every completed leave-room ends with. */
  function Closing(roomId: string, userId: string): seq<Emission> {
    [Emission(ToRoom(roomId), RoomLeft(roomId, userId)), Emission(ToRoom(roomId), RoomUsers(roomId, []))]
  }

  /** leave-room's re-election step touches no directory key and only appends to the log. */
  lemma LeaveSignalFrame(s: SessionState, socketId: string, roomId: string, userId: string, rnd: real)
    requires 0.0 <= rnd < 1.0
    ensures var t := LeaveSignal(s, socketId, roomId, userId, rnd);
      && SameDirectory(s.db, t.db)
      && t.(db := s.db, log := s.log) == s
      && |s.log| <= |t.log| && t.log[..|s.log|] == s.log
  {
    ChangeOffererKeepsDirectory(s.db, roomId, rnd);
  }

  /** leave-room from a user or room the store does not know: only the error, to the caller. */
  lemma LeaveRefused(s: SessionState, socketId: string, roomId: string, userId: string, rnd: real)
    requires 0.0 <= rnd < 1.0
    requires !IsUserInRoom(s.db, roomId, userId) || !DoesRoomExist(s.db, roomId)
    ensures var t := AfterLeaveRoom(s, socketId, roomId, userId, rnd);
      && t.(log := s.log) == s
      && t.log == s.log + [Emission(ToSocket(socketId), RoomError(NotInRoomText))]
  {
  }

  /**
   * leave-room by the last member (at most one in the membership set)
   * removes nothing: the user is still in the room, and the directory is as
   * before. The socket still leaves the socket.io room named after the user
   * id, and the session keeps its current room.
   */
  lemma LeaveLastMemberStays(s: SessionState, socketId: string, roomId: string, userId: string, rnd: real)
    requires 0.0 <= rnd < 1.0
    requires IsUserInRoom(s.db, roomId, userId) && DoesRoomExist(s.db, roomId)
    requires s.db.SCard(UsersKey(roomId)) <= 1
    ensures var t := AfterLeaveRoom(s, socketId, roomId, userId, rnd);
      && IsUserInRoom(t.db, roomId, userId)
      && SameDirectory(s.db, t.db)
      && (socketId, userId) !in t.ioRooms
      && t.currentRoomId == s.currentRoomId
  {
    RemoveUserFromRoomRefusals(s.db, roomId, userId);
    var s1 := s.(ioRooms := s.ioRooms - {(socketId, userId)});
    LeaveSignalFrame(s1, socketId, roomId, userId, rnd);
    DirectoryKeysDistinct(roomId, roomId, userId);
    assert DirectoryKey(UserKey(roomId, userId));
  }

  /**
   * leave-room by one of several members of a room with metadata: the
   * user's record is gone, the user is out of the membership set, the size
   * field holds the old cardinality minus one; the session keeps its
   * current room and the log only grows.
   */
  lemma LeaveRemovesMember(s: SessionState, socketId: string, roomId: string, userId: string, rnd: real)
    requires 0.0 <= rnd < 1.0
    requires IsUserInRoom(s.db, roomId, userId) && DoesRoomExist(s.db, roomId) && GetRoomData(s.db, roomId).Some?
    requires s.db.SCard(UsersKey(roomId)) > 1
    ensures var t := AfterLeaveRoom(s, socketId, roomId, userId, rnd);
      && !IsUserInRoom(t.db, roomId, userId)
      && t.db.MembersAt(UsersKey(roomId)) == Without(s.db.MembersAt(UsersKey(roomId)), userId)
      && t.db.HGet(RoomKey(roomId), "roomSize") == Some(IntToString(s.db.SCard(UsersKey(roomId)) - 1))
      && (socketId, userId) !in t.ioRooms
      && t.currentRoomId == s.currentRoomId
      && |s.log| <= |t.log| && t.log[..|s.log|] == s.log
  {
    var removed := AfterRemoveUserFromRoom(s.db, roomId, userId);
    RemoveUserFromRoomRemoves(s.db, roomId, userId);
    var s1 := s.(ioRooms := s.ioRooms - {(socketId, userId)}, db := removed.db);
    LeaveSignalFrame(s1, socketId, roomId, userId, rnd);
    var t := LeaveSignal(s1, socketId, roomId, userId, rnd);
    assert DirectoryKey(UserKey(roomId, userId)) && DirectoryKey(UsersKey(roomId)) && DirectoryKey(RoomKey(roomId));
    assert t.db.At(UserKey(roomId, userId)) == removed.db.At(UserKey(roomId, userId));
    assert t.db.At(UsersKey(roomId)) == removed.db.At(UsersKey(roomId));
    assert t.db.At(RoomKey(roomId)) == removed.db.At(RoomKey(roomId));
  }

  /** removeUserFromRoom never touches the offer or the pointer. */
  lemma RemovalKeepsSignaling(db: Db, roomId: string, userId: string)
    ensures var r := AfterRemoveUserFromRoom(db, roomId, userId);
      && GetOfferer(r.db, roomId) == GetOfferer(db, roomId)
      && GetOffer(r.db, roomId) == GetOffer(db, roomId)
  {
    RemoveUserFromRoomRefusals(db, roomId, userId);
    if db.SCard(UsersKey(roomId)) > 1 && DoesRoomExist(db, roomId) && GetRoomData(db, roomId).Some? {
      RemoveUserFromRoomRemoves(db, roomId, userId);
      KeysAreDirectory(roomId, userId);
      SignalingOutside(db, AfterRemoveUserFromRoom(db, roomId, userId).db, roomId, iset{RoomKey(roomId), UserKey(roomId, userId), UsersKey(roomId)});
    }
  }

  /**
   * leave-room by a user the pointer does not name: no election, the
   * offer and the pointer stay, and the room is told the user left.
   */
  lemma LeaveWithoutReelection(s: SessionState, socketId: string, roomId: string, userId: string, rnd: real)
    requires 0.0 <= rnd < 1.0
    requires IsUserInRoom(s.db, roomId, userId) && DoesRoomExist(s.db, roomId) && GetRoomData(s.db, roomId).Some?
    requires GetOfferer(s.db, roomId) != Some(userId)
    ensures var t := AfterLeaveRoom(s, socketId, roomId, userId, rnd);
      && t.log == s.log + Closing(roomId, userId)
      && GetOfferer(t.db, roomId) == GetOfferer(s.db, roomId)
      && GetOffer(t.db, roomId) == GetOffer(s.db, roomId)
  {
    RemoveUserFromRoomRefusals(s.db, roomId, userId);
    RemovalKeepsSignaling(s.db, roomId, userId);
    if s.db.SCard(UsersKey(roomId)) > 1 {
      RemoveUserFromRoomRemoves(s.db, roomId, userId);
    }
  }

  /** Removing one value from a duplicate-free sequence of two or more leaves something. */
  lemma WithoutKeepsOthers(xs: seq<string>, x: string)
    requires NoDup(xs) && |xs| >= 2
    ensures Without(xs, x) != []
  {
    var y := if xs[0] != x then xs[0] else xs[1];
    assert y in xs && y != x;
    assert y in Without(xs, x);
  }

  /**
   * When the leaving user is a member of a duplicate-free membership set of
   * a room with metadata, the room still has metadata and a member after
   * removeUserFromRoom: the last member is never removed.
   */
  lemma RemovalLeavesMember(db: Db, roomId: string, userId: string)
    requires DoesRoomExist(db, roomId) && GetRoomData(db, roomId).Some?
    requires userId in db.MembersAt(UsersKey(roomId)) && NoDup(db.MembersAt(UsersKey(roomId)))
    ensures var r := AfterRemoveUserFromRoom(db, roomId, userId);
      && GetRoomData(r.db, roomId).Some?
      && |GetRoomUsers(r.db, roomId)| > 0
      && r.result.Ok?
  {
    RemoveUserFromRoomRefusals(db, roomId, userId);
    if db.SCard(UsersKey(roomId)) > 1 {
      RemoveUserFromRoomRemoves(db, roomId, userId);
      WithoutKeepsOthers(db.MembersAt(UsersKey(roomId)), userId);
    }
  }

  /**
   * leave-room by the user stored as offerer (a user id equal to the stored
   * socket id): a new offerer is elected among the members left, the offer
   * is wiped, and the room is told of the change (naming the leaver's own
   * socket as the new offerer's) before it is told the user left.
   */
  lemma LeaveReelects(s: SessionState, socketId: string, roomId: string, userId: string, rnd: real)
    requires 0.0 <= rnd < 1.0
    requires IsUserInRoom(s.db, roomId, userId) && DoesRoomExist(s.db, roomId) && GetRoomData(s.db, roomId).Some?
    requires userId in s.db.MembersAt(UsersKey(roomId)) && NoDup(s.db.MembersAt(UsersKey(roomId)))
    requires GetOfferer(s.db, roomId) == Some(userId)
    ensures var t := AfterLeaveRoom(s, socketId, roomId, userId, rnd);
      && GetOffer(t.db, roomId).None?
      && (exists u | u in GetRoomUsers(t.db, roomId) :: GetOfferer(t.db, roomId) == Some(Written(u.socketId)))
      && t.log == s.log + [Emission(ToRoom(roomId), OffererChanged(roomId, GetOfferer(t.db, roomId), socketId))] + Closing(roomId, userId)
  {
    var removed := AfterRemoveUserFromRoom(s.db, roomId, userId);
    RemovalLeavesMember(s.db, roomId, userId);
    RemovalKeepsSignaling(s.db, roomId, userId);
    ChangeOffererThrows(removed.db, roomId, rnd);
    ChangeOffererWipes(removed.db, roomId, rnd);
    ChangeOffererElectsMember(removed.db, roomId, rnd);
  }

  /**
   * When the pointer-named leaver is the room's only member it is not
   * removed, and its own socket id is elected again.
   */
  lemma LeaveSoleMemberReelectsItself(s: SessionState, socketId: string, roomId: string, userId: string, rnd: real)
    requires 0.0 <= rnd < 1.0
    requires IsUserInRoom(s.db, roomId, userId) && DoesRoomExist(s.db, roomId) && GetRoomData(s.db, roomId).Some?
    requires s.db.MembersAt(UsersKey(roomId)) == [userId]
    requires GetOfferer(s.db, roomId) == Some(userId)
    ensures var t := AfterLeaveRoom(s, socketId, roomId, userId, rnd);
      && IsUserInRoom(t.db, roomId, userId)
      && GetOfferer(t.db, roomId) == Some(Written(ReadUser(s.db, roomId, userId).socketId))
  {
    var t := AfterLeaveRoom(s, socketId, roomId, userId, rnd);
    assert NoDup(s.db.MembersAt(UsersKey(roomId)));
    LeaveReelects(s, socketId, roomId, userId, rnd);
    LeaveLastMemberStays(s, socketId, roomId, userId, rnd);
    DirectoryReadsAgree(s.db, t.db, roomId);
    assert GetRoomUsers(s.db, roomId) == [ReadUser(s.db, roomId, userId)];
  }

  // ------------------------------------------------------- the relays

  /**
   * An answer reaches the offerer's socket as it was sent: the store holds
   * it under the answering user, and only the room's answers hash changes.
   */
  lemma AnswerForwardedToOfferer(s: SessionState, roomId: string, offererSocketId: string, userId: string, userSocketId: string, answer: Json)
    ensures var t := AfterAnswer(s, roomId, offererSocketId, userId, userSocketId, answer);
      && t.log == s.log + [Emission(ToSocket(offererSocketId), AnswerReceived(roomId, offererSocketId, userId, userSocketId, Some(answer)))]
      && GetAnswer(t.db, roomId, userId) == Some(answer)
      && SameExcept(s.db, t.db, iset{AnswerKey(roomId)})
      && t.(db := s.db, log := s.log) == s
  {
    AnswerRoundTrip(s.db, roomId, userId, answer, SignalTtl);
  }

  /**
   * The subscriber re-emits, to every socket, exactly the messages whose
   * channel is their own room's: a message published by `Event:message`
   * is always re-emitted, one arriving on another room's channel never.
   */
  lemma BusRelaysOwnChannelOnly(s: SessionState, r: string, payload: ChatMessage)
    ensures AfterBusMessage(s, Channel(r), payload) != s <==> r == payload.roomId
    ensures r == payload.roomId ==>
      AfterBusMessage(s, Channel(r), payload).log == s.log + [Emission(ToAll, MessageReceived(payload.message, payload.roomId, payload.userId))]
  {
    if Channel(r) == Channel(payload.roomId) {
      ChannelInjective(r, payload.roomId);
    }
    if r == payload.roomId {
      assert |AfterBusMessage(s, Channel(r), payload).log| == |s.log| + 1;
    }
  }
}
