/**
 * The room directory (`RoomManager`): room metadata, membership sets and
 * per-user records kept in the shared Redis store.
 *
 * Keys: `room:{roomId}` (hash), `room:{roomId}:users` (set),
 * `user:{roomId}:{userId}` (hash) and the global set `activeRooms`.
 * Booleans are stored as the strings "true"/"false" and decoded on read.
 * A read is one atomic step, so it is a function of the store; an operation
 * that writes is a method of `RoomManager`, specified by an `After...`
 * function giving the store and the result it leaves.
 */
module RoomDirectory {
  import opened Common
  import opened RedisStore

  const ActiveRoomsKey := "activeRooms"
  const DayInSeconds: nat := 24 * 60 * 60

  // ---------------------------------------------------------------- keys

  function RoomKey(roomId: string): (k: string)
    ensures StartsWith(k, "room:") && k[5..] == roomId
  {
    "room:" + roomId
  }

  function UserKey(roomId: string, userId: string): (k: string)
    ensures StartsWith(k, "user:") && |k| == 6 + |roomId| + |userId|
    ensures k[5..5 + |roomId|] == roomId && k[5 + |roomId|] == ':' && k[6 + |roomId|..] == userId
  {
    "user:" + roomId + ":" + userId
  }

  /** The membership set of a room: `${roomKey}:users`. */
  function UsersKey(roomId: string): (k: string)
    ensures StartsWith(k, "room:") && EndsWith(k, ":users")
  {
    RoomKey(roomId) + ":users"
  }

  /** Every key the directory touches. */
  predicate DirectoryKey(k: string) {
    StartsWith(k, "room:") || StartsWith(k, "user:") || k == ActiveRoomsKey
  }

  // ------------------------------------------------------------- records

  /** What getRoomData returns: the stored strings, `isActive` decoded. */
  datatype RoomData = RoomData(
    roomName: Option<string>,
    roomSize: Option<string>,
    isActive: bool,
    createdAt: Option<string>)

  /** One element of what getRoomUsers returns. */
  datatype UserRecord = UserRecord(
    userId: string,
    socketId: Option<string>,
    isAudioEnabled: bool,
    isVideoEnabled: bool,
    avator: Option<string>,
    joinedAt: Option<string>,
    extra: map<string, string>)

  /** The argument of createRoom; `createdAt` is optional. */
  datatype NewRoom = NewRoom(roomName: string, roomSize: int, createdAt: Option<string>)

  /** The argument of updateRoomData; every field is optional. */
  datatype RoomUpdates = RoomUpdates(roomName: Option<string>, roomSize: Option<int>, isActive: Option<string>)

  /** The argument of addUserToRoom. */
  datatype NewUser = NewUser(socketId: string, isAudioEnabled: bool, isVideoEnabled: bool, avator: string)

  /** A value handed to updateUserData. */
  datatype FieldValue = BoolField(b: bool) | DateField(iso: string) | TextField(text: string)

  /** The room metadata as extractRoomData reports it: `isActive` re-stringified. */
  datatype RoomSnapshot = RoomSnapshot(
    roomName: Option<string>,
    roomSize: Option<string>,
    isActive: string,
    createdAt: Option<string>)

  /** A user as extractRoomData reports it: the media flags re-stringified. */
  datatype UserSnapshot = UserSnapshot(
    userId: string,
    socketId: Option<string>,
    isAudioEnabled: string,
    isVideoEnabled: string,
    avator: Option<string>,
    joinedAt: Option<string>)

  /** The consolidated answer of extractRoomData. */
  datatype RoomExtract = RoomExtract(
    roomExists: bool,
    isActive: bool,
    roomId: string,
    roomData: Option<RoomSnapshot>,
    users: seq<UserSnapshot>,
    message: Option<string>)

  datatype DirectoryError =
    | RoomAlreadyExists(roomId: string)
    | RoomDoesNotExist(roomId: string)
    | NoDataForRoom(roomId: string)
    | NoFieldsToWrite

  /** The store an operation leaves, and what it returns or throws. */
  datatype After = After(db: Db, result: Result<bool, DirectoryError>)

  /** ioredis writes an `undefined` argument as the empty string. */
  function Written(v: Option<string>): string {
    v.GetOr("")
  }

  // --------------------------------------------------------------- reads

  /** doesRoomExist: the metadata key is present. */
  function DoesRoomExist(db: Db, roomId: string): (b: bool)
    ensures !b ==> GetRoomData(db, roomId).None?
    ensures b <==> RoomKey(roomId) in db.data
  {
    db.Exists(RoomKey(roomId))
  }

  /** getRoomData: null for an absent or empty hash, `isActive` is "true". */
  function GetRoomData(db: Db, roomId: string): (d: Option<RoomData>)
    ensures d.None? <==> db.HashAt(RoomKey(roomId)) == map[]
    ensures d.Some? ==> (d.value.isActive <==> db.HGet(RoomKey(roomId), "isActive") == Some("true"))
    ensures d.Some? ==>
      && d.value.roomName == db.HGet(RoomKey(roomId), "roomName")
      && d.value.roomSize == db.HGet(RoomKey(roomId), "roomSize")
      && d.value.createdAt == db.HGet(RoomKey(roomId), "createdAt")
  {
    var h := db.HashAt(RoomKey(roomId));
    if |h| == 0 then None
    else
      Some(RoomData(
        db.HGet(RoomKey(roomId), "roomName"),
        db.HGet(RoomKey(roomId), "roomSize"),
        db.HGet(RoomKey(roomId), "isActive") == Some("true"),
        db.HGet(RoomKey(roomId), "createdAt")))
  }

  /** The fields of a member's record that getRoomUsers names explicitly. */
  const RecordFields: set<string> := {"userId", "socketId", "isAudioEnabled", "isVideoEnabled", "avator", "joinedAt"}

  /** The fields of a member's hash that the object spread copies through unnamed. */
  function ExtraFields(h: map<string, string>): (x: map<string, string>)
    ensures x.Keys == h.Keys - RecordFields
    ensures forall f | f in x :: x[f] == h[f]
  {
    map f | f in h && f !in RecordFields :: h[f]
  }

  /**
   * The record of one member: the member id, overridden by a stored
   * "userId" field, then every stored field, with the media flags decoded.
   */
  function ReadUser(db: Db, roomId: string, userId: string): (u: UserRecord)
    ensures u.userId == db.HGet(UserKey(roomId, userId), "userId").GetOr(userId)
    ensures db.HGet(UserKey(roomId, userId), "userId").None? ==> u.userId == userId
    ensures u.socketId == db.HGet(UserKey(roomId, userId), "socketId")
    ensures u.avator == db.HGet(UserKey(roomId, userId), "avator")
    ensures u.joinedAt == db.HGet(UserKey(roomId, userId), "joinedAt")
    ensures u.isAudioEnabled <==> db.HGet(UserKey(roomId, userId), "isAudioEnabled") == Some("true")
    ensures u.isVideoEnabled <==> db.HGet(UserKey(roomId, userId), "isVideoEnabled") == Some("true")
    ensures forall f :: f in u.extra <==> f in db.HashAt(UserKey(roomId, userId)) && f !in RecordFields
  {
    var k := UserKey(roomId, userId);
    UserRecord(
      db.HGet(k, "userId").GetOr(userId),
      db.HGet(k, "socketId"),
      db.HGet(k, "isAudioEnabled") == Some("true"),
      db.HGet(k, "isVideoEnabled") == Some("true"),
      db.HGet(k, "avator"),
      db.HGet(k, "joinedAt"),
      ExtraFields(db.HashAt(k)))
  }

  /** getRoomUsers: one record per member of the membership set, in its order. */
  function GetRoomUsers(db: Db, roomId: string): (us: seq<UserRecord>)
    ensures |us| == db.SCard(UsersKey(roomId))
    ensures forall i | 0 <= i < |us| :: us[i] == ReadUser(db, roomId, db.MembersAt(UsersKey(roomId))[i])
  {
    var ids := db.MembersAt(UsersKey(roomId));
    seq(|ids|, i requires 0 <= i < |ids| => ReadUser(db, roomId, ids[i]))
  }

  /** isUserInRoom: the user's record exists. */
  function IsUserInRoom(db: Db, roomId: string, userId: string): (b: bool)
    ensures b <==> UserKey(roomId, userId) in db.data
    ensures !b ==> var u := ReadUser(db, roomId, userId);
      && u.userId == userId && u.socketId.None? && u.avator.None? && u.joinedAt.None?
      && !u.isAudioEnabled && !u.isVideoEnabled && u.extra == map[]
  {
    db.Exists(UserKey(roomId, userId))
  }

  /** getRoomSize: the cardinality of the membership set. */
  function GetRoomSize(db: Db, roomId: string): (n: nat)
    ensures n == |GetRoomUsers(db, roomId)|
  {
    db.SCard(UsersKey(roomId))
  }

  /** isRooomEmpty: the membership set has no member. */
  function IsRoomEmpty(db: Db, roomId: string): (b: bool)
    ensures b <==> GetRoomUsers(db, roomId) == []
  {
    db.SCard(UsersKey(roomId)) == 0
  }

  function SnapshotRoom(d: RoomData): (s: RoomSnapshot)
    ensures s.isActive == "true" <==> d.isActive
  {
    RoomSnapshot(d.roomName, d.roomSize, BoolToString(d.isActive), d.createdAt)
  }

  function SnapshotUser(u: UserRecord): (s: UserSnapshot)
    ensures s.userId == u.userId && s.socketId == u.socketId
    ensures (s.isAudioEnabled == "true" <==> u.isAudioEnabled) && (s.isVideoEnabled == "true" <==> u.isVideoEnabled)
  {
    UserSnapshot(u.userId, u.socketId, BoolToString(u.isAudioEnabled), BoolToString(u.isVideoEnabled), u.avator, u.joinedAt)
  }

  /**
   * extractRoomData: never throws; tells an absent room, a room without
   * metadata and a full snapshot apart.
   */
  function ExtractRoomData(db: Db, roomId: string): (e: RoomExtract)
    ensures e.roomId == roomId
    ensures !DoesRoomExist(db, roomId) ==>
      e == RoomExtract(false, false, roomId, None, [], Some("Room does not exist"))
    ensures DoesRoomExist(db, roomId) && GetRoomData(db, roomId).None? ==>
      e == RoomExtract(true, false, roomId, None, [], Some("Room exists but has no data"))
    ensures DoesRoomExist(db, roomId) && GetRoomData(db, roomId).Some? ==>
      && e.roomExists && e.isActive && e.message.None?
      && e.roomData == Some(SnapshotRoom(GetRoomData(db, roomId).value))
      && |e.users| == GetRoomSize(db, roomId)
      && forall i | 0 <= i < |e.users| :: e.users[i] == SnapshotUser(GetRoomUsers(db, roomId)[i])
  {
    if !DoesRoomExist(db, roomId) then
      RoomExtract(false, false, roomId, None, [], Some("Room does not exist"))
    else
      match GetRoomData(db, roomId)
      case None => RoomExtract(true, false, roomId, None, [], Some("Room exists but has no data"))
      case Some(d) =>
        var us := GetRoomUsers(db, roomId);
        RoomExtract(true, true, roomId, Some(SnapshotRoom(d)), seq(|us|, i requires 0 <= i < |us| => SnapshotUser(us[i])), None)
  }

  /** extractMultipleRoomsData: extractRoomData never rejects, so no room is dropped. */
  function ExtractMultipleRoomsData(db: Db, roomIds: seq<string>): (rs: seq<RoomExtract>)
    ensures |rs| == |roomIds|
    ensures forall i | 0 <= i < |rs| :: rs[i] == ExtractRoomData(db, roomIds[i])
  {
    seq(|roomIds|, i requires 0 <= i < |roomIds| => ExtractRoomData(db, roomIds[i]))
  }

  /** extractAllActiveRoomsData: one extract per member of `activeRooms`. */
  function ExtractAllActiveRoomsData(db: Db): (rs: seq<RoomExtract>)
    ensures |rs| == db.SCard(ActiveRoomsKey)
    ensures forall i | 0 <= i < |rs| :: rs[i].roomId == db.MembersAt(ActiveRoomsKey)[i]
  {
    ExtractMultipleRoomsData(db, db.MembersAt(ActiveRoomsKey))
  }

  // ---------------------------------------------------------------- frames

  /** The key families of the directory never meet each other. */
  lemma DirectoryKeysDistinct(roomId: string, otherRoom: string, userId: string)
    ensures RoomKey(roomId) != ActiveRoomsKey && UsersKey(roomId) != ActiveRoomsKey
    ensures UserKey(otherRoom, userId) != ActiveRoomsKey
    ensures UserKey(otherRoom, userId) != RoomKey(roomId) && UserKey(otherRoom, userId) != UsersKey(roomId)
    ensures RoomKey(roomId) != UsersKey(roomId)
  {
    assert RoomKey(roomId)[0] == 'r' && UsersKey(roomId)[0] == 'r';
    assert UserKey(otherRoom, userId)[0] == 'u' && ActiveRoomsKey[0] == 'a';
    assert |UsersKey(roomId)| == |RoomKey(roomId)| + 6;
  }

  /** Every key the directory builds is a directory key. */
  lemma KeysAreDirectory(roomId: string, userId: string)
    ensures DirectoryKey(RoomKey(roomId)) && DirectoryKey(UsersKey(roomId))
    ensures DirectoryKey(UserKey(roomId, userId)) && DirectoryKey(ActiveRoomsKey)
  {
  }

  /** Two stores that agree on every directory key. */
  ghost predicate SameDirectory(a: Db, b: Db) {
    forall k | DirectoryKey(k) :: a.At(k) == b.At(k)
  }

  /**
   * Every directory read depends on the directory keys alone: stores that
   * agree on them give the same extract for every room.
   */
  lemma {:induction false} DirectoryReadsAgree(a: Db, b: Db, roomId: string)
    requires SameDirectory(a, b)
    ensures DoesRoomExist(a, roomId) == DoesRoomExist(b, roomId)
    ensures GetRoomData(a, roomId) == GetRoomData(b, roomId)
    ensures GetRoomUsers(a, roomId) == GetRoomUsers(b, roomId)
    ensures ExtractRoomData(a, roomId) == ExtractRoomData(b, roomId)
  {
    assert DirectoryKey(RoomKey(roomId)) && DirectoryKey(UsersKey(roomId));
    assert a.At(RoomKey(roomId)) == b.At(RoomKey(roomId));
    assert a.HashAt(RoomKey(roomId)) == b.HashAt(RoomKey(roomId));
    assert a.At(UsersKey(roomId)) == b.At(UsersKey(roomId));
    var ms := a.MembersAt(UsersKey(roomId));
    assert ms == b.MembersAt(UsersKey(roomId));
    forall i | 0 <= i < |ms|
      ensures ReadUser(a, roomId, ms[i]) == ReadUser(b, roomId, ms[i])
    {
      var k := UserKey(roomId, ms[i]);
      assert DirectoryKey(k);
      assert a.At(k) == b.At(k);
      SameAt(a, b, k);
      ReadUserOfHash(a, b, roomId, ms[i]);
    }
  }

  /** A member's record depends on nothing but the member's hash. */
  lemma ReadUserOfHash(a: Db, b: Db, roomId: string, userId: string)
    requires a.HashAt(UserKey(roomId, userId)) == b.HashAt(UserKey(roomId, userId))
    ensures ReadUser(a, roomId, userId) == ReadUser(b, roomId, userId)
  {
  }

  // -------------------------------------------------------------- writes

  /** createRoom's `createdAt`: the given one unless missing or empty. */
  function CreatedAt(data: NewRoom, now: string): string {
    if data.createdAt.Some? && data.createdAt.value != "" then data.createdAt.value else now
  }

  /** The hash createRoom writes. */
  function RoomFields(data: NewRoom, now: string): map<string, string> {
    map["roomName" := data.roomName, "roomSize" := IntToString(data.roomSize), "createdAt" := CreatedAt(data, now)]
  }

  /** createRoom: existence check, then one MULTI of HMSET, SADD, EXPIRE. */
  function AfterCreateRoom(db: Db, roomId: string, data: NewRoom, now: string): After {
    if DoesRoomExist(db, roomId) then After(db, Err(RoomAlreadyExists(roomId)))
    else
      var db1 := db.HMSet(RoomKey(roomId), RoomFields(data, now));
      var db2 := db1.SAdd(ActiveRoomsKey, roomId);
      var db3 := db2.Expire(RoomKey(roomId), DayInSeconds);
      After(db3, Ok(true))
  }

  /**
   * createRoom throws on an existing room and changes nothing. Otherwise
   * the room exists, its metadata reads back as given (createdAt defaulted,
   * never active), it is indexed in `activeRooms`, its metadata expires in
   * 24 hours, and no other key changes.
   */
  lemma CreateRoomOutcome(db: Db, roomId: string, data: NewRoom, now: string)
    ensures DoesRoomExist(db, roomId) ==> AfterCreateRoom(db, roomId, data, now) == After(db, Err(RoomAlreadyExists(roomId)))
    ensures !DoesRoomExist(db, roomId) ==>
      var a := AfterCreateRoom(db, roomId, data, now);
      && a.result == Ok(true)
      && DoesRoomExist(a.db, roomId)
      && GetRoomData(a.db, roomId)
         == Some(RoomData(Some(data.roomName), Some(IntToString(data.roomSize)), false, Some(CreatedAt(data, now))))
      && roomId in a.db.MembersAt(ActiveRoomsKey)
      && RoomKey(roomId) in a.db.ttl && a.db.ttl[RoomKey(roomId)] == DayInSeconds
      && SameExcept(db, a.db, iset{RoomKey(roomId), ActiveRoomsKey})
  {
    CreateRoomFrame(db, roomId, data, now);
    if !DoesRoomExist(db, roomId) {
      var a := AfterCreateRoom(db, roomId, data, now);
      var fields := RoomFields(data, now);
      CreateRoomWrites(db, roomId, data, now);
      assert "roomName" in fields && "roomSize" in fields && "createdAt" in fields && "isActive" !in fields;
      assert a.db.HGet(RoomKey(roomId), "roomName") == Some(fields["roomName"]);
      assert a.db.HGet(RoomKey(roomId), "roomSize") == Some(fields["roomSize"]);
      assert a.db.HGet(RoomKey(roomId), "createdAt") == Some(fields["createdAt"]);
      assert a.db.HGet(RoomKey(roomId), "isActive") == None;
    }
  }

  /** A created room's metadata hash holds exactly the three fields, and the room is listed. */
  lemma CreateRoomWrites(db: Db, roomId: string, data: NewRoom, now: string)
    requires !DoesRoomExist(db, roomId)
    ensures var a := AfterCreateRoom(db, roomId, data, now);
      && a.result == Ok(true)
      && a.db.HashAt(RoomKey(roomId)) == RoomFields(data, now)
      && roomId in a.db.MembersAt(ActiveRoomsKey)
      && RoomKey(roomId) in a.db.ttl && a.db.ttl[RoomKey(roomId)] == DayInSeconds
  {
    DirectoryKeysDistinct(roomId, roomId, "");
    var db1 := db.HMSet(RoomKey(roomId), RoomFields(data, now));
    var db2 := db1.SAdd(ActiveRoomsKey, roomId);
    var db3 := db2.Expire(RoomKey(roomId), DayInSeconds);
    assert AfterCreateRoom(db, roomId, data, now) == After(db3, Ok(true));
    HMSetReads(db, RoomKey(roomId), RoomFields(data, now));
    SAddReads(db1, ActiveRoomsKey, roomId);
    ExpireReads(db2, RoomKey(roomId), DayInSeconds);
    SameAt(db1, db2, RoomKey(roomId));
    SameAt(db2, db3, RoomKey(roomId));
    SameAt(db2, db3, ActiveRoomsKey);
  }

  /** Whether it succeeds or throws, createRoom writes no key but the metadata and the room list. */
  lemma CreateRoomFrame(db: Db, roomId: string, data: NewRoom, now: string)
    ensures SameExcept(db, AfterCreateRoom(db, roomId, data, now).db, iset{RoomKey(roomId), ActiveRoomsKey})
  {
  }

  /** The hash updateRoomData writes: the snapshot overlaid with the updates. */
  function MergedRoomFields(cur: RoomData, u: RoomUpdates): map<string, string> {
    map[
      "roomName" := Written(if u.roomName.Some? then u.roomName else cur.roomName),
      "roomSize" := Written(if u.roomSize.Some? then Some(IntToString(u.roomSize.value)) else cur.roomSize),
      "isActive" := if u.isActive.Some? && u.isActive.value != "" then u.isActive.value else BoolToString(cur.isActive),
      "createdAt" := Written(cur.createdAt)]
  }

  /** updateRoomData: existence check, read of the snapshot, HMSET of the merge. */
  function AfterUpdateRoomData(db: Db, roomId: string, u: RoomUpdates): After {
    if !DoesRoomExist(db, roomId) then After(db, Err(RoomDoesNotExist(roomId)))
    else
      match GetRoomData(db, roomId)
      case None => After(db, Err(NoDataForRoom(roomId)))
      case Some(cur) => After(db.HMSet(RoomKey(roomId), MergedRoomFields(cur, u)), Ok(true))
  }

  /**
   * updateRoomData throws for an absent room or one without metadata and
   * changes nothing. Otherwise the metadata reads back as the snapshot
   * overlaid with the updates, `isActive` kept from the snapshot when not
   * supplied, and no other key changes.
   */
  lemma UpdateRoomDataOutcome(db: Db, roomId: string, u: RoomUpdates)
    ensures !DoesRoomExist(db, roomId) ==> AfterUpdateRoomData(db, roomId, u) == After(db, Err(RoomDoesNotExist(roomId)))
    ensures DoesRoomExist(db, roomId) && GetRoomData(db, roomId).None? ==>
      AfterUpdateRoomData(db, roomId, u) == After(db, Err(NoDataForRoom(roomId)))
    ensures DoesRoomExist(db, roomId) && GetRoomData(db, roomId).Some? ==>
      var cur := GetRoomData(db, roomId).value;
      var a := AfterUpdateRoomData(db, roomId, u);
      && a.result == Ok(true)
      && GetRoomData(a.db, roomId) == Some(RoomData(
           Some(Written(if u.roomName.Some? then u.roomName else cur.roomName)),
           Some(Written(if u.roomSize.Some? then Some(IntToString(u.roomSize.value)) else cur.roomSize)),
           if u.isActive.Some? && u.isActive.value != "" then u.isActive.value == "true" else cur.isActive,
           Some(Written(cur.createdAt))))
      && a.db.ttl == db.ttl
      && SameExcept(db, a.db, iset{RoomKey(roomId)})
  {
    if DoesRoomExist(db, roomId) && GetRoomData(db, roomId).Some? {
      var cur := GetRoomData(db, roomId).value;
      var a := AfterUpdateRoomData(db, roomId, u);
      var m := MergedRoomFields(cur, u);
      UpdateRoomDataWrites(db, roomId, u);
      assert "roomName" in m && "roomSize" in m && "isActive" in m && "createdAt" in m;
      assert a.db.HGet(RoomKey(roomId), "roomName") == Some(m["roomName"]);
      assert a.db.HGet(RoomKey(roomId), "roomSize") == Some(m["roomSize"]);
      assert a.db.HGet(RoomKey(roomId), "isActive") == Some(m["isActive"]);
      assert a.db.HGet(RoomKey(roomId), "createdAt") == Some(m["createdAt"]);
      assert BoolToString(cur.isActive) == "true" <==> cur.isActive;
    }
  }

  /** A successful update overlays the merged fields on the metadata hash and writes nothing else. */
  lemma UpdateRoomDataWrites(db: Db, roomId: string, u: RoomUpdates)
    requires DoesRoomExist(db, roomId) && GetRoomData(db, roomId).Some?
    ensures var a := AfterUpdateRoomData(db, roomId, u);
      && a.result == Ok(true)
      && a.db.HashAt(RoomKey(roomId)) == db.HashAt(RoomKey(roomId)) + MergedRoomFields(GetRoomData(db, roomId).value, u)
      && a.db.ttl == db.ttl
      && SameExcept(db, a.db, iset{RoomKey(roomId)})
  {
  }

  /** Whether it succeeds or throws, updateRoomData writes no key but the metadata hash. */
  lemma UpdateRoomDataFrame(db: Db, roomId: string, u: RoomUpdates)
    ensures SameExcept(db, AfterUpdateRoomData(db, roomId, u).db, iset{RoomKey(roomId)})
  {
  }

  /** A successful update given a size records that size, as a decimal string. */
  lemma UpdateRoomSizeWrites(db: Db, roomId: string, size: int)
    requires DoesRoomExist(db, roomId) && GetRoomData(db, roomId).Some?
    ensures var a := AfterUpdateRoomData(db, roomId, RoomUpdates(None, Some(size), None));
      && a.result == Ok(true)
      && a.db.HGet(RoomKey(roomId), "roomSize") == Some(IntToString(size))
      && SameExcept(db, a.db, iset{RoomKey(roomId)})
  {
    UpdateRoomDataWrites(db, roomId, RoomUpdates(None, Some(size), None));
  }

  /** setRoomData: HMSET of the three fields, then EXPIRE, with no existence check. */
  function AfterSetRoomData(db: Db, roomId: string, roomName: string, roomSize: string, createdAt: string): After {
    var fields := map["roomName" := roomName, "roomSize" := roomSize, "createdAt" := createdAt];
    After(db.HMSet(RoomKey(roomId), fields).Expire(RoomKey(roomId), DayInSeconds), Ok(true))
  }

  /**
   * setRoomData leaves the room existing with the three fields as given,
   * `isActive` untouched, a 24-hour expiry, and no other key changed.
   */
  lemma SetRoomDataOutcome(db: Db, roomId: string, roomName: string, roomSize: string, createdAt: string)
    ensures var a := AfterSetRoomData(db, roomId, roomName, roomSize, createdAt);
      && a.result == Ok(true)
      && DoesRoomExist(a.db, roomId)
      && a.db.HGet(RoomKey(roomId), "roomName") == Some(roomName)
      && a.db.HGet(RoomKey(roomId), "roomSize") == Some(roomSize)
      && a.db.HGet(RoomKey(roomId), "createdAt") == Some(createdAt)
      && a.db.HGet(RoomKey(roomId), "isActive") == db.HGet(RoomKey(roomId), "isActive")
      && RoomKey(roomId) in a.db.ttl && a.db.ttl[RoomKey(roomId)] == DayInSeconds
      && SameExcept(db, a.db, iset{RoomKey(roomId)})
  {
    var a := AfterSetRoomData(db, roomId, roomName, roomSize, createdAt);
    var fields := map["roomName" := roomName, "roomSize" := roomSize, "createdAt" := createdAt];
    assert a.db.HashAt(RoomKey(roomId)) == db.HashAt(RoomKey(roomId)) + fields;
    assert "isActive" !in fields;
  }

  /** The hash addUserToRoom writes for the user. */
  function UserFields(user: NewUser, now: string): map<string, string> {
    map[
      "socketId" := user.socketId,
      "isAudioEnabled" := BoolToString(user.isAudioEnabled),
      "isVideoEnabled" := BoolToString(user.isVideoEnabled),
      "avator" := user.avator,
      "joinedAt" := now]
  }

  /** addUserToRoom: one MULTI of SADD activeRooms, HMSET, SADD, EXPIRE. */
  function AfterAddUserToRoom(db: Db, roomId: string, userId: string, user: NewUser, now: string): After {
    var db1 := db.SAdd(ActiveRoomsKey, roomId);
    var db2 := db1.HMSet(UserKey(roomId, userId), UserFields(user, now));
    var db3 := db2.SAdd(UsersKey(roomId), userId);
    var db4 := db3.Expire(UsersKey(roomId), DayInSeconds);
    After(db4, Ok(true))
  }

  /**
   * addUserToRoom leaves the room in `activeRooms`, the user's hash
   * overlaid with the given data, and the user in the membership set (a
   * user already there does not grow the set), which expires in 24 hours.
   * Only those three keys change.
   */
  lemma AddUserToRoomStores(db: Db, roomId: string, userId: string, user: NewUser, now: string)
    ensures var a := AfterAddUserToRoom(db, roomId, userId, user, now);
      && a.result == Ok(true)
      && roomId in a.db.MembersAt(ActiveRoomsKey)
      && a.db.HashAt(UserKey(roomId, userId)) == db.HashAt(UserKey(roomId, userId)) + UserFields(user, now)
      && (var before := db.MembersAt(UsersKey(roomId));
          a.db.MembersAt(UsersKey(roomId)) == if userId in before then before else before + [userId])
      && UsersKey(roomId) in a.db.ttl && a.db.ttl[UsersKey(roomId)] == DayInSeconds
      && SameExcept(db, a.db, iset{ActiveRoomsKey, UserKey(roomId, userId), UsersKey(roomId)})
  {
    DirectoryKeysDistinct(roomId, roomId, userId);
    var active, record, members := ActiveRoomsKey, UserKey(roomId, userId), UsersKey(roomId);
    var db1 := db.SAdd(active, roomId);
    var db2 := db1.HMSet(record, UserFields(user, now));
    var db3 := db2.SAdd(members, userId);
    var db4 := db3.Expire(members, DayInSeconds);
    assert AfterAddUserToRoom(db, roomId, userId, user, now).db == db4;
    AddUserToRoomFrame(db, roomId, userId, user, now);
    SAddReads(db, active, roomId);
    HMSetReads(db1, record, UserFields(user, now));
    SAddReads(db2, members, userId);
    ExpireReads(db3, members, DayInSeconds);
    SameAt(db1, db4, active);
    SameAt(db, db1, record);
    SameAt(db2, db4, record);
    SameAt(db, db2, members);
    SameAt(db3, db4, members);
  }

  /** addUserToRoom writes no key but the room list, the user's record and the membership set. */
  lemma AddUserToRoomFrame(db: Db, roomId: string, userId: string, user: NewUser, now: string)
    ensures SameExcept(db, AfterAddUserToRoom(db, roomId, userId, user, now).db,
                       iset{ActiveRoomsKey, UserKey(roomId, userId), UsersKey(roomId)})
  {
    var db1 := db.SAdd(ActiveRoomsKey, roomId);
    var db2 := db1.HMSet(UserKey(roomId, userId), UserFields(user, now));
    var db3 := db2.SAdd(UsersKey(roomId), userId);
    var db4 := db3.Expire(UsersKey(roomId), DayInSeconds);
    assert AfterAddUserToRoom(db, roomId, userId, user, now).db == db4;
    SameExceptCompose(db, db1, db2, iset{ActiveRoomsKey}, iset{UserKey(roomId, userId)});
    SameExceptCompose(db, db2, db4, iset{ActiveRoomsKey} + iset{UserKey(roomId, userId)}, iset{UsersKey(roomId)});
    assert iset{ActiveRoomsKey} + iset{UserKey(roomId, userId)} + iset{UsersKey(roomId)}
        == iset{ActiveRoomsKey, UserKey(roomId, userId), UsersKey(roomId)};
  }

  /**
   * Writing a new member's fields over a hash keeps the stored id override
   * and every extra field; the written fields read back as given.
   */
  lemma ReadWrittenUser(d: Db, e: Db, roomId: string, userId: string, user: NewUser, now: string)
    requires e.HashAt(UserKey(roomId, userId)) == d.HashAt(UserKey(roomId, userId)) + UserFields(user, now)
    ensures ReadUser(e, roomId, userId)
      == ReadUser(d, roomId, userId).(socketId := Some(user.socketId), isAudioEnabled := user.isAudioEnabled,
           isVideoEnabled := user.isVideoEnabled, avator := Some(user.avator), joinedAt := Some(now))
  {
    var h0, h, fields := d.HashAt(UserKey(roomId, userId)), e.HashAt(UserKey(roomId, userId)), UserFields(user, now);
    assert fields.Keys <= RecordFields - {"userId"};
    assert h["socketId"] == user.socketId && h["avator"] == user.avator && h["joinedAt"] == now;
    assert h["isAudioEnabled"] == BoolToString(user.isAudioEnabled);
    assert h["isVideoEnabled"] == BoolToString(user.isVideoEnabled);
    assert ExtraFields(h) == ExtraFields(h0);
  }

  /**
   * After addUserToRoom the user's record reads back as given: the
   * booleans are stored as "true"/"false" and read back unchanged, while a
   * stored "userId" override and any extra field survive.
   */
  lemma AddUserToRoomRecord(db: Db, roomId: string, userId: string, user: NewUser, now: string)
    ensures var a := AfterAddUserToRoom(db, roomId, userId, user, now);
      && a.db.HGet(UserKey(roomId, userId), "isAudioEnabled") == Some(BoolToString(user.isAudioEnabled))
      && a.db.HGet(UserKey(roomId, userId), "isVideoEnabled") == Some(BoolToString(user.isVideoEnabled))
      && IsUserInRoom(a.db, roomId, userId)
    ensures ReadUser(AfterAddUserToRoom(db, roomId, userId, user, now).db, roomId, userId)
      == UserRecord(ReadUser(db, roomId, userId).userId, Some(user.socketId), user.isAudioEnabled, user.isVideoEnabled,
           Some(user.avator), Some(now), ReadUser(db, roomId, userId).extra)
  {
    AddUserToRoomStores(db, roomId, userId, user, now);
    var a := AfterAddUserToRoom(db, roomId, userId, user, now);
    ReadWrittenUser(db, a.db, roomId, userId, user, now);
    var h := a.db.HashAt(UserKey(roomId, userId));
    assert h["isAudioEnabled"] == BoolToString(user.isAudioEnabled);
    assert h["isVideoEnabled"] == BoolToString(user.isVideoEnabled);
  }

  /** removeUserFromRoom: queue DEL and SREM, read the size, then maybe update and EXEC. */
  function AfterRemoveUserFromRoom(db: Db, roomId: string, userId: string): After {
    var queued := [DelCmd(UserKey(roomId, userId)), SRemCmd(UsersKey(roomId), userId)];
    var size := db.SCard(UsersKey(roomId));
    if size <= 1 then After(db, Ok(false))
    else
      var updated := AfterUpdateRoomData(db, roomId, RoomUpdates(None, Some(size - 1), None));
      if updated.result.Err? then updated
      else After(updated.db.Exec(queued), Ok(true))
  }

  /** Past the size check and a successful update, the queued deletions run on the updated store. */
  lemma RemoveUserFromRoomRuns(db: Db, roomId: string, userId: string, size: int, updated: After, queued: seq<Command>)
    requires size == db.SCard(UsersKey(roomId)) > 1
    requires updated == AfterUpdateRoomData(db, roomId, RoomUpdates(None, Some(size - 1), None))
    requires updated.result.Ok?
    requires queued == [DelCmd(UserKey(roomId, userId)), SRemCmd(UsersKey(roomId), userId)]
    ensures AfterRemoveUserFromRoom(db, roomId, userId) == After(updated.db.Exec(queued), Ok(true))
  {
  }

  /**
   * removeUserFromRoom with at most one member returns false and changes
   * nothing: the queued deletions never run, so the last member stays.
   * With more members it throws, unchanged, when the room does not exist or
   * has no metadata.
   */
  lemma RemoveUserFromRoomRefusals(db: Db, roomId: string, userId: string)
    ensures db.SCard(UsersKey(roomId)) <= 1 ==> AfterRemoveUserFromRoom(db, roomId, userId) == After(db, Ok(false))
    ensures db.SCard(UsersKey(roomId)) > 1 && !DoesRoomExist(db, roomId) ==>
      AfterRemoveUserFromRoom(db, roomId, userId) == After(db, Err(RoomDoesNotExist(roomId)))
    ensures db.SCard(UsersKey(roomId)) > 1 && DoesRoomExist(db, roomId) && GetRoomData(db, roomId).None? ==>
      AfterRemoveUserFromRoom(db, roomId, userId) == After(db, Err(NoDataForRoom(roomId)))
  {
    UpdateRoomDataOutcome(db, roomId, RoomUpdates(None, Some(db.SCard(UsersKey(roomId)) - 1), None));
  }

  /**
   * removeUserFromRoom on a room with more than one member and with
   * metadata records the cardinality minus one as the room's size, deletes
   * the user's record, takes the user out of the membership set and
   * returns true; no other key changes.
   */
  lemma RemoveUserFromRoomRemoves(db: Db, roomId: string, userId: string)
    requires db.SCard(UsersKey(roomId)) > 1 && DoesRoomExist(db, roomId) && GetRoomData(db, roomId).Some?
    ensures var a := AfterRemoveUserFromRoom(db, roomId, userId);
      && a.result == Ok(true)
      && a.db.HGet(RoomKey(roomId), "roomSize") == Some(IntToString(db.SCard(UsersKey(roomId)) - 1))
      && a.db.HashAt(UserKey(roomId, userId)) == map[]
      && !IsUserInRoom(a.db, roomId, userId)
      && a.db.MembersAt(UsersKey(roomId)) == Without(db.MembersAt(UsersKey(roomId)), userId)
      && SameExcept(db, a.db, iset{RoomKey(roomId), UserKey(roomId, userId), UsersKey(roomId)})
  {
    var size := db.SCard(UsersKey(roomId));
    var queued := [DelCmd(UserKey(roomId, userId)), SRemCmd(UsersKey(roomId), userId)];
    var upd := AfterUpdateRoomData(db, roomId, RoomUpdates(None, Some(size - 1), None));
    DirectoryKeysDistinct(roomId, roomId, userId);
    UpdateRoomSizeWrites(db, roomId, size - 1);
    RemoveUserFromRoomRuns(db, roomId, userId, size, upd, queued);
    QueuedRemovalRuns(upd.db, roomId, userId);
    SameExceptAt(db, upd.db, iset{RoomKey(roomId)}, UsersKey(roomId));
    SameAt(upd.db, upd.db.Exec(queued), RoomKey(roomId));
    SameExceptCompose(db, upd.db, upd.db.Exec(queued), iset{RoomKey(roomId)}, iset{UserKey(roomId, userId), UsersKey(roomId)});
    assert iset{RoomKey(roomId)} + iset{UserKey(roomId, userId), UsersKey(roomId)}
        == iset{RoomKey(roomId), UserKey(roomId, userId), UsersKey(roomId)};
  }

  /** The queued deletions drop the user's record and membership and touch nothing else. */
  lemma QueuedRemovalRuns(d: Db, roomId: string, userId: string)
    ensures var e := d.Exec([DelCmd(UserKey(roomId, userId)), SRemCmd(UsersKey(roomId), userId)]);
      && !e.Exists(UserKey(roomId, userId)) && e.HashAt(UserKey(roomId, userId)) == map[]
      && e.MembersAt(UsersKey(roomId)) == Without(d.MembersAt(UsersKey(roomId)), userId)
      && e.At(RoomKey(roomId)) == d.At(RoomKey(roomId))
      && SameExcept(d, e, iset{UserKey(roomId, userId), UsersKey(roomId)})
  {
    DirectoryKeysDistinct(roomId, roomId, userId);
    var d2 := d.Del(UserKey(roomId, userId));
    var d3 := d2.SRem(UsersKey(roomId), userId);
    ExecTwo(d, DelCmd(UserKey(roomId, userId)), SRemCmd(UsersKey(roomId), userId));
    assert d2.MembersAt(UsersKey(roomId)) == d.MembersAt(UsersKey(roomId));
    assert d3.HashAt(UserKey(roomId, userId)) == d2.HashAt(UserKey(roomId, userId));
  }

  /** How updateUserData stores a value: booleans as "true"/"false", dates in ISO form. */
  function FormatField(v: FieldValue): string {
    match v
    case BoolField(b) => if b then "true" else "false"
    case DateField(iso) => iso
    case TextField(t) => t
  }

  function FormatFields(updates: map<string, FieldValue>): (fs: map<string, string>)
    ensures fs.Keys == updates.Keys
    ensures forall f | f in updates && updates[f].BoolField? :: fs[f] == "true" <==> updates[f].b
  {
    map f | f in updates :: FormatField(updates[f])
  }

  /** updateUserData: HMSET of the formatted fields; Redis refuses an HMSET without fields. */
  function AfterUpdateUserData(db: Db, roomId: string, userId: string, updates: map<string, FieldValue>): After {
    var formatted := FormatFields(updates);
    if formatted == map[] then After(db, Err(NoFieldsToWrite))
    else After(db.HMSet(UserKey(roomId, userId), formatted), Ok(true))
  }

  /**
   * updateUserData with no field fails and changes nothing. Otherwise every
   * given field holds its formatted value (a boolean reads back as given),
   * every other field and every other key is unchanged.
   */
  lemma UpdateUserDataOutcome(db: Db, roomId: string, userId: string, updates: map<string, FieldValue>)
    ensures updates == map[] ==> AfterUpdateUserData(db, roomId, userId, updates) == After(db, Err(NoFieldsToWrite))
    ensures updates != map[] ==>
      var a := AfterUpdateUserData(db, roomId, userId, updates);
      && a.result == Ok(true)
      && (forall f | f in updates :: a.db.HGet(UserKey(roomId, userId), f) == Some(FormatField(updates[f])))
      && (forall f | f in updates && updates[f].BoolField? ::
            a.db.HGet(UserKey(roomId, userId), f) == Some("true") <==> updates[f].b)
      && (forall f | f !in updates :: a.db.HGet(UserKey(roomId, userId), f) == db.HGet(UserKey(roomId, userId), f))
      && SameExcept(db, a.db, iset{UserKey(roomId, userId)})
  {
    var formatted := FormatFields(updates);
    if updates != map[] {
      assert formatted != map[] by {
        var f :| f in updates;
        assert f in formatted;
      }
      var a := AfterUpdateUserData(db, roomId, userId, updates);
      assert a.db.HashAt(UserKey(roomId, userId)) == db.HashAt(UserKey(roomId, userId)) + formatted;
    }
  }

  /**
   * A "userId" field written by updateUserData overrides the member id in
   * the member's record, as the object spread in getRoomUsers lets it.
   */
  lemma UpdateUserIdOverrides(db: Db, roomId: string, userId: string, updates: map<string, FieldValue>)
    requires "userId" in updates
    ensures var a := AfterUpdateUserData(db, roomId, userId, updates);
      && a.result == Ok(true)
      && ReadUser(a.db, roomId, userId).userId == FormatField(updates["userId"])
  {
    UpdateUserDataOutcome(db, roomId, userId, updates);
  }

  // ----------------------------------------------------- the manager object

  /** `RoomManager`: the directory operations over one Redis client. */
  class RoomManager {
    const redis: RedisClient

    constructor(redis: RedisClient)
      ensures this.redis == redis
    {
      this.redis := redis;
    }

    method CreateRoom(roomId: string, roomData: NewRoom, now: string) returns (r: Result<bool, DirectoryError>)
      modifies redis
      ensures After(redis.db, r) == AfterCreateRoom(old(redis.db), roomId, roomData, now)
    {
      var roomExists := DoesRoomExist(redis.db, roomId);
      if roomExists {
        return Err(RoomAlreadyExists(roomId));
      }
      var formatted := RoomFields(roomData, now);
      var multi := [HMSetCmd(RoomKey(roomId), formatted)];
      multi := multi + [SAddCmd(ActiveRoomsKey, roomId)];
      multi := multi + [ExpireCmd(RoomKey(roomId), DayInSeconds)];
      ExecThree(redis.db, multi[0], multi[1], multi[2]);
      redis.Exec(multi);
      return Ok(true);
    }

    method UpdateRoomData(roomId: string, updates: RoomUpdates) returns (r: Result<bool, DirectoryError>)
      modifies redis
      ensures After(redis.db, r) == AfterUpdateRoomData(old(redis.db), roomId, updates)
    {
      var roomExists := DoesRoomExist(redis.db, roomId);
      if !roomExists {
        return Err(RoomDoesNotExist(roomId));
      }
      var currentData := GetRoomData(redis.db, roomId);
      if currentData.None? {
        return Err(NoDataForRoom(roomId));
      }
      var updatedData := MergedRoomFields(currentData.value, updates);
      redis.HMSet(RoomKey(roomId), updatedData);
      return Ok(true);
    }

    method SetRoomData(roomId: string, roomName: string, roomSize: string, createdAt: string)
      returns (r: Result<bool, DirectoryError>)
      modifies redis
      ensures After(redis.db, r) == AfterSetRoomData(old(redis.db), roomId, roomName, roomSize, createdAt)
    {
      var roomKey := RoomKey(roomId);
      redis.HMSet(roomKey, map["roomName" := roomName, "roomSize" := roomSize, "createdAt" := createdAt]);
      redis.Expire(roomKey, DayInSeconds);
      return Ok(true);
    }

    method AddUserToRoom(roomId: string, userId: string, user: NewUser, now: string)
      returns (r: Result<bool, DirectoryError>)
      modifies redis
      ensures After(redis.db, r) == AfterAddUserToRoom(old(redis.db), roomId, userId, user, now)
    {
      var c0 := SAddCmd(ActiveRoomsKey, roomId);
      var c1 := HMSetCmd(UserKey(roomId, userId), UserFields(user, now));
      var c2 := SAddCmd(UsersKey(roomId), userId);
      var c3 := ExpireCmd(UsersKey(roomId), DayInSeconds);
      var multi := [c0, c1, c2, c3];
      ExecFour(redis.db, c0, c1, c2, c3);
      redis.Exec(multi);
      return Ok(true);
    }

    method RemoveUserFromRoom(roomId: string, userId: string) returns (r: Result<bool, DirectoryError>)
      modifies redis
      ensures After(redis.db, r) == AfterRemoveUserFromRoom(old(redis.db), roomId, userId)
    {
      ghost var db0 := redis.db;
      // MULTI queues the record's DEL, then the membership SREM
      var multi := [DelCmd(UserKey(roomId, userId)), SRemCmd(UsersKey(roomId), userId)];
      var roomSize := redis.db.SCard(UsersKey(roomId));
      if roomSize <= 1 {
        // returns before EXEC: the queued deletions are dropped
        return Ok(false);
      }
      var updated := UpdateRoomData(roomId, RoomUpdates(None, Some(roomSize - 1), None));
      ghost var upd := AfterUpdateRoomData(db0, roomId, RoomUpdates(None, Some(roomSize - 1), None));
      assert redis.db == upd.db && updated == upd.result;
      assert db0.SCard(UsersKey(roomId)) == roomSize;
      if updated.Err? {
        assert AfterRemoveUserFromRoom(db0, roomId, userId) == upd;
        return updated;
      }
      RemoveUserFromRoomRuns(db0, roomId, userId, roomSize, upd, multi);
      redis.Exec(multi);
      return Ok(true);
    }

    method UpdateUserData(roomId: string, userId: string, updates: map<string, FieldValue>)
      returns (r: Result<bool, DirectoryError>)
      modifies redis
      ensures After(redis.db, r) == AfterUpdateUserData(old(redis.db), roomId, userId, updates)
    {
      var formatted := FormatFields(updates);
      if formatted == map[] {
        return Err(NoFieldsToWrite);
      }
      redis.HMSet(UserKey(roomId, userId), formatted);
      return Ok(true);
    }
  }
}
