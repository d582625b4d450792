/**
 * The signaling store (`SignalingServiceManager`): per room, one offer, a
 * hash of answers by participant, append-only ICE candidate lists keyed by
 * (sender, receiver), and the offerer pointer; plus the offerer election.
 *
 * Offers, answers and candidates are kept as their JSON text, which is
 * never empty; parsing that text back is taken to give the same value.
 */
module Signaling {
  import opened Common
  import opened RedisStore
  import opened RoomDirectory

  /** The JSON text of an offer, answer or candidate. */
  type Json = s: string | s != "" witness "{}"

  // ---------------------------------------------------------------- keys

  function OfferKey(roomId: string): (k: string)
    ensures StartsWith(k, "offer:") && k[6..] == roomId
  {
    "offer:" + roomId
  }

  function AnswerKey(roomId: string): (k: string)
    ensures StartsWith(k, "answers:") && k[8..] == roomId
  {
    "answers:" + roomId
  }

  /** `ice:{room}:{sender}:{receiver}` */
  function IceKey(roomId: string, senderId: string, receiverId: string): (k: string)
    ensures StartsWith(k, IceRoomHead(roomId))
    ensures k[|IceRoomHead(roomId)|..] == senderId + ":" + receiverId
  {
    IceRoomHead(roomId) + (senderId + ":" + receiverId)
  }

  function OffererKey(roomId: string): (k: string)
    ensures StartsWith(k, "offerer:") && k[8..] == roomId
  {
    "offerer:" + roomId
  }

  /** The common beginning of every ICE key of a room. */
  function IceRoomHead(roomId: string): string {
    "ice:" + roomId + ":"
  }

  /** `ice:{room}:*` */
  function RoomIceGlob(roomId: string): Glob {
    Prefix(IceRoomHead(roomId))
  }

  /** `ice:{room}:{peer}:*`: the lists the peer sent. */
  function SenderIceGlob(roomId: string, peerId: string): Glob {
    Prefix(IceRoomHead(roomId) + peerId + ":")
  }

  /** `ice:{room}:*:{peer}`: the lists the peer receives. */
  function ReceiverIceGlob(roomId: string, peerId: string): Glob {
    Around(IceRoomHead(roomId), ":" + peerId)
  }

  /** An id in which the key separator `:` does not occur. */
  predicate ColonFree(id: string) {
    ':' !in id
  }

  // ---------------------------------------------------------------- reads

  /** getOffer: the stored offer; null when none or when the text is empty. */
  function GetOffer(db: Db, roomId: string): (o: Option<Json>)
    ensures o.Some? <==> db.GetStr(OfferKey(roomId)).Some? && db.GetStr(OfferKey(roomId)) != Some("")
    ensures o.Some? ==> o == db.GetStr(OfferKey(roomId))
  {
    match db.GetStr(OfferKey(roomId))
    case Some(s) => if s != "" then Some(s) else None
    case None => None
  }

  /** getOfferer: the raw pointer. */
  function GetOfferer(db: Db, roomId: string): (p: Option<string>)
    ensures p.Some? ==> db.Exists(OffererKey(roomId)) && db.data[OffererKey(roomId)] == Str(p.value)
    ensures !db.Exists(OffererKey(roomId)) ==> p.None?
  {
    db.GetStr(OffererKey(roomId))
  }

  /** getAnswer: the participant's answer; null when none or empty. */
  function GetAnswer(db: Db, roomId: string, participantId: string): (a: Option<Json>)
    ensures a.Some? <==> db.HGet(AnswerKey(roomId), participantId).Some? && db.HGet(AnswerKey(roomId), participantId) != Some("")
    ensures a.Some? ==> a == db.HGet(AnswerKey(roomId), participantId)
  {
    match db.HGet(AnswerKey(roomId), participantId)
    case Some(s) => if s != "" then Some(s) else None
    case None => None
  }

  /** getIceCandidates: LRANGE 0 -1 of the pair's list. */
  function GetIceCandidates(db: Db, roomId: string, senderId: string, receiverId: string): (cs: seq<string>)
    ensures !db.Exists(IceKey(roomId, senderId, receiverId)) ==> cs == []
    ensures cs != [] ==> db.data[IceKey(roomId, senderId, receiverId)] == List(cs)
  {
    db.ListAt(IceKey(roomId, senderId, receiverId))
  }

  // ---------------------------------------------------------- key algebra

  /** The four key families, and the directory's, never meet. */
  lemma SignalingKeysDistinct(r1: string, r2: string, s: string, t: string)
    ensures OfferKey(r1) != AnswerKey(r2) && OfferKey(r1) != OffererKey(r2) && OfferKey(r1) != IceKey(r2, s, t)
    ensures AnswerKey(r1) != OffererKey(r2) && AnswerKey(r1) != IceKey(r2, s, t)
    ensures OffererKey(r1) != IceKey(r2, s, t)
    ensures !DirectoryKey(OfferKey(r1)) && !DirectoryKey(AnswerKey(r1))
    ensures !DirectoryKey(OffererKey(r1)) && !DirectoryKey(IceKey(r1, s, t))
  {
    var o, a, f, i := OfferKey(r1), AnswerKey(r1), OffererKey(r1), IceKey(r1, s, t);
    assert o[0] == 'o' && o[5] == ':';
    assert f[0] == 'o' && f[5] == 'e';
    assert OffererKey(r2)[5] == 'e' && OfferKey(r2)[5] == ':';
    assert a[0] == 'a' && a[1] == 'n' && AnswerKey(r2)[0] == 'a';
    assert i[0] == 'i' && IceKey(r2, s, t)[0] == 'i';
    SignalingKeysNotDirectory(r1, s, t);
  }

  /** No signaling key is a directory key. */
  lemma SignalingKeysNotDirectory(r: string, s: string, t: string)
    ensures !DirectoryKey(OfferKey(r)) && !DirectoryKey(AnswerKey(r))
    ensures !DirectoryKey(OffererKey(r)) && !DirectoryKey(IceKey(r, s, t))
  {
    NotDirectoryByHead(OfferKey(r));
    NotDirectoryByHead(AnswerKey(r));
    NotDirectoryByHead(OffererKey(r));
    assert IceKey(r, s, t)[0] == 'i';
    NotDirectoryByHead(IceKey(r, s, t));
  }

  /** A key whose first two characters are neither "ro", "us" nor "ac" is no directory key. */
  lemma NotDirectoryByHead(k: string)
    requires |k| >= 2 && (k[0] == 'o' || k[0] == 'i' || (k[0] == 'a' && k[1] == 'n'))
    ensures !DirectoryKey(k)
  {
    assert "room:"[0] == 'r' && "user:"[0] == 'u' && ActiveRoomsKey[1] == 'c';
  }

  /**
   * For colon-free ids, `x + ":"` begins `y + ":" + rest` exactly when
   * x and y are the same id.
   */
  lemma {:induction false} SeparatedHead(x: string, y: string, rest: string)
    requires ColonFree(x) && ColonFree(y)
    ensures StartsWith(y + ":" + rest, x + ":") <==> x == y
  {
    var k := y + ":" + rest;
    if StartsWith(k, x + ":") {
      assert k[|x|] == ':' && k[|y|] == ':';
      assert forall i | 0 <= i < |y| :: k[i] == y[i];
      assert forall i | 0 <= i < |x| :: k[i] == x[i];
      assert x == k[..|x|] == y;
    }
  }

  /**
   * For colon-free ids, `":" + x` ends `rest + ":" + y` exactly when x and y
   * are the same id.
   */
  lemma {:induction false} SeparatedTail(x: string, y: string, rest: string)
    requires ColonFree(x) && ColonFree(y)
    ensures EndsWith(rest + ":" + y, ":" + x) <==> x == y
  {
    var k := rest + ":" + y;
    var n := |k|;
    if EndsWith(k, ":" + x) {
      var tail := k[n - |x| - 1..];
      assert tail == ":" + x;
      assert k[n - |x| - 1] == ':' && k[n - |y| - 1] == ':';
      assert forall i | n - |y| <= i < n :: k[i] == y[i - (n - |y|)];
      assert forall i | n - |x| <= i < n :: k[i] == x[i - (n - |x|)];
      assert x == tail[1..] == k[n - |y|..] == y;
    }
  }

  /** A common head does not change whether one string begins another. */
  lemma CommonHead(h: string, a: string, b: string)
    ensures StartsWith(h + a, h + b) <==> StartsWith(a, b)
  {
    if |b| <= |a| {
      assert (h + a)[..|h + b|] == h + a[..|b|];
      if (h + a)[..|h + b|] == h + b {
        assert a[..|b|] == (h + a[..|b|])[|h|..] == (h + b)[|h|..] == b;
      }
    }
  }

  /** For colon-free ids an ICE key names its room, sender and receiver uniquely. */
  lemma IceKeyInjective(r: string, s1: string, t1: string, s2: string, t2: string)
    requires ColonFree(s1) && ColonFree(s2)
    requires IceKey(r, s1, t1) == IceKey(r, s2, t2)
    ensures s1 == s2 && t1 == t2
  {
    var h := IceRoomHead(r);
    assert s1 + ":" + t1 == s2 + ":" + t2;
    SeparatedHead(s1, s2, t2);
    assert (s1 + ":" + t1)[|s1| + 1..] == t1;
    assert (s2 + ":" + t2)[|s2| + 1..] == t2;
  }

  /** `ice:{room}:*` matches every ICE key of the room, whatever the ids. */
  lemma RoomGlobCoversRoom(r: string, s: string, t: string)
    ensures Matches(RoomIceGlob(r), IceKey(r, s, t))
  {
  }

  /**
   * `ice:{room}:*` also matches the ICE keys of every room whose id begins
   * with `{room}:`, so clearing one room can clear another's candidates.
   */
  lemma RoomGlobOverreaches(r: string, q: string, s: string, t: string)
    ensures r + ":" + q != r
    ensures Matches(RoomIceGlob(r), IceKey(r + ":" + q, s, t))
  {
    var k := IceKey(r + ":" + q, s, t);
    assert k == IceRoomHead(r) + (q + ":" + s + ":" + t);
    assert |r + ":" + q| > |r|;
  }

  /** For colon-free room ids, `ice:{room}:*` matches only that room's keys. */
  lemma RoomGlobExact(r: string, r2: string, s: string, t: string)
    requires ColonFree(r) && ColonFree(r2)
    ensures Matches(RoomIceGlob(r), IceKey(r2, s, t)) <==> r == r2
  {
    var k := IceKey(r2, s, t);
    assert k == "ice:" + (r2 + ":" + (s + ":" + t));
    assert IceRoomHead(r) == "ice:" + (r + ":");
    SeparatedHead(r, r2, s + ":" + t);
    CommonHead("ice:", r2 + ":" + (s + ":" + t), r + ":");
  }

  /** For colon-free ids, `ice:{room}:{peer}:*` matches a key exactly when the peer sent it. */
  lemma SenderGlobExact(r: string, p: string, s: string, t: string)
    requires ColonFree(p) && ColonFree(s)
    ensures Matches(SenderIceGlob(r, p), IceKey(r, s, t)) <==> s == p
  {
    var h := IceRoomHead(r);
    var k := IceKey(r, s, t);
    assert k == h + (s + ":" + t);
    assert h + p + ":" == h + (p + ":");
    SeparatedHead(p, s, t);
    CommonHead(h, s + ":" + t, p + ":");
  }

  /** For colon-free ids, `ice:{room}:*:{peer}` matches a key exactly when the peer receives it. */
  lemma ReceiverGlobExact(r: string, p: string, s: string, t: string)
    requires ColonFree(p) && ColonFree(t)
    ensures Matches(ReceiverIceGlob(r, p), IceKey(r, s, t)) <==> t == p
  {
    var h := IceRoomHead(r);
    var k := IceKey(r, s, t);
    assert k == h + (s + ":" + t);
    SeparatedTail(p, t, h + s);
    assert h + s + ":" + t == k;
    if t == p {
      assert |h| + |":" + p| <= |k|;
    }
  }

  // ------------------------------------------------------------ election

  /** The state after `changeOfferer`, and the message it threw, if any. */
  datatype Election = Election(db: Db, thrown: Option<string>)

  function NoUsersMessage(roomId: string): string {
    "No users available in room " + roomId + " to assign as the new offerer."
  }

  /** The socket id the election picks (ioredis writes a missing one as ""). */
  function Elected(db: Db, roomId: string, rnd: real): string
    requires 0.0 <= rnd < 1.0 && |ExtractRoomData(db, roomId).users| > 0
  {
    var users := ExtractRoomData(db, roomId).users;
    Written(users[Pick(rnd, |users|)].socketId)
  }

  /** The store after the three clean-ups of changeOfferer. */
  function ClearSignaling(db: Db, roomId: string): Db {
    var db1 := db.Del(OfferKey(roomId)).Del(AnswerKey(roomId));
    db1.DelAll(db1.Keys(RoomIceGlob(roomId)))
  }

  /**
   * changeOfferer: throw when the extract has no users; otherwise pick one,
   * wipe the offer, the answers and the room's ICE lists, then set the pointer.
   */
  function AfterChangeOfferer(db: Db, roomId: string, rnd: real): Election
    requires 0.0 <= rnd < 1.0
  {
    if |ExtractRoomData(db, roomId).users| == 0 then Election(db, Some(NoUsersMessage(roomId)))
    else Election(ClearSignaling(db, roomId).SetStr(OffererKey(roomId), Elected(db, roomId, rnd), None), None)
  }

  /** The election touches no directory key. */
  lemma ChangeOffererKeepsDirectory(db: Db, roomId: string, rnd: real)
    requires 0.0 <= rnd < 1.0
    ensures SameDirectory(db, AfterChangeOfferer(db, roomId, rnd).db)
  {
    if |ExtractRoomData(db, roomId).users| > 0 {
      var db1 := db.Del(OfferKey(roomId)).Del(AnswerKey(roomId));
      var db2 := db1.DelAll(db1.Keys(RoomIceGlob(roomId)));
      var after := db2.SetStr(OffererKey(roomId), Elected(db, roomId, rnd), None);
      assert AfterChangeOfferer(db, roomId, rnd).db == after;
      SignalingKeysNotDirectory(roomId, "", "");
      forall k | DirectoryKey(k)
        ensures db.At(k) == after.At(k)
      {
        IceGlobOutsideDirectory(roomId, k);
        assert k !in db1.Keys(RoomIceGlob(roomId));
      }
    }
  }

  /** The room's ICE pattern matches no directory key. */
  lemma IceGlobOutsideDirectory(roomId: string, k: string)
    requires DirectoryKey(k)
    ensures !Matches(RoomIceGlob(roomId), k)
  {
    assert "room:"[0] == 'r' && "user:"[0] == 'u' && ActiveRoomsKey[0] == 'a';
    assert |k| > 0 && k[0] != 'i';
    assert IceRoomHead(roomId)[0] == 'i';
  }


  /**
   * changeOfferer throws, changing nothing, exactly when the room has no
   * metadata or no member: extractRoomData then reports no users.
   */
  lemma ChangeOffererThrows(db: Db, roomId: string, rnd: real)
    requires 0.0 <= rnd < 1.0
    ensures AfterChangeOfferer(db, roomId, rnd).thrown.Some?
            <==> GetRoomData(db, roomId).None? || |GetRoomUsers(db, roomId)| == 0
    ensures AfterChangeOfferer(db, roomId, rnd).thrown.Some? ==>
            AfterChangeOfferer(db, roomId, rnd) == Election(db, Some(NoUsersMessage(roomId)))
  {
    if GetRoomData(db, roomId).Some? {
      assert DoesRoomExist(db, roomId);
    }
  }

  /** The three clean-ups leave the room without offer, answers or ICE lists. */
  lemma ClearSignalingEmpties(db: Db, roomId: string)
    ensures var c := ClearSignaling(db, roomId);
      && OfferKey(roomId) !in c.data
      && AnswerKey(roomId) !in c.data
      && (forall s, t :: IceKey(roomId, s, t) !in c.data)
  {
    forall s, t
      ensures IceKey(roomId, s, t) !in ClearSignaling(db, roomId).data
    {
      RoomGlobCoversRoom(roomId, s, t);
    }
  }

  /**
   * A successful changeOfferer leaves the room without offer, answers or
   * ICE lists, and its pointer set.
   */
  lemma ChangeOffererWipes(db: Db, roomId: string, rnd: real)
    requires 0.0 <= rnd < 1.0
    requires AfterChangeOfferer(db, roomId, rnd).thrown.None?
    ensures var e := AfterChangeOfferer(db, roomId, rnd);
      && GetOfferer(e.db, roomId) == Some(Elected(db, roomId, rnd))
      && GetOffer(e.db, roomId).None?
      && (forall p :: GetAnswer(e.db, roomId, p).None?)
      && (forall s, t :: GetIceCandidates(e.db, roomId, s, t) == [])
  {
    var c := ClearSignaling(db, roomId);
    var after := c.SetStr(OffererKey(roomId), Elected(db, roomId, rnd), None);
    assert AfterChangeOfferer(db, roomId, rnd).db == after;
    ClearSignalingEmpties(db, roomId);
    SignalingKeysDistinct(roomId, roomId, "", "");
    forall s, t
      ensures GetIceCandidates(after, roomId, s, t) == []
    {
      SignalingKeysDistinct(roomId, roomId, s, t);
    }
  }

  /**
   * The socket id a successful changeOfferer records belongs to a member of
   * the room, read before the election, who is still a member afterwards:
   * the directory is unchanged.
   */
  lemma ChangeOffererElectsMember(db: Db, roomId: string, rnd: real)
    requires 0.0 <= rnd < 1.0
    requires AfterChangeOfferer(db, roomId, rnd).thrown.None?
    ensures var e := AfterChangeOfferer(db, roomId, rnd);
      && ExtractRoomData(e.db, roomId) == ExtractRoomData(db, roomId)
      && exists u | u in GetRoomUsers(e.db, roomId) :: Elected(db, roomId, rnd) == Written(u.socketId)
  {
    var e := AfterChangeOfferer(db, roomId, rnd);
    ChangeOffererKeepsDirectory(db, roomId, rnd);
    DirectoryReadsAgree(db, e.db, roomId);
    var users := ExtractRoomData(db, roomId).users;
    var i := Pick(rnd, |users|);
    var u := GetRoomUsers(db, roomId)[i];
    assert users[i] == SnapshotUser(u);
    assert u in GetRoomUsers(e.db, roomId);
  }

  // ----------------------------------------------- the manager object

  /** `SignalingServiceManager`: the signaling operations over one Redis client. */
  class SignalingServiceManager {
    const redis: RedisClient

    constructor(redis: RedisClient)
      ensures this.redis == redis
    {
      this.redis := redis;
    }

    /** addOffer: SET with an expiry; Redis refuses a non-positive one. */
    method AddOffer(roomId: string, offer: Json, ttl: nat)
      requires ttl > 0
      modifies redis
      ensures redis.db == old(redis.db).SetStr(OfferKey(roomId), offer, Some(ttl))
    {
      redis.Set(OfferKey(roomId), offer, Some(ttl));
    }

    /** setOfferer: a plain SET, which drops any expiry. */
    method SetOfferer(roomId: string, newOffererSocketId: string)
      modifies redis
      ensures redis.db == old(redis.db).SetStr(OffererKey(roomId), newOffererSocketId, None)
    {
      redis.Set(OffererKey(roomId), newOffererSocketId, None);
    }

    method ChangeOfferer(roomId: string, roomManager: RoomManager, rnd: real) returns (thrown: Option<string>)
      requires roomManager.redis == redis
      requires 0.0 <= rnd < 1.0
      modifies redis
      ensures Election(redis.db, thrown) == AfterChangeOfferer(old(redis.db), roomId, rnd)
    {
      var roomData := ExtractRoomData(redis.db, roomId);
      if |roomData.users| == 0 {
        return Some(NoUsersMessage(roomId));
      }
      var newOffererId := roomData.users[Pick(rnd, |roomData.users|)].socketId;
      RemoveOffer(roomId);
      RemoveAllAnswers(roomId);
      RemoveRoomIceCandidates(roomId);
      SetOfferer(roomId, Written(newOffererId));
      return None;
    }

    method RemoveOffer(roomId: string)
      modifies redis
      ensures redis.db == old(redis.db).Del(OfferKey(roomId))
    {
      redis.Del(OfferKey(roomId));
    }

    /** addAnswer: HSET of the participant's field, then EXPIRE of the whole hash. */
    method AddAnswer(roomId: string, participantId: string, answer: Json, ttl: int)
      modifies redis
      ensures redis.db == old(redis.db).HSet(AnswerKey(roomId), participantId, answer).Expire(AnswerKey(roomId), ttl)
    {
      redis.HSet(AnswerKey(roomId), participantId, answer);
      redis.Expire(AnswerKey(roomId), ttl);
    }

    method RemoveAllAnswers(roomId: string)
      modifies redis
      ensures redis.db == old(redis.db).Del(AnswerKey(roomId))
    {
      redis.Del(AnswerKey(roomId));
    }

    /** addIceCandidate: RPUSH at the tail, then EXPIRE. */
    method AddIceCandidate(roomId: string, senderSocketId: string, receiverSocketId: string, candidate: Json, ttl: int)
      modifies redis
      ensures redis.db == old(redis.db).RPush(IceKey(roomId, senderSocketId, receiverSocketId), candidate)
                                       .Expire(IceKey(roomId, senderSocketId, receiverSocketId), ttl)
    {
      var iceKey := IceKey(roomId, senderSocketId, receiverSocketId);
      redis.RPush(iceKey, candidate);
      redis.Expire(iceKey, ttl);
    }

    method RemoveIceCandidates(roomId: string, senderSocketId: string, receiverSocketId: string)
      modifies redis
      ensures redis.db == old(redis.db).Del(IceKey(roomId, senderSocketId, receiverSocketId))
    {
      redis.Del(IceKey(roomId, senderSocketId, receiverSocketId));
    }

    /** removePeerIceCandidates: KEYS of both patterns, then one DEL when any matched. */
    method RemovePeerIceCandidates(roomId: string, peerId: string)
      modifies redis
      ensures redis.db == old(redis.db).DelAll(
        old(redis.db).Keys(SenderIceGlob(roomId, peerId)) + old(redis.db).Keys(ReceiverIceGlob(roomId, peerId)))
    {
      var keys := redis.db.Keys(SenderIceGlob(roomId, peerId));
      var receiverKeys := redis.db.Keys(ReceiverIceGlob(roomId, peerId));
      var allKeys := keys + receiverKeys;
      if |allKeys| > 0 {
        redis.DelAll(allKeys);
      } else {
        assert redis.db.DelAll(allKeys) == redis.db;
      }
    }

    /** removeRoomIceCandidates: KEYS `ice:{room}:*`, then one DEL when any matched. */
    method RemoveRoomIceCandidates(roomId: string)
      modifies redis
      ensures redis.db == old(redis.db).DelAll(old(redis.db).Keys(RoomIceGlob(roomId)))
    {
      var keys := redis.db.Keys(RoomIceGlob(roomId));
      if |keys| > 0 {
        redis.DelAll(keys);
      } else {
        assert redis.db.DelAll(keys) == redis.db;
      }
    }
  }

  // ------------------------------------------------------ store properties

  /**
   * addOffer then getOffer gives the offer back; a second addOffer
   * replaces the first; no other room's offer and no non-offer key changes.
   */
  lemma OfferRoundTrip(db: Db, roomId: string, offer: Json, ttl: nat, other: string)
    ensures GetOffer(db.SetStr(OfferKey(roomId), offer, Some(ttl)), roomId) == Some(offer)
    ensures other != roomId ==> GetOffer(db.SetStr(OfferKey(roomId), offer, Some(ttl)), other) == GetOffer(db, other)
    ensures SameExcept(db, db.SetStr(OfferKey(roomId), offer, Some(ttl)), iset{OfferKey(roomId)})
  {
    if other != roomId {
      assert OfferKey(other)[6..] != OfferKey(roomId)[6..];
    }
  }

  /** Without a stored offer getOffer is null; removeOffer brings that back. */
  lemma OfferRemoved(db: Db, roomId: string)
    ensures GetOffer(db.Del(OfferKey(roomId)), roomId).None?
    ensures OfferKey(roomId) !in db.data ==> GetOffer(db, roomId).None?
  {
  }

  /** A later addOffer wins. */
  lemma OfferLastWriterWins(db: Db, roomId: string, first: Json, second: Json, ttl: nat)
    ensures var db2 := db.SetStr(OfferKey(roomId), first, Some(ttl)).SetStr(OfferKey(roomId), second, Some(ttl));
      GetOffer(db2, roomId) == Some(second)
  {
  }

  /**
   * addAnswer then getAnswer gives the answer back; the answers of the other
   * participants of the room and every other key are unchanged.
   */
  lemma AnswerRoundTrip(db: Db, roomId: string, participantId: string, answer: Json, ttl: int)
    requires ttl > 0
    ensures var after := db.HSet(AnswerKey(roomId), participantId, answer).Expire(AnswerKey(roomId), ttl);
      && GetAnswer(after, roomId, participantId) == Some(answer)
      && (forall q | q != participantId :: GetAnswer(after, roomId, q) == GetAnswer(db, roomId, q))
      && SameExcept(db, after, iset{AnswerKey(roomId)})
  {
  }

  /**
   * addAnswer with a timeout of zero or less stores the answer and then
   * expires the whole hash at once: no participant of the room has an
   * answer afterwards, and no other key changes.
   */
  lemma AnswerExpiresAtOnce(db: Db, roomId: string, participantId: string, answer: Json, ttl: int)
    requires ttl <= 0
    ensures var after := db.HSet(AnswerKey(roomId), participantId, answer).Expire(AnswerKey(roomId), ttl);
      && (forall q :: GetAnswer(after, roomId, q).None?)
      && SameExcept(db, after, iset{AnswerKey(roomId)})
  {
  }

  /** removeAllAnswers leaves no answer for any participant of the room. */
  lemma AnswersRemoved(db: Db, roomId: string)
    ensures forall p :: GetAnswer(db.Del(AnswerKey(roomId)), roomId, p).None?
  {
  }

  /**
   * addIceCandidate appends at the tail of its own list; for colon-free ids
   * every other (sender, receiver) list of the room is unchanged, and so is
   * every key that is not the pair's.
   */
  lemma IceAppend(db: Db, roomId: string, s: string, t: string, c: Json, ttl: int)
    requires ttl > 0
    ensures var after := db.RPush(IceKey(roomId, s, t), c).Expire(IceKey(roomId, s, t), ttl);
      && GetIceCandidates(after, roomId, s, t) == GetIceCandidates(db, roomId, s, t) + [c]
      && (forall s2, t2 | ColonFree(s) && ColonFree(s2) && (s2, t2) != (s, t) ::
            GetIceCandidates(after, roomId, s2, t2) == GetIceCandidates(db, roomId, s2, t2))
      && SameExcept(db, after, iset{IceKey(roomId, s, t)})
  {
    var after := db.RPush(IceKey(roomId, s, t), c).Expire(IceKey(roomId, s, t), ttl);
    forall s2, t2 | ColonFree(s) && ColonFree(s2) && (s2, t2) != (s, t)
      ensures GetIceCandidates(after, roomId, s2, t2) == GetIceCandidates(db, roomId, s2, t2)
    {
      if IceKey(roomId, s2, t2) == IceKey(roomId, s, t) {
        IceKeyInjective(roomId, s2, t2, s, t);
      }
    }
  }

  /**
   * addIceCandidate with a timeout of zero or less appends and then expires
   * the pair's list at once: the list reads back empty, and no other key
   * changes.
   */
  lemma IceExpiresAtOnce(db: Db, roomId: string, s: string, t: string, c: Json, ttl: int)
    requires ttl <= 0
    ensures var after := db.RPush(IceKey(roomId, s, t), c).Expire(IceKey(roomId, s, t), ttl);
      && GetIceCandidates(after, roomId, s, t) == []
      && SameExcept(db, after, iset{IceKey(roomId, s, t)})
  {
  }

  /**
   * removePeerIceCandidates, for colon-free ids, empties exactly the room's
   * lists the peer sends or receives; every key it does not match is unchanged.
   */
  lemma PeerIceRemoved(db: Db, roomId: string, peerId: string)
    ensures var after := db.DelAll(db.Keys(SenderIceGlob(roomId, peerId)) + db.Keys(ReceiverIceGlob(roomId, peerId)));
      && (forall s, t | ColonFree(peerId) && ColonFree(s) && ColonFree(t) ::
            GetIceCandidates(after, roomId, s, t)
            == if s == peerId || t == peerId then [] else GetIceCandidates(db, roomId, s, t))
      && (forall k | !Matches(SenderIceGlob(roomId, peerId), k) && !Matches(ReceiverIceGlob(roomId, peerId), k) ::
            after.At(k) == db.At(k))
  {
    var after := db.DelAll(db.Keys(SenderIceGlob(roomId, peerId)) + db.Keys(ReceiverIceGlob(roomId, peerId)));
    forall s, t | ColonFree(peerId) && ColonFree(s) && ColonFree(t)
      ensures GetIceCandidates(after, roomId, s, t)
              == if s == peerId || t == peerId then [] else GetIceCandidates(db, roomId, s, t)
    {
      SenderGlobExact(roomId, peerId, s, t);
      ReceiverGlobExact(roomId, peerId, s, t);
    }
  }

  /**
   * removeRoomIceCandidates empties every list of the room; for colon-free
   * room ids the lists of every other room are unchanged.
   */
  lemma RoomIceRemoved(db: Db, roomId: string)
    ensures var after := db.DelAll(db.Keys(RoomIceGlob(roomId)));
      && (forall s, t :: GetIceCandidates(after, roomId, s, t) == [])
      && (forall r2, s, t | ColonFree(roomId) && ColonFree(r2) && r2 != roomId ::
            GetIceCandidates(after, r2, s, t) == GetIceCandidates(db, r2, s, t))
  {
    var after := db.DelAll(db.Keys(RoomIceGlob(roomId)));
    forall s, t
      ensures GetIceCandidates(after, roomId, s, t) == []
    {
      RoomGlobCoversRoom(roomId, s, t);
    }
    forall r2, s, t | ColonFree(roomId) && ColonFree(r2) && r2 != roomId
      ensures GetIceCandidates(after, r2, s, t) == GetIceCandidates(db, r2, s, t)
    {
      RoomGlobExact(roomId, r2, s, t);
    }
  }
}
