# videoCallApp signaling and room coordination, modelled in Dafny

This project models the part of the video call application that coordinates
rooms and WebRTC signaling.

- **The Redis room directory** (`RoomManager`). It keeps room metadata hashes, per-room membership sets, per-user records and the global `activeRooms` index.
- **The Redis signaling store** (`SignalingServiceManager`). It keeps each room's offer, the answers hash, the per-pair ICE candidate lists and the offerer pointer, and it elects a new offerer.
- **The Redis-backed socket service** (`SocketSetup`). These are the `Event:*` handlers: join-room with its capacity check, first-joiner election and stored-offer hand-out; leave-room with re-election; offer, answer, ICE relay, chat over the pub/sub bus and the room-data acknowledgement.
- **The in-memory room registry** of the plain socket.io server. It is a `Map` from room ids to `Set`s of user ids, shared by every connection's join-room, message and disconnect handlers.
- **The front end's participant list** (`useParticipants`).
- **The dashed meeting id generator** (`generateDashedId`).
- **The user-id URL codec** (`encodeUserId` and `decodeUserId`). It is UTF-8 through `TextEncoder`/`TextDecoder` followed by Base64 through `btoa`/`atob`.

Redis is modelled as a value, `RedisStore.Db`, held by a `RedisClient` object that both managers share. Each command is a pure function on that value.

Every manager method and socket handler is a method on a class. Its `ensures` ties the new store, and the emissions it logs, to a pure `After…` function of the old state. Lemmas then prove what those functions mean: round trips, frames ("no other key changes"), refusals, and election outcomes.

The front end is modelled in the same way. The participant list is a class whose methods reassign its `participants` sequence. The id generator's loop and the decoder's byte loop are methods with loop invariants. The codecs are pure functions with round-trip lemmas.

Several behaviours of the code are modelled as written, and lemmas state them:

- **join-room (services).**
  - Its "leave previous room" block inspects and leaves the room being joined, so the previous room's membership is never touched.
  - The offerer pointer holds a socket id but is compared with user ids.
  - The last member of a room is never removed by removeUserFromRoom, so a sole leaver re-elects its own socket.
- **Redis keys.** Directory keys are not prefix-free: the membership set of room `r` is the metadata hash of room `r:users`. The ICE glob `ice:{room}:*` also matches rooms whose ids begin with `{room}:`.
- **join-room (registry).**
  - It overwrites `currentUserId` before anything else, so a connection that joins under a new user id leaves its old id behind in the previous room.
  - Rejoining one's own room as its only member unregisters it.
  - A later join from such a lost room throws.

## Model

| member | source | states |
|---|---|---|
| Common.Without | app/backend/src/sockets/socketSetup.ts:40 | `Set.delete` on a duplicate-free member list: the result holds exactly the other members, never the removed one, and is no longer |
| Common.Pick | app/frontend/util/generateId.ts:7 | `Math.floor(r * n)` for a `Math.random()` draw is a valid index below `n` |
| RoomDirectory.RoomKey | app/backend/src/redisData/roomManager.ts:12-14 | the metadata key is `room:` followed by the room id, which can be read back from it |
| RoomDirectory.UserKey | app/backend/src/redisData/roomManager.ts:21-23 | the user key is `user:{roomId}:{userId}` with both ids at known offsets |
| RoomDirectory.UsersKey | app/backend/src/redisData/roomManager.ts:205 | the membership key starts with `room:` and ends with `:users` |
| RoomDirectory.GetRoomData | app/backend/src/redisData/roomManager.ts:180-195 | null exactly for an absent or empty metadata hash; `isActive` holds exactly when the stored field is "true" |
| RoomDirectory.DoesRoomExist | app/backend/src/redisData/roomManager.ts:30-39 | true exactly when the metadata key is present; a room that does not exist has no metadata |
| RoomDirectory.ReadUser | app/backend/src/redisData/roomManager.ts:207-217 | the record's user id is a stored "userId" field when there is one and the member id otherwise; socket id, avatar and join time are the stored fields; each media flag is true exactly when the stored text is "true"; every other stored field is carried along |
| RoomDirectory.GetRoomUsers | app/backend/src/redisData/roomManager.ts:202-225 | one record per member of the membership set, in the set's order, each the spread of that member's hash read by ReadUser |
| RoomDirectory.GetRoomSize | app/backend/src/redisData/roomManager.ts:263-272 | the size is the number of records getRoomUsers returns |
| RoomDirectory.IsUserInRoom | app/backend/src/redisData/roomManager.ts:236-244 | true exactly when the member's hash key is present; a non-member's record reads as the bare id with no socket, no avatar, no join time, audio and video off and no extra field |
| RoomDirectory.IsRoomEmpty | app/backend/src/redisData/roomManager.ts:246-255 | empty exactly when getRoomUsers returns no record |
| RoomDirectory.SnapshotRoom | app/backend/src/redisData/roomManager.ts:419-424 | the snapshot's `isActive` text is "true" exactly when the room is active |
| RoomDirectory.SnapshotUser | app/backend/src/redisData/roomManager.ts:425-432 | the snapshot keeps the user and socket ids, and each flag text is "true" exactly when the flag is set |
| RoomDirectory.ExtractRoomData | app/backend/src/redisData/roomManager.ts:360-447 | never throws; tells an absent room, a room without metadata and a full snapshot apart, and always names the room asked for |
| RoomDirectory.ExtractMultipleRoomsData | app/backend/src/redisData/roomManager.ts:454-470 | one extract per requested id, in order, so no room is dropped |
| RoomDirectory.ExtractAllActiveRoomsData | app/backend/src/redisData/roomManager.ts:476-484 | one extract per member of `activeRooms`, for that member's id |
| RoomDirectory.DirectoryKeysDistinct | app/backend/src/redisData/roomManager.ts:12-23 | the metadata, membership, user and `activeRooms` keys of a room never coincide |
| RoomDirectory.DirectoryReadsAgree | app/backend/src/redisData/roomManager.ts:360-447 | every directory read depends only on directory keys: stores that agree on them extract every room alike |
| RoomDirectory.CreateRoomOutcome | app/backend/src/redisData/roomManager.ts:43-77 | throws and changes nothing on an existing room; otherwise the metadata reads back as given (createdAt defaulted to now, never active), the room is in `activeRooms`, expires in 24 hours, and no other key changes |
| RoomDirectory.UpdateRoomDataOutcome | app/backend/src/redisData/roomManager.ts:80-114 | throws and changes nothing for an absent room or one without metadata; otherwise the metadata is the snapshot overlaid with the updates, `isActive` kept unless supplied, and nothing else changes |
| RoomDirectory.SetRoomDataOutcome | app/backend/src/redisData/roomManager.ts:121-135 | the room exists with the three fields as given, `isActive` untouched, a 24-hour expiry, and no other key changed |
| RoomDirectory.AddUserToRoomStores | app/backend/src/redisData/roomManager.ts:142-172 | the room is in `activeRooms`, the user's hash is overlaid with the data, and the user is a member (no growth if already one); only those keys change |
| RoomDirectory.AddUserToRoomFrame | app/backend/src/redisData/roomManager.ts:142-172 | addUserToRoom writes no key but `activeRooms`, the user's record and the room's membership set |
| RoomDirectory.QueuedRemovalRuns | app/backend/src/redisData/roomManager.ts:285-289 | the queued DEL and SREM leave the user without a record and out of the membership set, keep the metadata, and touch no other key |
| RoomDirectory.CreateRoomWrites | app/backend/src/redisData/roomManager.ts:43-77 | a created room's metadata hash is exactly the three given fields, the room is in `activeRooms`, and the metadata expires in 24 hours |
| RoomDirectory.AddUserToRoomRecord | app/backend/src/redisData/roomManager.ts:156-162 | the five written fields read back as given, the booleans round-tripping through "true"/"false"; a stored "userId" override and any other stored field survive the HMSET |
| RoomDirectory.ReadWrittenUser | app/backend/src/redisData/roomManager.ts:156-162 | writing a new member's fields over a hash changes exactly the five written fields of its record |
| RoomDirectory.UpdateRoomDataWrites | app/backend/src/redisData/roomManager.ts:80-114 | on a room with metadata the update succeeds, overlays the merged fields on the metadata hash, keeps every expiry and changes no other key |
| RoomDirectory.UpdateRoomSizeWrites | app/backend/src/redisData/roomManager.ts:80-114 | a successful update given only a size records that size as its decimal string |
| RoomDirectory.RemoveUserFromRoomRefusals | app/backend/src/redisData/roomManager.ts:280-304 | with at most one member it returns false and changes nothing, since the queued deletions never run; with more members it throws, unchanged, when the room or its metadata is missing |
| RoomDirectory.RemoveUserFromRoomRemoves | app/backend/src/redisData/roomManager.ts:280-304 | with several members and metadata it records size = cardinality − 1, deletes the user's record and membership, returns true, and changes no other key |
| RoomDirectory.FormatFields | app/backend/src/redisData/roomManager.ts:317-326 | every given field is formatted, and a boolean is stored as "true" exactly when it is true |
| RoomDirectory.UpdateUserDataOutcome | app/backend/src/redisData/roomManager.ts:313-334 | with no field it fails and changes nothing; otherwise each given field holds its formatted value and every other field and key is unchanged |
| RoomDirectory.UpdateUserIdOverrides | app/backend/src/redisData/roomManager.ts:313-330 | an updateUserData that writes a "userId" field succeeds and renames the member in its getRoomUsers record |
| RoomDirectory.RoomManager.constructor | app/backend/src/redisData/roomManager.ts:3-5 | the manager works on the given client |
| RoomDirectory.RoomManager.CreateRoom | app/backend/src/redisData/roomManager.ts:43-77 | the new store and the result are the createRoom transition that CreateRoomOutcome characterises |
| RoomDirectory.RoomManager.UpdateRoomData | app/backend/src/redisData/roomManager.ts:80-114 | the new store and the result are the updateRoomData transition that UpdateRoomDataOutcome characterises |
| RoomDirectory.RoomManager.SetRoomData | app/backend/src/redisData/roomManager.ts:121-135 | the new store is the setRoomData transition that SetRoomDataOutcome characterises |
| RoomDirectory.RoomManager.AddUserToRoom | app/backend/src/redisData/roomManager.ts:142-172 | the new store is the addUserToRoom MULTI that AddUserToRoomStores characterises |
| RoomDirectory.RoomManager.RemoveUserFromRoom | app/backend/src/redisData/roomManager.ts:280-304 | the new store and result, including the early return that drops the queued MULTI, are those the two RemoveUserFromRoom lemmas characterise |
| RoomDirectory.RoomManager.UpdateUserData | app/backend/src/redisData/roomManager.ts:313-334 | the new store is the formatted HMSET that UpdateUserDataOutcome characterises |
| Signaling.OfferKey | app/backend/src/redisData/connectionManger.ts:11-13 | the offer key is `offer:` followed by the room id |
| Signaling.AnswerKey | app/backend/src/redisData/connectionManger.ts:15-17 | the answers key is `answers:` followed by the room id |
| Signaling.IceKey | app/backend/src/redisData/connectionManger.ts:22-24 | an ICE key is the room's ICE head followed by `{sender}:{receiver}` |
| Signaling.OffererKey | app/backend/src/redisData/connectionManger.ts:27-29 | the pointer key is `offerer:` followed by the room id |
| Signaling.GetOffer | app/backend/src/redisData/connectionManger.ts:43-47 | an offer is returned exactly when the stored text is present and non-empty, and is that text; otherwise null |
| Signaling.GetOfferer | app/backend/src/redisData/connectionManger.ts:51-54 | the stored pointer text as it is, empty or not; null when the pointer key is absent |
| Signaling.GetAnswer | app/backend/src/redisData/connectionManger.ts:117-121 | an answer is returned exactly when the participant's field is present and non-empty, and is that field; otherwise null |
| Signaling.GetIceCandidates | app/backend/src/redisData/connectionManger.ts:148-156 | the pair's whole list; empty when the list key is absent |
| Signaling.SignalingKeysDistinct | app/backend/src/redisData/connectionManger.ts:11-29 | the offer, answers, ICE and pointer keys never coincide with each other or with any directory key |
| Signaling.SeparatedHead | app/backend/src/redisData/connectionManger.ts:22-24 | for colon-free ids, `x:` begins `y:…` exactly when x = y |
| Signaling.SeparatedTail | app/backend/src/redisData/connectionManger.ts:22-24 | for colon-free ids, `:x` ends `…:y` exactly when x = y |
| Signaling.CommonHead | app/backend/src/redisData/connectionManger.ts:22-24 | a shared head does not change whether one string begins another |
| Signaling.IceKeyInjective | app/backend/src/redisData/connectionManger.ts:22-24 | for colon-free ids an ICE key determines its sender and receiver |
| Signaling.RoomGlobCoversRoom | app/backend/src/redisData/connectionManger.ts:192-198 | `ice:{room}:*` matches every ICE key of the room |
| Signaling.RoomGlobOverreaches | app/backend/src/redisData/connectionManger.ts:192-198 | `ice:{room}:*` also matches ICE keys of a room whose id begins with `{room}:` |
| Signaling.RoomGlobExact | app/backend/src/redisData/connectionManger.ts:192-198 | for colon-free room ids the room glob matches only that room's ICE keys |
| Signaling.SenderGlobExact | app/backend/src/redisData/connectionManger.ts:173-187 | for colon-free ids the sender glob matches a room's ICE key exactly when the peer is its sender |
| Signaling.ReceiverGlobExact | app/backend/src/redisData/connectionManger.ts:173-187 | for colon-free ids the receiver glob matches a room's ICE key exactly when the peer is its receiver |
| Signaling.ChangeOffererKeepsDirectory | app/backend/src/redisData/connectionManger.ts:70-92 | the election changes no directory key |
| Signaling.ChangeOffererThrows | app/backend/src/redisData/connectionManger.ts:70-78 | it throws, changing nothing, exactly when the room has no metadata or no member |
| Signaling.ClearSignalingEmpties | app/backend/src/redisData/connectionManger.ts:83-86 | after the clean-ups the room has no offer, no answers and no ICE list |
| Signaling.ChangeOffererWipes | app/backend/src/redisData/connectionManger.ts:70-92 | a successful election leaves no offer, answers or ICE lists and sets the pointer |
| Signaling.ChangeOffererElectsMember | app/backend/src/redisData/connectionManger.ts:79-89 | the recorded socket id is that of a member read before the election, who is still a member afterwards |
| Signaling.SignalingServiceManager.constructor | app/backend/src/redisData/connectionManger.ts:6-8 | the manager works on the given client |
| Signaling.SignalingServiceManager.AddOffer | app/backend/src/redisData/connectionManger.ts:34-37 | the offer is SET with its expiry, replacing any earlier one (see OfferRoundTrip) |
| Signaling.SignalingServiceManager.SetOfferer | app/backend/src/redisData/connectionManger.ts:59-62 | the pointer is SET without expiry |
| Signaling.SignalingServiceManager.ChangeOfferer | app/backend/src/redisData/connectionManger.ts:70-92 | the new store and the thrown message are the election the ChangeOfferer lemmas characterise |
| Signaling.SignalingServiceManager.RemoveOffer | app/backend/src/redisData/connectionManger.ts:98-101 | the offer key is deleted (see OfferRemoved) |
| Signaling.SignalingServiceManager.AddAnswer | app/backend/src/redisData/connectionManger.ts:106-110 | the participant's field is set, then the whole hash gets the expiry, or is deleted when the timeout is not positive (see AnswerRoundTrip and AnswerExpiresAtOnce) |
| Signaling.SignalingServiceManager.RemoveAllAnswers | app/backend/src/redisData/connectionManger.ts:125-128 | the answers hash is deleted (see AnswersRemoved) |
| Signaling.SignalingServiceManager.AddIceCandidate | app/backend/src/redisData/connectionManger.ts:133-143 | the candidate is pushed on the pair's list, which then gets the expiry or is deleted when the timeout is not positive (see IceAppend and IceExpiresAtOnce) |
| Signaling.SignalingServiceManager.RemoveIceCandidates | app/backend/src/redisData/connectionManger.ts:161-168 | the pair's list is deleted |
| Signaling.SignalingServiceManager.RemovePeerIceCandidates | app/backend/src/redisData/connectionManger.ts:173-187 | every key matching either peer pattern is deleted (see PeerIceRemoved) |
| Signaling.SignalingServiceManager.RemoveRoomIceCandidates | app/backend/src/redisData/connectionManger.ts:192-198 | every key matching the room pattern is deleted (see RoomIceRemoved) |
| Signaling.OfferRoundTrip | app/backend/src/redisData/connectionManger.ts:34-47 | getOffer after addOffer gives the offer back; other rooms' offers and non-offer keys are unchanged |
| Signaling.OfferRemoved | app/backend/src/redisData/connectionManger.ts:98-101 | after removeOffer getOffer is null |
| Signaling.OfferLastWriterWins | app/backend/src/redisData/connectionManger.ts:34-47 | of two addOffer calls, getOffer returns the later offer |
| Signaling.AnswerRoundTrip | app/backend/src/redisData/connectionManger.ts:106-121 | with a positive timeout, getAnswer after addAnswer gives the answer back; other participants' answers and other keys are unchanged |
| Signaling.AnswerExpiresAtOnce | app/backend/src/redisData/connectionManger.ts:106-110 | with a timeout of zero or less the EXPIRE deletes the room's answers hash: no participant has an answer afterwards, and no other key changes |
| Signaling.AnswersRemoved | app/backend/src/redisData/connectionManger.ts:117-128 | after removeAllAnswers no participant of the room has an answer |
| Signaling.IceAppend | app/backend/src/redisData/connectionManger.ts:133-156 | with a positive timeout, the candidate lands at the tail of its own pair's list; for colon-free ids every other list and key is unchanged |
| Signaling.IceExpiresAtOnce | app/backend/src/redisData/connectionManger.ts:133-143 | with a timeout of zero or less the EXPIRE deletes the pair's list, which reads back empty, and no other key changes |
| Signaling.PeerIceRemoved | app/backend/src/redisData/connectionManger.ts:173-187 | for colon-free ids exactly the room's lists the peer sends or receives are emptied; unmatched keys are unchanged |
| Signaling.RoomIceRemoved | app/backend/src/redisData/connectionManger.ts:192-198 | every list of the room is emptied; for colon-free ids other rooms' lists are unchanged |
| SessionCoordinator.Channel | app/backend/src/services/socketSetup.ts:119 | a room's chat channel is `MESSAGE` followed by the room id |
| SessionCoordinator.OfferEmissions | app/backend/src/services/socketSetup.ts:203-217 | at most one offer-received per user, every one addressed to the joiner and carrying the stored offer |
| SessionCoordinator.JoinPrepare | app/backend/src/services/socketSetup.ts:135-143 | after the room setup the room exists; an existing room is left as it was |
| SessionCoordinator.JoinSignal | app/backend/src/services/socketSetup.ts:194-218 | the WebRTC step changes only the store and appends to the emissions; the session fields are kept |
| SessionCoordinator.JoinAdmit | app/backend/src/services/socketSetup.ts:153-218 | past the capacity check the socket joins the room's socket.io room and leaves none, emissions are only appended, and the current user and the publications are kept |
| SessionCoordinator.AfterJoinRoom | app/backend/src/services/socketSetup.ts:127-221 | join-room records the user as current, only appends emissions and publishes nothing |
| SessionCoordinator.LeaveSignal | app/backend/src/services/socketSetup.ts:254-266 | the step after removeUserFromRoom changes only the store and appends to the emissions |
| SessionCoordinator.AfterLeaveRoom | app/backend/src/services/socketSetup.ts:242-271 | leave-room only appends emissions, joins no socket.io room, and keeps the current room, the current user, the subscriptions and the publications |
| SessionCoordinator.AfterAnswer | app/backend/src/services/socketSetup.ts:49-66 | the answer handler changes only the store and sends exactly one emission, to the offerer's socket |
| SessionCoordinator.AfterBusMessage | app/backend/src/services/socketSetup.ts:280-287 | the subscriber changes nothing but the emissions, to which it adds at most one |
| SessionCoordinator.SocketSetup.constructor | app/backend/src/services/socketSetup.ts:18-32 | both managers share one client; no room, subscription, emission or publication yet |
| SessionCoordinator.SocketSetup.Offer | app/backend/src/services/socketSetup.ts:41-48 | the offer is stored for five minutes and nothing else changes |
| SessionCoordinator.SocketSetup.Answer | app/backend/src/services/socketSetup.ts:49-66 | the answer handler's store-and-forward (see AnswerForwardedToOfferer) |
| SessionCoordinator.SocketSetup.ExchangeIceCandidate | app/backend/src/services/socketSetup.ts:68-97 | the candidate is forwarded to the receiver with the sender's socket id, and nothing is stored |
| SessionCoordinator.SocketSetup.ChangeOffererRelay | app/backend/src/services/socketSetup.ts:99-109 | the named socket alone is asked to create an offer |
| SessionCoordinator.SocketSetup.Message | app/backend/src/services/socketSetup.ts:113-123 | the message, room and user are published on the room's channel and nothing else changes |
| SessionCoordinator.SocketSetup.OnBusMessage | app/backend/src/services/socketSetup.ts:280-287 | the subscriber's filter (see BusRelaysOwnChannelOnly) |
| SessionCoordinator.SocketSetup.RoomData | app/backend/src/services/socketSetup.ts:224-239 | always status "ok"; "Room does not exist" exactly when the metadata is absent yet the membership set is not empty, otherwise the room's users |
| SessionCoordinator.SocketSetup.SendStoredOffer | app/backend/src/services/socketSetup.ts:203-217 | the loop logs exactly the offer emissions for the users |
| SessionCoordinator.SocketSetup.JoinRoom | app/backend/src/services/socketSetup.ts:127-221 | the join-room handler's transition, characterised by the Join lemmas |
| SessionCoordinator.SocketSetup.LeavePrevious | app/backend/src/services/socketSetup.ts:153-162 | the "leave previous room" block as written: it leaves and inspects the room being joined |
| SessionCoordinator.SocketSetup.Admit | app/backend/src/services/socketSetup.ts:165-218 | join-room past the capacity check (see AdmitOutcome) |
| SessionCoordinator.SocketSetup.Signal | app/backend/src/services/socketSetup.ts:194-218 | join-room's WebRTC step (see AdmitFirstElectsJoiner and AdmitLaterGetsOffers) |
| SessionCoordinator.SocketSetup.LeaveRoom | app/backend/src/services/socketSetup.ts:242-271 | the leave-room handler's transition, characterised by the Leave lemmas |
| SessionCoordinator.OfferEmissionsSplit | app/backend/src/services/socketSetup.ts:203-217 | the loop's emissions over two runs of users are those of each run, in order |
| SessionCoordinator.OfferEmissionsCount | app/backend/src/services/socketSetup.ts:203-217 | one offer per user when no user's socket is the pointer; none when every user's is |
| SessionCoordinator.UsersKeyInjective | app/backend/src/redisData/roomManager.ts:205 | different rooms have different membership keys |
| SessionCoordinator.UserKeySameUser | app/backend/src/redisData/roomManager.ts:21-23 | a user's key in two rooms coincides only when the rooms do |
| SessionCoordinator.ChannelInjective | app/backend/src/services/socketSetup.ts:119 | different rooms have different chat channels |
| SessionCoordinator.JoinCreatesAbsentRoom | app/backend/src/services/socketSetup.ts:135-143 | an existing room is left alone; an absent one is created named after its id, size "0", inactive, created now, indexed, with membership untouched |
| SessionCoordinator.JoinSignalKeepsDirectory | app/backend/src/services/socketSetup.ts:194-218 | the WebRTC step changes no directory key and only appends emissions |
| SessionCoordinator.JoinRefusedWhenFull | app/backend/src/services/socketSetup.ts:146-151 | a full room gets only the error to the caller; the current room, subscriptions and memberships stay |
| SessionCoordinator.AdmitStoreOutcome | app/backend/src/services/socketSetup.ts:165-174 | with metadata the user becomes a member holding the given data, the size field is cardinality + 1, and no key outside the admission's four changes |
| SessionCoordinator.AdmitStoreFrame | app/backend/src/services/socketSetup.ts:165-174 | on a room with metadata the admission's store part changes no key but the metadata, `activeRooms`, the user's record and the membership set |
| SessionCoordinator.AdmitStoreRefused | app/backend/src/services/socketSetup.ts:165-174 | without metadata the size update throws after the user was added, and the add alone stays |
| SessionCoordinator.ReadUserSocket | app/backend/src/redisData/roomManager.ts:211-221 | a stored user record reads back its socket id |
| SessionCoordinator.AdmitOutcome | app/backend/src/services/socketSetup.ts:165-182 | the user is a member at the caller's socket, the size is recorded, the room is current and its channel subscribed, and both announcements are sent |
| SessionCoordinator.JoinIsAdmit | app/backend/src/services/socketSetup.ts:127-165 | past the capacity check, join-room is the admission |
| SessionCoordinator.JoinAdmits | app/backend/src/services/socketSetup.ts:127-221 | a join into a room that is not full and has metadata reaches the admission's outcome |
| SessionCoordinator.JoinAdmitFrame | app/backend/src/services/socketSetup.ts:154-174 | an admission changes no directory key outside its four and removes the socket from no socket.io room |
| SessionCoordinator.PreviousKeysOutside | app/backend/src/redisData/roomManager.ts:12-23 | the previous room's keys are not the joined room's, unless the joined room is named after the previous room's membership key |
| SessionCoordinator.UsersKeyIsRoomKey | app/backend/src/redisData/roomManager.ts:12-14 | the membership key of room `r` is the metadata key of room `r:users` |
| SessionCoordinator.JoinKeepsPreviousRoom | app/backend/src/services/socketSetup.ts:154-162 | join-room leaves the previous room's membership and the user's record there untouched |
| SessionCoordinator.JoinKeepsPreviousSocketRoom | app/backend/src/services/socketSetup.ts:154-162 | the socket leaves only the room being joined, and rejoins it |
| SessionCoordinator.SizedRoomReadable | app/backend/src/redisData/roomManager.ts:360-447 | a room with a size field exists and extracts in full |
| SessionCoordinator.AdmitKeysAreDirectory | app/backend/src/redisData/roomManager.ts:142-172 | the admission's keys are directory keys, so no signaling key is among them |
| SessionCoordinator.SoleMemberElected | app/backend/src/redisData/connectionManger.ts:79-89 | in a room whose only member is the user, the election picks that user's socket |
| SessionCoordinator.AdmitFirstElectsJoiner | app/backend/src/services/socketSetup.ts:194-201 | the first joiner is asked to create the offer, becomes the pointer, and any stored offer is wiped |
| SessionCoordinator.JoinFirstBecomesOfferer | app/backend/src/services/socketSetup.ts:127-201 | joining an empty room with metadata makes the joiner the offerer |
| SessionCoordinator.JoinSignalSendsStoredOffer | app/backend/src/services/socketSetup.ts:203-217 | for any size but one the joiner gets at most one stored offer per member, and nothing else changes |
| SessionCoordinator.AdmitStoreKeepsSignaling | app/backend/src/services/socketSetup.ts:165-174 | the admission's store part leaves the offer and pointer alone |
| SessionCoordinator.AdmitLaterGetsOffers | app/backend/src/services/socketSetup.ts:203-217 | a later joiner elects nobody and is sent only the stored offer and pointer, at most once per member |
| SessionCoordinator.JoinPrepareKeeps | app/backend/src/services/socketSetup.ts:135-143 | room setup keeps the membership, offer and pointer |
| SessionCoordinator.JoinLaterGetsOffers | app/backend/src/services/socketSetup.ts:127-218 | joining a room with one other member sends the joiner only the stored offer, at most twice, and elects nobody |
| SessionCoordinator.LeaveSignalFrame | app/backend/src/services/socketSetup.ts:254-263 | re-election changes no directory key and only appends emissions |
| SessionCoordinator.LeaveRefused | app/backend/src/services/socketSetup.ts:243-249 | leaving an unknown user or room sends only the error to the caller |
| SessionCoordinator.LeaveLastMemberStays | app/backend/src/services/socketSetup.ts:242-271 | the last member is not removed and the directory is unchanged, though the socket leaves the room named after the user id |
| SessionCoordinator.LeaveRemovesMember | app/backend/src/services/socketSetup.ts:242-271 | one of several members is removed, record and membership, with the size set to the old cardinality − 1 |
| SessionCoordinator.RemovalKeepsSignaling | app/backend/src/redisData/roomManager.ts:280-304 | removeUserFromRoom never touches the offer or pointer |
| SessionCoordinator.LeaveWithoutReelection | app/backend/src/services/socketSetup.ts:254-266 | a leaver the pointer does not name causes no election; the offer and pointer stay and the room is told |
| SessionCoordinator.WithoutKeepsOthers | app/backend/src/redisData/roomManager.ts:280-304 | removing one value from two or more distinct ones leaves some |
| SessionCoordinator.RemovalLeavesMember | app/backend/src/redisData/roomManager.ts:280-304 | after removeUserFromRoom a room with metadata still has metadata and a member |
| SessionCoordinator.LeaveReelects | app/backend/src/services/socketSetup.ts:254-263 | a pointer-named leaver triggers an election among the remaining members, wipes the offer, and the room is told, naming the leaver's socket |
| SessionCoordinator.LeaveSoleMemberReelectsItself | app/backend/src/services/socketSetup.ts:242-263 | a pointer-named sole member is not removed and its own socket is elected again |
| SessionCoordinator.AnswerForwardedToOfferer | app/backend/src/services/socketSetup.ts:49-66 | the answer reaches the offerer's socket as sent, is stored under the answering user, and only the answers hash changes |
| SessionCoordinator.BusRelaysOwnChannelOnly | app/backend/src/services/socketSetup.ts:280-287 | the subscriber re-emits to every socket exactly the messages on its own room's channel |
| RoomRegistry.SetAdd | app/backend/src/sockets/socketSetup.ts:48 | `Set.add`: the element is a member afterwards, and membership is otherwise unchanged |
| RoomRegistry.AfterJoin | app/backend/src/sockets/socketSetup.ts:19-60 | join-room records the user id as current and only appends emissions |
| RoomRegistry.EnterRoom | app/backend/src/sockets/socketSetup.ts:36-57 | past the capacity check it throws exactly when the current room is no longer registered, emitting nothing; otherwise the new room is current and joined |
| RoomRegistry.AfterMessage | app/backend/src/sockets/socketSetup.ts:63-71 | the message handler changes nothing but the emissions, to which it adds at most one |
| RoomRegistry.AfterDisconnect | app/backend/src/sockets/socketSetup.ts:75-92 | disconnect changes only the registry and the emissions; it registers no room and changes no room but the current one |
| RoomRegistry.MemberSet.constructor | app/backend/src/sockets/socketSetup.ts:24 | a new set is empty |
| RoomRegistry.MemberSet.Add | app/backend/src/sockets/socketSetup.ts:48 | the set becomes SetAdd of its old members |
| RoomRegistry.MemberSet.Delete | app/backend/src/sockets/socketSetup.ts:40 | the set becomes its old members without the value |
| RoomRegistry.Registry.EnsureRoom | app/backend/src/sockets/socketSetup.ts:23-25 | a known room is kept; an unknown one gets a fresh empty set; no other entry changes |
| RoomRegistry.Registry.constructor | app/backend/src/sockets/socketSetup.ts:3-11 | an empty map, the configured capacity, no emission |
| RoomRegistry.Connection.constructor | app/backend/src/sockets/socketSetup.ts:14-17 | a connection starts with no current room or user |
| RoomRegistry.Connection.JoinRoom | app/backend/src/sockets/socketSetup.ts:19-60 | the join-room handler's transition, characterised by the Join lemmas below |
| RoomRegistry.Connection.Enter | app/backend/src/sockets/socketSetup.ts:37-49 | the leave block and join past the capacity check, including the throw on a lost room |
| RoomRegistry.Connection.AddHeld | app/backend/src/sockets/socketSetup.ts:47-57 | the user joins the set the handler holds, and the room and caller are notified |
| RoomRegistry.Connection.Message | app/backend/src/sockets/socketSetup.ts:63-71 | the message handler's transition (see MessageGated) |
| RoomRegistry.Connection.Disconnect | app/backend/src/sockets/socketSetup.ts:75-92 | the disconnect handler's transition (see DisconnectLeaves) |
| RoomRegistry.Connection.LeaveRoomObject | app/backend/src/sockets/socketSetup.ts:39-43 | the current room's set loses the user and is unregistered when that empties it |
| RoomRegistry.WithoutNoDup | app/backend/src/sockets/socketSetup.ts:40 | deleting from a duplicate-free set keeps it duplicate-free |
| RoomRegistry.SetAddNoDup | app/backend/src/sockets/socketSetup.ts:48 | adding keeps a set duplicate-free and grows it by at most one |
| RoomRegistry.WithoutEmpty | app/backend/src/sockets/socketSetup.ts:41 | a deletion empties a set exactly when every member was the deleted one |
| RoomRegistry.JoinKeepsCapacity | app/backend/src/sockets/socketSetup.ts:19-60 | join-room keeps every room duplicate-free and within the capacity |
| RoomRegistry.DisconnectKeepsCapacity | app/backend/src/sockets/socketSetup.ts:75-92 | disconnect keeps every room duplicate-free and within the capacity |
| RoomRegistry.JoinRefusedWhenFull | app/backend/src/sockets/socketSetup.ts:30-33 | a full room sends only the error to the caller, and the rooms and current room stay (an unknown room is registered empty) |
| RoomRegistry.JoinMovesUser | app/backend/src/sockets/socketSetup.ts:19-60 | the user is in the new room, which is told its full membership; the previous room lost the user id and is gone if emptied; other rooms stay |
| RoomRegistry.JoinStrandsPreviousUserId | app/backend/src/sockets/socketSetup.ts:20-40 | joining under a new user id leaves the old id in the previous room |
| RoomRegistry.RejoinLosesRoom | app/backend/src/sockets/socketSetup.ts:37-49 | a sole member rejoining its room is told it joined, yet the registry no longer has the room |
| RoomRegistry.JoinFromLostRoomThrows | app/backend/src/sockets/socketSetup.ts:37-40 | joining from an unregistered current room throws after leaving the socket.io room, with no emission |
| RoomRegistry.MessageGated | app/backend/src/sockets/socketSetup.ts:63-71 | a message is relayed, to its room, exactly when it names the current room |
| RoomRegistry.DisconnectLeaves | app/backend/src/sockets/socketSetup.ts:75-92 | the user leaves the current room; the room goes exactly when the user was its only member, and otherwise is told who remains |
| Participants.NewParticipant | app/frontend/src/composables/useParticipants.ts:19-27 | id is `sub` when truthy and `email` otherwise; profile fields copied; both media on; joined now |
| Participants.Removed | app/frontend/src/composables/useParticipants.ts:39 | exactly the participants whose id differs remain, and the list does not grow |
| Participants.FindIndex | app/frontend/src/composables/useParticipants.ts:43 | −1 when no participant has the id, otherwise the first index that has it |
| Participants.ParticipantList.constructor | app/frontend/src/composables/useParticipants.ts:15-16 | empty list, no active participant |
| Participants.ParticipantList.AddParticipant | app/frontend/src/composables/useParticipants.ts:18-36 | returns the new record and appends it unless its id is already listed (see AddKeepsUnique) |
| Participants.ParticipantList.RemoveParticipant | app/frontend/src/composables/useParticipants.ts:38-40 | the list becomes its filter by id (see RemoveKeepsUnique) |
| Participants.ParticipantList.UpdateParticipant | app/frontend/src/composables/useParticipants.ts:42-47 | the first match is merged with the updates (see UpdateTouchesFirstMatch) |
| Participants.AddKeepsUnique | app/frontend/src/composables/useParticipants.ts:29-33 | adding keeps ids unique, keeps earlier entries, and lists the id afterwards |
| Participants.AddAppendsIffNew | app/frontend/src/composables/useParticipants.ts:29-33 | the record is appended exactly when its id is new |
| Participants.AddIdempotent | app/frontend/src/composables/useParticipants.ts:29-33 | adding the same record twice changes the list once |
| Participants.SubFallsBackToEmail | app/frontend/src/composables/useParticipants.ts:20 | a missing or empty `sub` makes the email the id |
| Participants.RemovedAppend | app/frontend/src/composables/useParticipants.ts:39 | the filter distributes over concatenation, keeping order |
| Participants.RemovedSingle | app/frontend/src/composables/useParticipants.ts:39 | a single participant stays exactly when its id differs |
| Participants.RemoveAbsentIsIdentity | app/frontend/src/composables/useParticipants.ts:39 | removing an id nobody has changes nothing |
| Participants.RemoveKeepsUnique | app/frontend/src/composables/useParticipants.ts:39 | removal keeps ids unique and leaves no participant with the id |
| Participants.UpdateTouchesFirstMatch | app/frontend/src/composables/useParticipants.ts:42-47 | the length is kept, the first match is merged, and every other index is unchanged |
| Participants.UpdateAbsentIsNoOp | app/frontend/src/composables/useParticipants.ts:43-44 | updating an id nobody has changes nothing |
| Participants.UpdateKeepsUnique | app/frontend/src/composables/useParticipants.ts:45 | an update without an id keeps ids unique |
| Participants.UpdateCanDuplicateId | app/frontend/src/composables/useParticipants.ts:45 | an update carrying another participant's id breaks uniqueness |
| DashedId.CharactersAreLetters | app/frontend/util/generateId.ts:4 | the alphabet is the 26 lower-case letters in order |
| DashedId.Letter | app/frontend/util/generateId.ts:7-8 | a draw selects a lower-case letter whose offset from `a` is the floored index |
| DashedId.Letters | app/frontend/util/generateId.ts:3-11 | one letter per draw, each selected by its own draw |
| DashedId.GenerateRandomString | app/frontend/util/generateId.ts:3-11 | the string has the requested length, only lower-case letters, and is the letters the draws select |
| DashedId.GenerateDashedId | app/frontend/util/generateId.ts:13-20 | a 15-character id whose three runs are the letters of the first six, next four and last three draws |
| DashedId.DashesExactlyAtSixAndEleven | app/frontend/util/generateId.ts:14-19 | dashes stand at positions 6 and 11 and nowhere else, and every other character is a letter |
| DashedId.DashedLetterFromDraw | app/frontend/util/generateId.ts:14-19 | each letter of the id is the one its own draw selects |
| Utf8.EncodeChar | app/frontend/util/hashUserId.ts:2 | one to four bytes, the count set by the code point's range, every byte after the first a continuation byte |
| Utf8.Encode | app/frontend/util/hashUserId.ts:2 | between one and four bytes per character |
| Utf8.DecodeStep | app/frontend/util/hashUserId.ts:14 | the decoder always consumes at least one byte and never more than remain |
| Utf8.DecodeText | app/frontend/util/hashUserId.ts:9-14 | the text is never longer than the bytes |
| Utf8.DecodeStepEncodeChar | app/frontend/util/hashUserId.ts:2-14 | the decoder reads one encoded character back, whatever follows |
| Utf8.DecodeEncode | app/frontend/util/hashUserId.ts:2-14 | decoding the encoding gives the string back, a leading U+FEFF included |
| Utf8.DecodeTextEncode | app/frontend/util/hashUserId.ts:2-14 | `TextDecoder` gives back every string not beginning with U+FEFF |
| Utf8.DecodeTextDropsLeadingMark | app/frontend/util/hashUserId.ts:9-14 | `TextDecoder` drops the U+FEFF a string begins with |
| Utf8.StrayByteIsReplaced | app/frontend/util/hashUserId.ts:14 | a byte that cannot start a sequence decodes to one U+FFFD |
| Utf8.SurrogateIsReplaced | app/frontend/util/hashUserId.ts:14 | an encoded surrogate decodes to three U+FFFD |
| Utf8.TruncatedIsOneReplacement | app/frontend/util/hashUserId.ts:14 | a sequence cut short by the end of the input decodes to one U+FFFD |
| Base64.Encode | app/frontend/util/hashUserId.ts:4 | the length is four per started group of three bytes, and only alphabet characters or `=` are used |
| Base64.Btoa | app/frontend/util/hashUserId.ts:4 | throws exactly on a character wider than one byte |
| Base64.Atob | app/frontend/util/hashUserId.ts:8 | a successful decode yields a binary string |
| Base64.DecodeGroup | app/frontend/util/hashUserId.ts:4-8 | one group of three bytes comes back out of its four characters |
| Base64.DecodeUnpadded | app/frontend/util/hashUserId.ts:4-8 | the characters without padding decode back to the bytes |
| Base64.StripEncodedPadding | app/frontend/util/hashUserId.ts:4-8 | the padding the encoder adds is exactly the padding the decoder strips |
| Base64.AtobEncode | app/frontend/util/hashUserId.ts:4-8 | `atob(btoa(s)) == s` for every binary string |
| Base64.AtobAcceptsMissingPadding | app/frontend/util/hashUserId.ts:8 | the decoder also accepts the encoding without its padding |
| Base64.BtoaOfBinary | app/frontend/util/hashUserId.ts:4 | `btoa` of a binary string succeeds with the encoding of its bytes |
| Base64.AtobRejectsForeignCharacter | app/frontend/util/hashUserId.ts:8 | a character that is not whitespace, alphabet or `=` throws |
| Base64.AtobRejectsStrayCharacter | app/frontend/util/hashUserId.ts:8 | a length of one more than a multiple of four, whitespace aside, throws |
| Base64.AtobRejectsInnerPadding | app/frontend/util/hashUserId.ts:8 | `=` anywhere but the last two places throws |
| Base64.BtoaRejectsWideCharacter | app/frontend/util/hashUserId.ts:4 | a character wider than one byte throws |
| UserIdCodec.EncodeUserId | app/frontend/util/hashUserId.ts:1-5 | the Base64 of the UTF-8 bytes, four characters per started group of three bytes, from the alphabet or `=` |
| UserIdCodec.CharCodes | app/frontend/util/hashUserId.ts:10-13 | one byte per character, equal to its code for a binary string |
| UserIdCodec.FillBytes | app/frontend/util/hashUserId.ts:9-13 | the loop fills one byte per decoded character, each its char code |
| UserIdCodec.DecodeUserId | app/frontend/util/hashUserId.ts:7-15 | decodeUserId's result or thrown error (see RoundTrip and the Decode lemmas) |
| UserIdCodec.DecodedBytes | app/frontend/util/hashUserId.ts:1-13 | the bytes the loop fills from an encoded id are the id's UTF-8 bytes |
| UserIdCodec.RoundTrip | app/frontend/util/hashUserId.ts:1-15 | decoding an encoded user id gives it back unless it begins with U+FEFF |
| UserIdCodec.LeadingMarkIsLost | app/frontend/util/hashUserId.ts:9-14 | an id beginning with U+FEFF comes back without it |
| UserIdCodec.MarkAloneDecodesEmpty | app/frontend/util/hashUserId.ts:9-14 | the id consisting of U+FEFF alone decodes to the empty id |
| UserIdCodec.RoundTripKeepingMark | app/frontend/util/hashUserId.ts:9-14 | with `ignoreBOM: true` decoding inverts encoding for every id |
| UserIdCodec.DecodersAgreeWithoutMark | app/frontend/util/hashUserId.ts:9-14 | both decoders throw alike, and differ only by a leading U+FEFF |
| UserIdCodec.DecodeRejectsForeignCharacter | app/frontend/util/hashUserId.ts:8 | a non-Base64 character makes decodeUserId throw |
| UserIdCodec.DecodeRejectsStrayCharacter | app/frontend/util/hashUserId.ts:8 | a length of one more than a multiple of four makes decodeUserId throw |

## Left out

- **TTLs.** Expiry is recorded as a number of seconds, but time never passes, so no key expires later; only an EXPIRE with a timeout of zero or less removes its key at once.
- **Failures and concurrency.**
  - Network and store failures are not modelled, nor are WRONGTYPE errors.
  - The interleaving of asynchronous handlers is not modelled: every handler runs atomically.
  - Cross-instance pub/sub delivery is not modelled: the subscriber's listener is a separate method.
- ExtractRoomData: for a room id ending in ":users", whose metadata key is another room's membership set, the HGETALL of a set raises WRONGTYPE and extractRoomData's catch answers "does not exist"; the model reads the set as an empty hash and answers "exists but has no data".
- **socket.io transport.**
  - Socket.io internals, including the automatic leaving of rooms on disconnect, are reduced to a set of room names per socket and a log of emissions.
  - The services `disconnect` handler only logs, and is not modelled.
- **Opaque data.** Offers, answers, candidates and the JSON serialisation of snapshots are kept as opaque text.
- **console output.** `console.log`/`console.error` output is not modelled, including the one at the end of generateId.ts.
- **Redis globs.** Only `*` is modelled. The guarantee that a pattern matches exactly one room's or peer's keys is proved for ids without `:`.
- **Redis set order.** Membership sets keep insertion order. Real Redis gives no order, so emissions that depend on it are modelled for one order.
- **Non-positive expiry.** Redis refuses SET with an EX of zero or less. `AddOffer` requires a positive expiry instead of modelling that error. EXPIRE with a timeout of zero or less is modelled: it deletes the key, which is what `AddAnswer` and `AddIceCandidate` then do to the answers hash or the ICE list.
- **Injected inputs.** `Math.random()` and `new Date()` are parameters (a draw in [0, 1) and a timestamp string or integer).
- **extractMultipleRoomsData.** Its catch path is unreachable, because extractRoomData never rejects, and is not modelled.
- **Lone surrogates.** Dafny characters are Unicode scalar values, so `TextEncoder`'s replacement of lone surrogates cannot arise.
- **activeParticipant.** The composable never updates it; it is only kept unchanged.
- **Partial fields set to `undefined`.** A `Partial<Participant>` field present but explicitly `undefined` is treated as absent.
- **The front-end `Participant.joinedAt`.** It is a `Date`; it is modelled as an integer clock reading.
- **The Redis client.** It is modelled as a value with one function per command used. ioredis itself is not part of this model.

## Findings

| source | as written | input that shows it | evidently intended | confidence | as-written member | corrected member |
|---|---|---|---|---|---|---|
| app/frontend/util/hashUserId.ts:9-14 | `new TextDecoder()` keeps `ignoreBOM` false, so a leading U+FEFF is stripped and `decodeUserId(encodeUserId(id))` differs from `id` | the user id `"\u{FEFF}"` encodes to `"77u/"`, which decodes to `""` | `decodeUserId(encodeUserId(id)) == id` for every id, e.g. with `new TextDecoder('utf-8', { ignoreBOM: true })` | not executed | UserIdCodec.LeadingMarkIsLost | UserIdCodec.RoundTripKeepingMark |
