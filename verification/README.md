# Relay coordination layer, modelled in Dafny

This project models the in-memory coordination layer of the Node relay server of the
WordPress real-time chat plugin. The relay keeps no database: all state lives in the
memory of one Node process. The model covers four pieces:

- **Rooms**: the room directory of `node-server/roomManager.js`. It maps room ids to
  rooms, and each room maps userIds to member records. Rooms are created, dm rooms are
  found or created, joins are bounded by `maxRoomUsers`, and leaving applies the
  empty-room rule. The `default-lobby` room is exempt from deletion.
- **Presence**: the online registry of `node-server/presenceManager.js`. It keeps a
  forward map from userId to presence record and a reverse map from socket id to
  userId.
- **Auth**: the handshake gate of `node-server/auth.js`. A token is missing, expired or
  invalid; otherwise its claims become the connection's identity. The payload built by
  `generateTestToken` is modelled too.
- **Relay**: the socket event handlers of `node-server/server.js`. Each handler is one
  atomic step from a state (rooms, presence, live sockets and their channel
  subscriptions) to a new state plus a list of deliveries. A delivery is an event and
  the set of sockets it reaches, resolved from the subscriptions at the moment of the
  emit.
- **RelayProperties**: the invariant every handler keeps, and the consequences of the
  quirks the handlers have.

Two helper modules support these:

- `JsValues` models the JavaScript values the relay reads from payloads, claims and
  the environment. It covers truthiness, `String(x)`, `slice`, and the markup strip
  `replace(/[<>&"']/g, '')`.
- `JsMaps` models the insertion-ordered JavaScript `Map`. Room lists, member lists and
  the online list are produced in insertion order, so the model keeps that order.

Things the environment supplies become parameters of the model:

- the JWT library's verdict on a token, as an oracle `verify`;
- `uuidv4()`;
- `Date.now()`;
- the message id built from `Date.now()` and `Math.random()`;
- the parsed `MAX_ROOM_USERS` and `DEFAULT_ROOM_NAME` settings.

The model follows the code as written:

- `room:create` joins the creator into the room.
- `room:create-dm` and `room:invite` ignore `joinRoom`'s result, so a socket can end
  up subscribed to a room it is not a member of.
- A reconnect leaves the old socket's reverse entry in place. When that old socket
  disconnects, the user goes offline even though a newer socket is still live.
- `createDefaultRoom` overwrites the lobby.

Lemmas exhibit each of these points.

Other points of the code as written:

- A room's `type` is whatever the creator sent, although the comment at
  `node-server/roomManager.js:18` lists only `public`, `private` and `dm`.
  A room created with type `dm` has no dm pair and is never found by the dm search.
- Serialized rooms list member records including their `socketId`.
- `room:invite` does not require the inviter to be a member of the room.
- Renaming updates the session and the presence entry but not the member records
  already stored in rooms.

## Model

| member | source | states |
|---|---|---|
| JsValues.ToJsString | node-server/auth.js:27 | `String(v)` gives a string unchanged; a non-negative integer prints as decimal digits whose value is the number, with no leading zero except for 0 itself; a negative one prints as `-` followed by the digits of its magnitude, again with no leading zero |
| JsValues.DecimalValue | node-server/auth.js:27 | reading back the decimal digits printed for a natural number gives that number |
| JsValues.ToJsStringNumInjective | node-server/auth.js:27 | two integers that print the same are equal, so the printed userId determines the numeric claim |
| JsValues.StripMarkup | node-server/server.js:122 | the result is free of `<>&"'`, no longer than the input, and contains exactly the input's characters other than those |
| JsValues.StripMarkupChar | node-server/server.js:122 | a single markup character is removed and any other character is kept |
| JsValues.StripMarkupAppend | node-server/server.js:122 | stripping a concatenation strips each part in place, so the kept characters stay in order with their repeats |
| JsValues.StripMarkupIdempotent | node-server/server.js:306 | stripping an already stripped name changes nothing |
| JsValues.Sanitize | node-server/server.js:306 | the sanitised name fits the limit, is markup-free, is a prefix of the stripped input of exactly the limit's length when the stripped input is longer and of its whole length otherwise, and equals the input when that was already clean and short enough |
| JsValues.Prefix | node-server/server.js:255 | `slice(0, n)` is a prefix of at most `n` characters, and the whole string when it is short enough |
| JsMaps.Set | node-server/roomManager.js:111 | `set` overwrites an existing key in place and appends a new key at the end of the order |
| JsMaps.Delete | node-server/roomManager.js:128 | `delete` removes the key and its place in the order, keeps the other keys in their order (the key list minus that key), and shrinks the size by one exactly when the key was present |
| JsMaps.WithoutAppend | node-server/roomManager.js:128 | removing a key from a concatenation of key lists removes it from each part in place |
| JsMaps.WithoutAt | node-server/roomManager.js:128 | removing the key at position i of a distinct key list leaves the keys before and after it in order |
| JsMaps.KeepOnly | node-server/roomManager.js:173-177 | filtering a key list keeps exactly the elements in the kept set and never lengthens it |
| JsMaps.KeepOnlyAppend | node-server/roomManager.js:173-177 | filtering a concatenation filters each part in place, so the kept keys stay in their original order |
| JsMaps.KeepOnlyOne | node-server/roomManager.js:174-175 | a single key is kept exactly when it is in the kept set |
| JsMaps.KeepOnlyDistinct | node-server/roomManager.js:173-177 | filtering distinct keys gives distinct keys |
| JsMaps.KeepOnlyAll | node-server/roomManager.js:146-156 | filtering by a set that holds every key changes nothing |
| JsMaps.KeepOnlyWithout | node-server/roomManager.js:128 | deleting a key that the filter drops anyway does not change the filtered list |
| JsMaps.SizeIsKeyCount | node-server/roomManager.js:107 | a map's `size` is the number of distinct keys present |
| Auth.Authenticate | node-server/auth.js:13-44 | a falsy token is rejected as missing; an expired token gets the expiry message; any other failure gets the invalid-token message; a verified token is accepted with the identity derived from its claims |
| Auth.DeriveIdentity | node-server/auth.js:24-33 | userId is `String(user_id)` falling back to `String(sub)`; a truthy username, display_name, email or avatar_url passes through unchanged; otherwise displayName defaults to 익명, username to unknown, and email and avatarUrl to empty; isGuest holds exactly when `is_guest` is the boolean true |
| Auth.RejectionReasonsDistinct | node-server/auth.js:17-43 | the three rejection messages are pairwise different |
| Auth.TestTokenPayload | node-server/auth.js:50-68 | the payload's exp is iat plus 86400, iat is the current time in whole seconds, and sub equals data.user_id |
| Auth.TestTokenRoundTrip | node-server/auth.js:50-68 | deriving an identity from a test payload gives back the userId, a boolean guest flag, and a non-empty display name |
| Presence.GetUser | node-server/presenceManager.js:82-84 | a record is returned exactly when the user has one, and it is that record |
| Presence.IsOnline | node-server/presenceManager.js:96-98 | a user is online exactly when `getUser` finds it, that is, when it has a place in the connection order |
| Presence.GetOnlineCount | node-server/presenceManager.js:115-117 | the count is the number of distinct online users |
| Presence.GetUserAgreesWithSocketMap | node-server/presenceManager.js:34-49 | in a consistent registry the record found for a user carries that userId, and its socket id maps back to the user |
| Presence.UserConnected | node-server/presenceManager.js:34-49 | afterwards the user is online with the new record, the socket id is found for a non-empty id, the reverse map sends the socket to the user, other users are untouched, the count grows by one exactly for a new user, and the connection order keeps a returning user in place and appends a new one |
| Presence.UserDisconnected | node-server/presenceManager.js:54-67 | an unknown socket, or one mapped to an empty userId, returns none and changes nothing; otherwise both entries are removed, the userId is returned, and the remaining online users keep their connection order |
| Presence.UpdateDisplayName | node-server/presenceManager.js:72-77 | an offline user is ignored; otherwise only that user's display name changes |
| Presence.GetSocketId | node-server/presenceManager.js:89-91 | the socket id is returned when the user is online and the id is non-empty |
| Presence.GetOnlineUserList | node-server/presenceManager.js:103-110 | one public record per online user, in connection order, with no socketId or connectedAt |
| Presence.OnlineListIsExact | node-server/presenceManager.js:103-117 | the list's length is the online count, every online user appears in it, nobody else does, and nobody appears twice |
| Presence.ConnectPreservesValid | node-server/presenceManager.js:44-45 | connecting on a fresh socket keeps the forward and reverse maps consistent |
| Presence.DisconnectPreservesValid | node-server/presenceManager.js:58-60 | disconnecting keeps the maps consistent |
| Presence.RenamePreservesValid | node-server/presenceManager.js:72-77 | renaming keeps the maps consistent |
| Presence.DisconnectTwiceIsNoop | node-server/presenceManager.js:55-56 | a second disconnect of the same socket returns none and changes nothing |
| Presence.ReconnectReplacesEntry | node-server/presenceManager.js:44-45 | a second connection for a user leaves the count unchanged, points the user at the new socket, and keeps the old reverse entry |
| Presence.StaleSocketDisconnectEvictsNewer | node-server/presenceManager.js:55-60 | disconnecting the superseded socket takes the user offline although the newer socket's entry remains |
| Presence.EmptyUserIdStaysOnline | node-server/presenceManager.js:56 | a user whose userId is empty is never taken offline by a disconnect |
| Rooms.GetRoom | node-server/roomManager.js:164-166 | a room is returned exactly when the id is a key of the directory, and it is the room stored there |
| Rooms.GetRoomFindsOwnId | node-server/roomManager.js:164-166 | in a well-formed directory the room found carries the id it was looked up by, holds each member under its userId, and stays within the capacity |
| Rooms.MaxRoomUsers | node-server/roomManager.js:25 | the capacity is the parsed setting when it is a nonzero number and 50 otherwise |
| Rooms.CreateDefaultRoom | node-server/roomManager.js:31-46 | the lobby is (re)set to an empty public room created by system; no other room changes; the lobby keeps its place in the directory order, or is appended when new |
| Rooms.CreateRoom | node-server/roomManager.js:51-66 | the new room has id `room_` plus the uuid prefix (never the lobby), a name that is the first 50 characters of the given one (all of it when shorter), type defaulting to public, the given creator and time, no members, and no dm pair; no other room changes; a new id is appended to the directory order |
| Rooms.FindDm | node-server/roomManager.js:73-81 | a room is found exactly when some dm room's pair contains both users; the one found does, and it is the first such room in insertion order |
| Rooms.FindDmFromIsFirst | node-server/roomManager.js:73-78 | the loop returns at the first match: the key returned is at or before any matching position |
| Rooms.FindDmSymmetric | node-server/roomManager.js:77 | the search gives the same answer with the users in either order |
| Rooms.FindOrCreateDM | node-server/roomManager.js:71-98 | an existing pair room is returned with nothing changed; otherwise a new empty dm room for the pair is added, appended to the directory order when its id is new, and nothing else changes |
| Rooms.DmIsFoundAgain | node-server/roomManager.js:73-90 | asking again, in either order, returns the same room and creates nothing |
| Rooms.JoinRoom | node-server/roomManager.js:103-119 | an unknown room changes nothing; a room at capacity returns the error and changes nothing; a success inserts or overwrites the member entry, never exceeds the capacity, keeps the count for a re-join, and leaves other rooms alone |
| Rooms.Evict | node-server/roomManager.js:128 | `room.users.delete` removes only that user, keeps every other field of the room, and leaves the remaining members in their join order |
| Rooms.FullRoomRejectsJoin | node-server/roomManager.js:107-109 | at capacity a join fails even for an existing member, and nothing changes |
| Rooms.LeaveRoom | node-server/roomManager.js:124-138 | an unknown room changes nothing; otherwise the user is removed with the other members kept in join order; an emptied room other than the lobby is deleted and reported, and its key leaves the directory order; a kept room keeps its place; the lobby is always kept; other rooms are untouched |
| Rooms.RemoveUserFromAllRooms | node-server/roomManager.js:143-159 | the returned ids are exactly the rooms that had the user, in directory order; afterwards the user is in no room; each such room loses only that user and is dropped exactly when it empties and is not the lobby; rooms without the user are unchanged; the surviving rooms keep their relative order |
| Rooms.RemoveFromEach | node-server/roomManager.js:146-156 | the loop over the remaining keys applies the per-room effect to each visited room and leaves the others as they were |
| Rooms.RemoveFromEachKeepsOrder | node-server/roomManager.js:146-156 | the loop only deletes keys, so the directory order afterwards is the old order restricted to the surviving rooms |
| Rooms.RoomsWithMemberAppend | node-server/roomManager.js:146-150 | the affected ids of a concatenation of scanned keys are those of each part, in order |
| Rooms.RoomsWithMemberOne | node-server/roomManager.js:147-149 | one scanned room is reported exactly when it has the user |
| Rooms.RemoveKeepsOtherMembers | node-server/roomManager.js:147-148 | every other user keeps exactly the membership it had in each surviving room |
| Rooms.RemoveUserTwiceIsNoop | node-server/roomManager.js:143-159 | a second removal of the same user reports no rooms and changes nothing |
| Rooms.InitValid | node-server/roomManager.js:12-26 | the empty directory is well formed |
| Rooms.CreateDefaultRoomPreservesValid | node-server/roomManager.js:35-42 | resetting the lobby keeps the directory well formed |
| Rooms.CreateRoomPreservesValid | node-server/roomManager.js:51-66 | creating a room keeps the directory well formed |
| Rooms.FindOrCreateDMPreservesValid | node-server/roomManager.js:71-98 | the dm search and creation keep one dm room per unordered pair and the directory well formed |
| Rooms.JoinRoomPreservesValid | node-server/roomManager.js:103-119 | joining keeps every room within capacity and the directory well formed |
| Rooms.LeaveRoomPreservesValid | node-server/roomManager.js:124-138 | leaving keeps the directory well formed |
| Rooms.RemoveUserPreservesValid | node-server/roomManager.js:143-159 | removing a user everywhere keeps the directory well formed |
| Rooms.LobbyNeverDeleted | node-server/roomManager.js:131 | neither leaving nor removing a user everywhere deletes the lobby |
| Rooms.SerializeRoom | node-server/roomManager.js:197-206 | the view carries id, name, type, creator and creation time, and the member records in join order |
| Rooms.SerializeHidesDmPair | node-server/roomManager.js:197-206 | rooms that differ only in their dm pair serialize identically |
| Rooms.SerializeListsMembers | node-server/roomManager.js:203 | a user appears in the view exactly when it is a member |
| Rooms.ListedIds | node-server/roomManager.js:173-177 | the ids listed are exactly those of the rooms passing the filter, pairwise distinct, taken from the directory order by `KeepOnly`, whose lemmas fix their order |
| Rooms.ListRooms | node-server/roomManager.js:171-192 | one view per listed id, in that order, each the serialization of the room it stands for and of a room passing the filter |
| Rooms.ListRoomsExact | node-server/roomManager.js:171-192 | when rooms carry their keys as ids, a room's view is listed if and only if the room passes the filter |
| Rooms.GetPublicRooms | node-server/roomManager.js:171-179 | no listed view has type dm, and there are at most as many views as rooms |
| Rooms.PublicRoomsExact | node-server/roomManager.js:171-179 | in a well-formed directory a room is listed if and only if it is not a dm room |
| Rooms.GetUserRooms | node-server/roomManager.js:184-192 | each listed view is of a public room or of a room the user belongs to, and the rooms listed are pairwise distinct |
| Rooms.UserRoomsExact | node-server/roomManager.js:184-192 | in a well-formed directory a room is listed if and only if the user belongs to it or its type is public |
| Relay.Subscribe | node-server/server.js:127 | `socket.join` adds the socket to the channel and to no other |
| Relay.Unsubscribe | node-server/server.js:200 | `socket.leave` removes the socket from the channel and from no other |
| Relay.SubscribeAll | node-server/server.js:159 | `socketsJoin` adds the sockets of one channel to another and changes no other channel |
| Relay.Boot | node-server/server.js:52-56 | the relay starts with only the lobby, an empty public room created by system with the configured name and the start time, the configured capacity, nobody online, an empty reverse map and no sockets |
| Relay.OnConnection | node-server/server.js:83-111 | the socket is registered, the user is online, and the socket gets auth:success and its room list; everyone gets users:list; every other socket gets user:joined |
| Relay.OnRoomCreate | node-server/server.js:118-132 | a missing or non-string name does nothing; otherwise the rooms are those after creating a room with the sanitised name and joining the creator with its member record (a join the capacity may refuse); the room carries the current time and no dm pair; the sockets are those after the creator's socket joins the room's channel, and nothing else; room:created goes to everyone and room:joined to the creator |
| Relay.OnRoomCreateDm | node-server/server.js:137-164 | a falsy target does nothing; an offline target earns the sender a private notice and nothing else; otherwise the pair's room is found or created and no other room is added; the creator is joined and its socket subscribed; when the target has a socket id, the target is joined too and the sockets in the target's channel are subscribed, and these are the only subscription changes; the target's sockets get room:joined first; room:joined to the creator comes last |
| Relay.OnRoomJoin | node-server/server.js:169-191 | unknown room: private notice only; full room: private error and nothing changes; success: the rooms are those after `joinRoom` with the user's member record, which the room now holds; the only subscription change is the socket joining the room's channel; it gets room:joined, the others get the entry notice, and everyone gets room:updated |
| Relay.OnRoomLeave | node-server/server.js:196-209 | a falsy or non-string room id does nothing; otherwise the only subscription change is the socket leaving the channel; a deleted room gives a global room:deleted; otherwise the remaining subscribers get a notice and everyone gets room:updated |
| Relay.OnRoomInvite | node-server/server.js:214-234 | a falsy field, an offline target, a target without socket, or an unknown room does nothing; otherwise the join is attempted and, whatever its result, the sockets in the target's channel join the room's channel and no other subscription changes; then room:joined and the inviter's notice go to the target's sockets, the invitee notice to the room, and room:updated to everyone |
| Relay.OnMessageSend | node-server/server.js:242-269 | no state changes; a missing room id or non-text is dropped; a non-member gets a private notice; otherwise exactly the room's subscribers receive the message, whose text is the prefix of the input of length min(2000, its length) |
| Relay.OnTypingStart | node-server/server.js:279-288 | no state changes; the room's other subscribers are told, never the sender |
| Relay.OnTypingStop | node-server/server.js:290-298 | no state changes; the room's other subscribers are told, never the sender |
| Relay.OnChangeName | node-server/server.js:302-316 | a missing or non-string name does nothing; otherwise the sanitised name replaces the session's and the presence entry's display name, and everyone gets users:list |
| Relay.DepartureNotices | node-server/server.js:330-339 | each affected room yields one or two deliveries, all of them system notices, room:updated or room:deleted |
| Relay.RoomNotices | node-server/server.js:331-337 | one affected room yields one or two deliveries, all of them system notices, room:updated or room:deleted |
| Relay.DepartureNoticesOne | node-server/server.js:331-337 | a surviving room yields exactly the departure notice to its channel then a global room:updated with its view; a room that is gone yields exactly one global room:deleted |
| Relay.DepartureNoticesAppend | node-server/server.js:330-339 | the notices for a concatenation of room lists are those of each list in turn, so rooms are reported one after another in the order of the affected list |
| Relay.OnDisconnect | node-server/server.js:320-344 | the socket is gone, presence and rooms are torn down for the user, the user is in no room, the per-room notices come first, and users:list and user:left close the output |
| RelayProperties.BootEstablishesInv | node-server/server.js:52-56 | the start-up state satisfies the relay invariant |
| RelayProperties.ConnectionPreservesInv | node-server/server.js:89 | a connection on a fresh socket id keeps the invariant |
| RelayProperties.RoomCreatePreservesInv | node-server/server.js:118-132 | room:create keeps the invariant |
| RelayProperties.RoomCreateDmPreservesInv | node-server/server.js:137-164 | room:create-dm keeps the invariant |
| RelayProperties.RoomJoinPreservesInv | node-server/server.js:169-191 | room:join keeps the invariant |
| RelayProperties.RoomLeavePreservesInv | node-server/server.js:196-209 | room:leave keeps the invariant |
| RelayProperties.RoomInvitePreservesInv | node-server/server.js:214-234 | room:invite keeps the invariant |
| RelayProperties.ChangeNamePreservesInv | node-server/server.js:302-316 | user:change-name keeps the invariant |
| RelayProperties.DisconnectPreservesInv | node-server/server.js:320-344 | disconnect keeps the invariant |
| RelayProperties.LobbyAlwaysPresent | node-server/roomManager.js:131 | the lobby survives room:leave and disconnect |
| RelayProperties.InviteToFullRoomSubscribesNonMember | node-server/server.js:227-228 | inviting a non-member into a full room changes no membership yet subscribes the invitee's socket to the room |
| RelayProperties.CreateDmAtCapacityOneSubscribesNonMember | node-server/server.js:153-159 | with a capacity of one, a new dm room holds only its creator while the target's socket is subscribed |
| RelayProperties.DisconnectTakesUserOffline | node-server/server.js:324 | a disconnect takes the socket's user offline, whatever other sockets the user has |
| RelayProperties.StaleDisconnectEvictsLiveUser | node-server/presenceManager.js:44-60 | a user connected on two sockets is offline after the older one disconnects, while the newer socket is still connected |
| RelayProperties.DisconnectReportsEachRoomOnce | node-server/server.js:330-339 | each room the user was in gets a room:deleted exactly when it is gone and a room:updated exactly when it survives |
| RelayProperties.NoticesDeleteExactlyGoneRooms | node-server/server.js:335-337 | the per-room notices carry room:deleted for a room exactly when it is listed and gone |
| RelayProperties.NoticesUpdateLiveRooms | node-server/server.js:332-334 | every listed room that survives gets the departure notice on its channel and a room:updated with its view |
| RelayProperties.NoticeUpdateIsForLiveRoom | node-server/server.js:331-334 | every room:updated among the notices shows a listed room that survives |
| RelayProperties.MessageReachesOnlySubscribers | node-server/server.js:269 | a socket not subscribed to the room never receives the message, whatever its membership |

## Left out

- HTTP and socket.io plumbing is not modelled. That covers Express, CORS, the
  `/health` endpoint, `listen`, signal-driven shutdown and console logging.
- JWT signature checking and `exp` evaluation live in the `jsonwebtoken` library. They
  are an oracle parameter of `Auth.Authenticate`. The secret and `jwt.sign` are not
  modelled.
- `uuidv4`, `Date.now` and `Math.random` are parameters. Room and message ids are taken
  as given, so a colliding id overwrites an existing room as `Map.set` would.
- Relay.OnMessageSend: the message id is an opaque parameter. Its format
  `msg_<time>_<random>` is not modelled.
- Auth.TestTokenPayload: takes one clock reading for both iat and exp. The source reads
  the clock twice, so across a second boundary its exp can exceed iat + 86400 by one.
- RelayProperties.ConnectionPreservesInv: assumes the new socket id was never used
  before. socket.io guarantees this; the model does not.
- Event payloads are modelled field by field. A payload that is not an object, or an
  object with getters, is not modelled.
- JavaScript values are integers, strings, booleans, `null`, `undefined` and one
  opaque object. Floating point, `NaN`, arrays and symbols are not modelled.
- JsValues.ToJsString: prints every integer in plain decimal digits. JavaScript
  switches to exponent form (`1e+21`) from magnitude 10^21 on. The relay stringifies a
  numeric `user_id` or `sub` claim into the userId (node-server/auth.js:27) and
  interpolates a numeric display name into the join, leave and invite notices
  (node-server/server.js:187, 206, 230, 232, 333); a number that large in those places
  prints differently in the model.
- Lengths count characters, where JavaScript counts UTF-16 code units. The two differ
  only outside the Basic Multilingual Plane.
- socket.io delivery is modelled as recipient sets only. Acknowledgements,
  multi-node adapters, and the asynchronous completion of `socketsJoin` are not
  modelled. Channel names are strings, because the handlers only ever join string ids.
- Concurrency is not modelled: each handler runs to completion as one atomic step.
- The WordPress plugin, its PHP files and the browser client are not part of this
  model.
