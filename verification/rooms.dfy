/** The room directory (node-server/roomManager.js): a `Map` from room id to room, each
    room holding a `Map` from userId to member record. */
module Rooms {
  import opened JsValues
  import opened JsMaps

  /** Id of the permanent lobby, the one room never deleted when it empties. */
  const Lobby: string := "default-lobby"
  const DefaultLobbyName: string := "일반 채팅"
  const DefaultMaxRoomUsers: int := 50
  const RoomNameLimit: nat := 50
  const RoomFullMessage: string := "방 최대 인원을 초과했습니다."

  /** An entry of a room's `users` map. */
  datatype Member = Member(userId: string, displayName: JsValue, avatarUrl: JsValue, socketId: string)

  /** `type` is whatever value the creator supplied (`'public'` by default); `dmPair` is
      set only by `findOrCreateDM`. */
  datatype Room = Room(
    id: string,
    name: string,
    kind: JsValue,
    createdBy: string,
    users: JsMap<Member>,
    createdAt: int,
    dmPair: Option<(string, string)>)

  datatype RoomManager = RoomManager(rooms: JsMap<Room>, maxRoomUsers: int)

  /** `serializeRoom(room)`: what clients see of a room. */
  datatype RoomView = RoomView(id: string, name: string, kind: JsValue, createdBy: string, users: seq<Member>, createdAt: int)

  datatype JoinResult = NoSuchRoom | RoomFull(error: string) | Joined(room: Room)

  datatype LeaveResult = NotFound | Deleted(roomId: string) | Left(room: Room)

  predicate IsDm(r: Room)
  {
    r.kind == Str("dm")
  }

  predicate IsPublic(r: Room)
  {
    r.kind == Str("public")
  }

  predicate IsMember(r: Room, userId: string)
  {
    userId in r.users.entries
  }

  /** `parseInt(process.env.MAX_ROOM_USERS) || 50`, with `None` for `NaN`. */
  function MaxRoomUsers(parsed: Option<int>): (r: int)
    ensures r != 0
    ensures parsed.Some? && parsed.value != 0 ==> r == parsed.value
    ensures parsed.None? || parsed.value == 0 ==> r == DefaultMaxRoomUsers
  {
    if parsed.Some? && parsed.value != 0 then parsed.value else DefaultMaxRoomUsers
  }

  /** The most members a room can reach under a given `maxRoomUsers`. */
  function Capacity(maxRoomUsers: int): nat
  {
    if maxRoomUsers < 0 then 0 else maxRoomUsers
  }

  /** `new RoomManager()` */
  function Init(parsedMax: Option<int>): (m: RoomManager)
    ensures m.rooms.entries == map[]
    ensures m.maxRoomUsers == MaxRoomUsers(parsedMax)
  {
    RoomManager(Empty(), MaxRoomUsers(parsedMax))
  }

  /** `getRoom(roomId)` */
  function GetRoom(m: RoomManager, roomId: string): (r: Option<Room>)
    ensures r.Some? <==> roomId in m.rooms.entries
    ensures r.Some? ==> r.value == m.rooms.entries[roomId]
  {
    Get(m.rooms, roomId)
  }

  // ---------------------------------------------------------------------------
  // Well-formedness of the directory

  ghost predicate RoomOk(m: RoomManager, k: string)
    requires k in m.rooms.entries
  {
    var r := m.rooms.entries[k];
    && r.id == k
    && (forall u :: u in r.users.entries ==> r.users.entries[u].userId == u)
    && Size(r.users) <= Capacity(m.maxRoomUsers)
    && (r.dmPair.Some? ==> IsDm(r))
  }

  predicate PairHas(p: (string, string), u: string)
  {
    p.0 == u || p.1 == u
  }

  function PairSet(p: (string, string)): set<string>
  {
    {p.0, p.1}
  }

  /** Two dm rooms never record the same unordered pair. */
  ghost predicate DmPairsUnique(m: RoomManager)
  {
    forall k1, k2 ::
      && k1 in m.rooms.entries && k2 in m.rooms.entries
      && m.rooms.entries[k1].dmPair.Some? && m.rooms.entries[k2].dmPair.Some?
      && PairSet(m.rooms.entries[k1].dmPair.value) == PairSet(m.rooms.entries[k2].dmPair.value)
      ==> k1 == k2
  }

  ghost predicate Valid(m: RoomManager)
  {
    && (forall k :: k in m.rooms.entries ==> RoomOk(m, k))
    && DmPairsUnique(m)
  }

  /** In a well-formed directory a room is found under its own id, holds each member
      under that member's userId, and stays within the capacity. */
  lemma GetRoomFindsOwnId(m: RoomManager, roomId: string, userId: string)
    requires Valid(m)
    ensures GetRoom(m, roomId).Some? ==> GetRoom(m, roomId).value.id == roomId
    ensures GetRoom(m, roomId).Some? && IsMember(GetRoom(m, roomId).value, userId) ==>
      GetRoom(m, roomId).value.users.entries[userId].userId == userId
    ensures GetRoom(m, roomId).Some? ==> Size(GetRoom(m, roomId).value.users) <= Capacity(m.maxRoomUsers)
  {
    if roomId in m.rooms.entries {
      assert RoomOk(m, roomId);
    }
  }

  // ---------------------------------------------------------------------------
  // Creation

  /** `process.env.DEFAULT_ROOM_NAME || '일반 채팅'` */
  function LobbyName(env: Option<string>): (r: string)
    ensures |r| > 0
  {
    if env.Some? && |env.value| > 0 then env.value else DefaultLobbyName
  }

  /** `createDefaultRoom()`: (re)sets the lobby to an empty public room created by
      `system`. */
  function CreateDefaultRoom(m: RoomManager, env: Option<string>, now: int): (r: (RoomManager, string))
    ensures r.1 == Lobby
    ensures GetRoom(r.0, Lobby) == Some(Room(Lobby, LobbyName(env), Str("public"), "system", Empty(), now, None))
    ensures forall k :: k != Lobby ==> GetRoom(r.0, k) == GetRoom(m, k)
    ensures Lobby in m.rooms.entries ==> r.0.rooms.keys == m.rooms.keys
    ensures Lobby !in m.rooms.entries ==> r.0.rooms.keys == m.rooms.keys + [Lobby]
    ensures r.0.maxRoomUsers == m.maxRoomUsers
  {
    var lobby := Room(Lobby, LobbyName(env), Str("public"), "system", Empty(), now, None);
    (m.(rooms := Set(m.rooms, Lobby, lobby)), Lobby)
  }

  /** `'room_' + uuid.slice(0, 8)` */
  function RoomIdFor(uuid: string): (id: string)
    ensures id != Lobby && |id| >= 5 && id[..5] == "room_"
  {
    var id := "room_" + Prefix(uuid, 8);
    assert id[0] == 'r';
    id
  }

  /** `'dm_' + uuid.slice(0, 8)` */
  function DmIdFor(uuid: string): (id: string)
    ensures id != Lobby && |id| >= 3 && id[..3] == "dm_"
  {
    var id := "dm_" + Prefix(uuid, 8);
    assert id[1] == 'm';
    id
  }

  /** `createRoom(name, type, createdBy)` with `uuid` standing for `uuidv4()` and `now`
      for `Date.now()`. The creator is not added as a member. A colliding id would
      overwrite the existing room, as `Map.set` does. */
  function CreateRoom(m: RoomManager, name: string, kind: JsValue, createdBy: string, uuid: string, now: int): (r: (RoomManager, Room))
    ensures r.1.id == RoomIdFor(uuid) && r.1.id != Lobby
    ensures |r.1.name| <= RoomNameLimit && r.1.name <= name
    ensures |name| <= RoomNameLimit ==> r.1.name == name
    ensures |name| > RoomNameLimit ==> |r.1.name| == RoomNameLimit
    ensures r.1.kind == (if Truthy(kind) then kind else Str("public"))
    ensures r.1.createdBy == createdBy && r.1.createdAt == now && r.1.dmPair.None?
    ensures Size(r.1.users) == 0
    ensures GetRoom(r.0, r.1.id) == Some(r.1)
    ensures forall k :: k != r.1.id ==> GetRoom(r.0, k) == GetRoom(m, k)
    ensures r.1.id in m.rooms.entries ==> r.0.rooms.keys == m.rooms.keys
    ensures r.1.id !in m.rooms.entries ==> r.0.rooms.keys == m.rooms.keys + [r.1.id]
    ensures r.0.maxRoomUsers == m.maxRoomUsers
  {
    var room := Room(RoomIdFor(uuid), Prefix(name, RoomNameLimit), Or(kind, Str("public")), createdBy, Empty(), now, None);
    (m.(rooms := Set(m.rooms, room.id, room)), room)
  }

  // ---------------------------------------------------------------------------
  // Direct messages

  /** A room `findOrCreateDM(a, _, b, _)` accepts as the pair's room. */
  predicate DmMatches(r: Room, a: string, b: string)
  {
    IsDm(r) && r.dmPair.Some? && PairHas(r.dmPair.value, a) && PairHas(r.dmPair.value, b)
  }

  /** The first key of `ks` whose room matches the pair. */
  function FindDmFrom(entries: map<string, Room>, ks: seq<string>, a: string, b: string): (r: Option<string>)
    requires forall k :: k in ks ==> k in entries
    ensures r.Some? ==> r.value in ks && DmMatches(entries[r.value], a, b)
    ensures r.None? ==> forall k :: k in ks ==> !DmMatches(entries[k], a, b)
    decreases |ks|
  {
    if |ks| == 0 then None
    else if DmMatches(entries[ks[0]], a, b) then Some(ks[0])
    else FindDmFrom(entries, ks[1..], a, b)
  }

  /** The search stops at the first match: whichever key at position `i` matches, the key
      returned is found at or before `i`. */
  lemma {:induction false} FindDmFromIsFirst(entries: map<string, Room>, ks: seq<string>, a: string, b: string, i: nat)
    requires forall k :: k in ks ==> k in entries
    requires i < |ks| && DmMatches(entries[ks[i]], a, b)
    ensures FindDmFrom(entries, ks, a, b).Some?
    ensures FindDmFrom(entries, ks, a, b).value in ks[..i + 1]
    decreases |ks|
  {
    if !DmMatches(entries[ks[0]], a, b) {
      var tail := ks[1..];
      assert tail[i - 1] == ks[i];
      FindDmFromIsFirst(entries, tail, a, b, i - 1);
      assert ks[..i + 1] == [ks[0]] + tail[..i];
    }
  }

  /** The search loop of `findOrCreateDM`, over the rooms in insertion order. */
  function FindDm(m: RoomManager, a: string, b: string): (r: Option<string>)
    ensures r.Some? ==> r.value in m.rooms.entries && DmMatches(m.rooms.entries[r.value], a, b)
    ensures r.None? <==> forall k :: k in m.rooms.entries ==> !DmMatches(m.rooms.entries[k], a, b)
    ensures r.Some? ==> forall i :: 0 <= i < |m.rooms.keys| && DmMatches(m.rooms.entries[m.rooms.keys[i]], a, b) ==>
      r.value in m.rooms.keys[..i + 1]
  {
    var ks := m.rooms.keys;
    assert forall i :: 0 <= i < |ks| && DmMatches(m.rooms.entries[ks[i]], a, b) ==>
      FindDmFrom(m.rooms.entries, ks, a, b).value in ks[..i + 1] by {
      forall i | 0 <= i < |ks| && DmMatches(m.rooms.entries[ks[i]], a, b)
        ensures FindDmFrom(m.rooms.entries, ks, a, b).value in ks[..i + 1]
      {
        FindDmFromIsFirst(m.rooms.entries, ks, a, b, i);
      }
    }
    FindDmFrom(m.rooms.entries, ks, a, b)
  }

  lemma {:induction false} FindDmFromSymmetric(entries: map<string, Room>, ks: seq<string>, a: string, b: string)
    requires forall k :: k in ks ==> k in entries
    ensures FindDmFrom(entries, ks, a, b) == FindDmFrom(entries, ks, b, a)
    decreases |ks|
  {
    if |ks| > 0 {
      FindDmFromSymmetric(entries, ks[1..], a, b);
    }
  }

  /** The search does not depend on the order of the pair. */
  lemma FindDmSymmetric(m: RoomManager, a: string, b: string)
    ensures FindDm(m, a, b) == FindDm(m, b, a)
  {
    FindDmFromSymmetric(m.rooms.entries, m.rooms.keys, a, b);
  }

  /** `${userName1} ↔ ${userName2}` */
  function DmName(name1: JsValue, name2: JsValue): string
  {
    ToJsString(name1) + " ↔ " + ToJsString(name2)
  }

  /** `findOrCreateDM(userId1, userName1, userId2, userName2)`: the first dm room whose
      pair contains both users, else a new empty dm room for the pair. */
  function FindOrCreateDM(m: RoomManager, userId1: string, userName1: JsValue, userId2: string, userName2: JsValue, uuid: string, now: int): (r: (RoomManager, Room))
    ensures FindDm(m, userId1, userId2).Some? ==> r.0 == m && r.1 == m.rooms.entries[FindDm(m, userId1, userId2).value]
    ensures FindDm(m, userId1, userId2).None? ==>
      && r.1 == Room(DmIdFor(uuid), DmName(userName1, userName2), Str("dm"), userId1, Empty(), now, Some((userId1, userId2)))
      && GetRoom(r.0, r.1.id) == Some(r.1)
      && (forall k :: k != r.1.id ==> GetRoom(r.0, k) == GetRoom(m, k))
      && r.0.rooms.keys == (if r.1.id in m.rooms.entries then m.rooms.keys else m.rooms.keys + [r.1.id])
      && r.0.maxRoomUsers == m.maxRoomUsers
    ensures DmMatches(r.1, userId1, userId2)
  {
    match FindDm(m, userId1, userId2)
    case Some(k) => (m, m.rooms.entries[k])
    case None =>
      var room := Room(DmIdFor(uuid), DmName(userName1, userName2), Str("dm"), userId1, Empty(), now, Some((userId1, userId2)));
      (m.(rooms := Set(m.rooms, room.id, room)), room)
  }

  /** Asking again, with the users in either order, returns the same room and creates
      nothing. */
  lemma DmIsFoundAgain(m: RoomManager, a: string, na: JsValue, b: string, nb: JsValue, uuid: string, now: int,
                       na': JsValue, nb': JsValue, uuid': string, now': int)
    ensures var (m1, room) := FindOrCreateDM(m, a, na, b, nb, uuid, now);
      && FindOrCreateDM(m1, b, nb', a, na', uuid', now') == (m1, room)
      && FindOrCreateDM(m1, a, na', b, nb', uuid', now') == (m1, room)
  {
    var (m1, room) := FindOrCreateDM(m, a, na, b, nb, uuid, now);
    FindDmSymmetric(m, a, b);
    FindDmSymmetric(m1, a, b);
    if FindDm(m, a, b).None? {
      assert m1.rooms.entries == m.rooms.entries[room.id := room];
      forall k | k in m1.rooms.entries && k != room.id
        ensures !DmMatches(m1.rooms.entries[k], a, b)
      {
        assert GetRoom(m1, k) == GetRoom(m, k);
      }
      assert FindDm(m1, a, b) == Some(room.id);
    }
  }

  // ---------------------------------------------------------------------------
  // Membership

  /** `joinRoom(roomId, user)`: `null` for an unknown room, the error object when the
      room already holds `maxRoomUsers` members (even for a member re-joining), and
      otherwise the room with the member entry inserted or overwritten. */
  function JoinRoom(m: RoomManager, roomId: string, member: Member): (r: (RoomManager, JoinResult))
    ensures r.1.NoSuchRoom? <==> roomId !in m.rooms.entries
    ensures r.1.RoomFull? <==> roomId in m.rooms.entries && Size(m.rooms.entries[roomId].users) >= m.maxRoomUsers
    ensures !r.1.Joined? ==> r.0 == m
    ensures r.1.RoomFull? ==> r.1.error == RoomFullMessage
    ensures r.1.Joined? ==>
      var old_ := m.rooms.entries[roomId];
      && GetRoom(r.0, roomId) == Some(r.1.room)
      && r.1.room == old_.(users := r.1.room.users)
      && r.1.room.users.entries == old_.users.entries[member.userId := member]
      && r.1.room.users.keys == (if IsMember(old_, member.userId) then old_.users.keys else old_.users.keys + [member.userId])
      && Size(r.1.room.users) <= m.maxRoomUsers
      && Size(r.1.room.users) == (if IsMember(old_, member.userId) then Size(old_.users) else Size(old_.users) + 1)
    ensures forall k :: k != roomId ==> GetRoom(r.0, k) == GetRoom(m, k)
    ensures r.0.rooms.keys == m.rooms.keys && r.0.maxRoomUsers == m.maxRoomUsers
    ensures r.0.rooms.entries.Keys == m.rooms.entries.Keys
  {
    match GetRoom(m, roomId)
    case None => (m, NoSuchRoom)
    case Some(room) =>
      if Size(room.users) >= m.maxRoomUsers then (m, RoomFull(RoomFullMessage))
      else
        var room' := room.(users := Set(room.users, member.userId, member));
        (m.(rooms := Set(m.rooms, roomId, room')), Joined(room'))
  }

  /** `room.users.delete(userId)`: the other members keep their entries and their join
      order. */
  function Evict(room: Room, userId: string): (r: Room)
    ensures r == room.(users := r.users)
    ensures r.users.entries == room.users.entries - {userId}
    ensures !IsMember(room, userId) ==> r.users.keys == room.users.keys
    ensures forall i :: 0 <= i < |room.users.keys| && room.users.keys[i] == userId ==>
      r.users.keys == room.users.keys[..i] + room.users.keys[i + 1..]
  {
    room.(users := Delete(room.users, userId))
  }

  /** The empty-room rule: a room stays unless it is empty and is not the lobby. */
  predicate Survives(roomId: string, r: Room)
  {
    Size(r.users) != 0 || roomId == Lobby
  }

  /** `leaveRoom(roomId, userId)` */
  function LeaveRoom(m: RoomManager, roomId: string, userId: string): (r: (RoomManager, LeaveResult))
    ensures r.1.NotFound? <==> roomId !in m.rooms.entries
    ensures r.1.NotFound? ==> r.0 == m
    ensures r.1.Deleted? ==> r.1.roomId == roomId && roomId != Lobby && GetRoom(r.0, roomId).None?
    ensures r.1.Deleted? <==> roomId in m.rooms.entries && !Survives(roomId, Evict(m.rooms.entries[roomId], userId))
    ensures r.1.Left? ==>
      && GetRoom(r.0, roomId) == Some(r.1.room)
      && !IsMember(r.1.room, userId)
      && r.1.room == Evict(m.rooms.entries[roomId], userId)
      && r.0.rooms.keys == m.rooms.keys
    ensures r.1.Deleted? ==> forall i :: 0 <= i < |m.rooms.keys| && m.rooms.keys[i] == roomId ==>
      r.0.rooms.keys == m.rooms.keys[..i] + m.rooms.keys[i + 1..]
    ensures roomId == Lobby && roomId in m.rooms.entries ==> r.1.Left?
    ensures forall k :: k != roomId ==> GetRoom(r.0, k) == GetRoom(m, k)
    ensures r.0.maxRoomUsers == m.maxRoomUsers
  {
    match GetRoom(m, roomId)
    case None => (m, NotFound)
    case Some(room) =>
      var room' := Evict(room, userId);
      if !Survives(roomId, room') then (m.(rooms := Delete(m.rooms, roomId)), Deleted(roomId))
      else (m.(rooms := Set(m.rooms, roomId, room')), Left(room'))
  }

  /** Effect of `removeUserFromAllRooms` on the room `before` stored under `k`: what
      `rooms` maps `k` to after the pass. */
  ghost predicate RemovedFrom(k: string, before: Room, after: map<string, Room>, userId: string)
  {
    if IsMember(before, userId) then
      && (k in after <==> Survives(k, Evict(before, userId)))
      && (k in after ==> after[k] == Evict(before, userId))
    else k in after && after[k] == before
  }

  /** The keys of `ks`, in order, whose room has `userId` as a member. */
  function RoomsWithMember(entries: map<string, Room>, ks: seq<string>, userId: string): (r: seq<string>)
    requires forall k :: k in ks ==> k in entries
    ensures forall k :: k in r <==> k in ks && IsMember(entries[k], userId)
    decreases |ks|
  {
    if |ks| == 0 then []
    else if IsMember(entries[ks[0]], userId) then [ks[0]] + RoomsWithMember(entries, ks[1..], userId)
    else RoomsWithMember(entries, ks[1..], userId)
  }

  lemma {:induction false} RoomsWithMemberAgree(e1: map<string, Room>, e2: map<string, Room>, ks: seq<string>, userId: string)
    requires forall k :: k in ks ==> k in e1 && k in e2 && e1[k] == e2[k]
    ensures RoomsWithMember(e1, ks, userId) == RoomsWithMember(e2, ks, userId)
    decreases |ks|
  {
    if |ks| > 0 {
      RoomsWithMemberAgree(e1, e2, ks[1..], userId);
    }
  }

  /** The hits of a concatenation are the hits of each part, in order. */
  lemma {:induction false} RoomsWithMemberAppend(entries: map<string, Room>, a: seq<string>, b: seq<string>, userId: string)
    requires forall k :: k in a + b ==> k in entries
    ensures RoomsWithMember(entries, a + b, userId) == RoomsWithMember(entries, a, userId) + RoomsWithMember(entries, b, userId)
    decreases |a|
  {
    if |a| > 0 {
      assert (a + b)[0] == a[0] && (a + b)[1..] == a[1..] + b;
      RoomsWithMemberAppend(entries, a[1..], b, userId);
    } else {
      assert a + b == b;
    }
  }

  /** A single room is a hit exactly when it has the user. */
  lemma RoomsWithMemberOne(entries: map<string, Room>, k: string, userId: string)
    requires k in entries
    ensures RoomsWithMember(entries, [k], userId) == if IsMember(entries[k], userId) then [k] else []
  {
    assert [k][0] == k && [k][1..] == [];
  }

  /** One iteration of the loop of `removeUserFromAllRooms`, for a room that has the user. */
  function EvictAt(rooms: JsMap<Room>, k: string, userId: string): (r: JsMap<Room>)
    requires k in rooms.entries
    ensures forall k' :: k' != k ==> (k' in r.entries <==> k' in rooms.entries)
    ensures forall k' :: k' != k && k' in r.entries ==> r.entries[k'] == rooms.entries[k']
    ensures k in r.entries <==> Survives(k, Evict(rooms.entries[k], userId))
    ensures k in r.entries ==> r.entries[k] == Evict(rooms.entries[k], userId)
    ensures k in r.entries ==> r.keys == rooms.keys
    ensures k !in r.entries ==> r.keys == Without(rooms.keys, k)
  {
    var room' := Evict(rooms.entries[k], userId);
    if Survives(k, room') then Set(rooms, k, room') else Delete(rooms, k)
  }

  lemma DistinctTail(ks: seq<string>)
    requires |ks| > 0 && Distinct(ks)
    ensures Distinct(ks[1..]) && ks[0] !in ks[1..]
  {
    var tail := ks[1..];
    forall i, j | 0 <= i < j < |tail| ensures tail[i] != tail[j] {
      assert tail[i] == ks[i + 1] && tail[j] == ks[j + 1];
    }
    forall j | 0 <= j < |tail| ensures tail[j] != ks[0] {
      assert tail[j] == ks[j + 1];
    }
  }

  /** The loop of `removeUserFromAllRooms` over the keys `ks` still to visit. */
  function RemoveFromEach(rooms: JsMap<Room>, ks: seq<string>, userId: string): (r: (JsMap<Room>, seq<string>))
    requires Distinct(ks)
    requires forall k :: k in ks ==> k in rooms.entries
    ensures forall k :: k in r.0.entries ==> k in rooms.entries
    ensures forall k :: k in rooms.entries && k !in ks ==> k in r.0.entries && r.0.entries[k] == rooms.entries[k]
    ensures forall k :: k in ks ==> RemovedFrom(k, rooms.entries[k], r.0.entries, userId)
    ensures r.1 == RoomsWithMember(rooms.entries, ks, userId)
    decreases |ks|
  {
    if |ks| == 0 then (rooms, [])
    else
      var k := ks[0];
      DistinctTail(ks);
      if IsMember(rooms.entries[k], userId) then
        var rooms' := EvictAt(rooms, k, userId);
        var (final, hits) := RemoveFromEach(rooms', ks[1..], userId);
        RoomsWithMemberAgree(rooms.entries, rooms'.entries, ks[1..], userId);
        (final, [k] + hits)
      else
        RemoveFromEach(rooms, ks[1..], userId)
  }

  /** The loop only drops keys: the rooms left keep their relative order. */
  lemma {:induction false} RemoveFromEachKeepsOrder(rooms: JsMap<Room>, ks: seq<string>, userId: string)
    requires Distinct(ks)
    requires forall k :: k in ks ==> k in rooms.entries
    ensures var after := RemoveFromEach(rooms, ks, userId).0;
      after.keys == KeepOnly(rooms.keys, after.entries.Keys)
    decreases |ks|
  {
    var after := RemoveFromEach(rooms, ks, userId).0;
    if |ks| == 0 {
      KeepOnlyAll(rooms.keys, rooms.entries.Keys);
    } else {
      var k := ks[0];
      DistinctTail(ks);
      if IsMember(rooms.entries[k], userId) {
        var rooms' := EvictAt(rooms, k, userId);
        assert after == RemoveFromEach(rooms', ks[1..], userId).0;
        RemoveFromEachKeepsOrder(rooms', ks[1..], userId);
        if k !in rooms'.entries {
          assert k !in after.entries;
          KeepOnlyWithout(rooms.keys, k, after.entries.Keys);
        }
      } else {
        RemoveFromEachKeepsOrder(rooms, ks[1..], userId);
      }
    }
  }

  /** `removeUserFromAllRooms(userId)`: removes the user from every room, drops each
      room it empties other than the lobby, and returns the ids of the rooms that had
      the user, in room order. */
  function RemoveUserFromAllRooms(m: RoomManager, userId: string): (r: (RoomManager, seq<string>))
    ensures forall k :: k in r.1 <==> k in m.rooms.entries && IsMember(m.rooms.entries[k], userId)
    ensures r.1 == RoomsWithMember(m.rooms.entries, m.rooms.keys, userId)
    ensures forall k :: k in r.0.rooms.entries ==> k in m.rooms.entries && !IsMember(r.0.rooms.entries[k], userId)
    ensures forall k :: k in m.rooms.entries ==> RemovedFrom(k, m.rooms.entries[k], r.0.rooms.entries, userId)
    ensures r.0.rooms.keys == KeepOnly(m.rooms.keys, r.0.rooms.entries.Keys)
    ensures r.0.maxRoomUsers == m.maxRoomUsers
  {
    RemoveFromEachKeepsOrder(m.rooms, m.rooms.keys, userId);
    var (rooms', affected) := RemoveFromEach(m.rooms, m.rooms.keys, userId);
    (m.(rooms := rooms'), affected)
  }

  /** Other users keep exactly the memberships they had in every room that survives. */
  lemma RemoveKeepsOtherMembers(m: RoomManager, userId: string, k: string, other: string)
    requires other != userId
    requires k in RemoveUserFromAllRooms(m, userId).0.rooms.entries
    ensures var after := RemoveUserFromAllRooms(m, userId).0.rooms.entries[k];
      && k in m.rooms.entries
      && Get(after.users, other) == Get(m.rooms.entries[k].users, other)
  {
    assert RemovedFrom(k, m.rooms.entries[k], RemoveUserFromAllRooms(m, userId).0.rooms.entries, userId);
  }

  /** A second pass for the same user finds it nowhere and changes nothing. */
  lemma RemoveUserTwiceIsNoop(m: RoomManager, userId: string)
    ensures var m1 := RemoveUserFromAllRooms(m, userId).0;
      && RemoveUserFromAllRooms(m1, userId).1 == []
      && RemoveUserFromAllRooms(m1, userId).0.rooms.entries == m1.rooms.entries
  {
    var m1 := RemoveUserFromAllRooms(m, userId).0;
    var (m2, hits) := RemoveUserFromAllRooms(m1, userId);
    NoRoomsWithMember(m1.rooms.entries, m1.rooms.keys, userId);
    forall k | k in m1.rooms.entries
      ensures k in m2.rooms.entries && m2.rooms.entries[k] == m1.rooms.entries[k]
    {
      assert RemovedFrom(k, m1.rooms.entries[k], m2.rooms.entries, userId);
    }
  }

  lemma {:induction false} NoRoomsWithMember(entries: map<string, Room>, ks: seq<string>, userId: string)
    requires forall k :: k in ks ==> k in entries && !IsMember(entries[k], userId)
    ensures RoomsWithMember(entries, ks, userId) == []
    decreases |ks|
  {
    if |ks| > 0 {
      NoRoomsWithMember(entries, ks[1..], userId);
    }
  }

  // ---------------------------------------------------------------------------
  // The directory stays well formed

  lemma InitValid(parsedMax: Option<int>)
    ensures Valid(Init(parsedMax))
  {
  }

  lemma CreateDefaultRoomPreservesValid(m: RoomManager, env: Option<string>, now: int)
    requires Valid(m)
    ensures Valid(CreateDefaultRoom(m, env, now).0)
  {
    var m' := CreateDefaultRoom(m, env, now).0;
    forall k | k in m'.rooms.entries ensures RoomOk(m', k) {
      assert GetRoom(m', k) == GetRoom(m, k) || k == Lobby;
    }
  }

  /** Adding an empty room without a dm pair keeps the directory well formed. */
  lemma PutEmptyRoomValid(m: RoomManager, m': RoomManager, room: Room)
    requires Valid(m)
    requires Size(room.users) == 0 && room.dmPair.None?
    requires m'.maxRoomUsers == m.maxRoomUsers
    requires GetRoom(m', room.id) == Some(room)
    requires forall k :: k != room.id ==> GetRoom(m', k) == GetRoom(m, k)
    ensures Valid(m')
  {
    forall k | k in m'.rooms.entries ensures RoomOk(m', k) {
      if k != room.id {
        assert GetRoom(m', k) == GetRoom(m, k);
      }
    }
    forall k1, k2 |
      && k1 in m'.rooms.entries && k2 in m'.rooms.entries
      && m'.rooms.entries[k1].dmPair.Some? && m'.rooms.entries[k2].dmPair.Some?
      && PairSet(m'.rooms.entries[k1].dmPair.value) == PairSet(m'.rooms.entries[k2].dmPair.value)
      ensures k1 == k2
    {
      assert GetRoom(m', k1) == GetRoom(m, k1) && GetRoom(m', k2) == GetRoom(m, k2);
    }
  }

  lemma CreateRoomPreservesValid(m: RoomManager, name: string, kind: JsValue, createdBy: string, uuid: string, now: int)
    requires Valid(m)
    ensures Valid(CreateRoom(m, name, kind, createdBy, uuid, now).0)
  {
    var (m', room) := CreateRoom(m, name, kind, createdBy, uuid, now);
    PutEmptyRoomValid(m, m', room);
  }

  /** No second dm room is created for a pair that already has one, so pairs stay unique. */
  lemma FindOrCreateDMPreservesValid(m: RoomManager, u1: string, n1: JsValue, u2: string, n2: JsValue, uuid: string, now: int)
    requires Valid(m)
    ensures Valid(FindOrCreateDM(m, u1, n1, u2, n2, uuid, now).0)
  {
    var (m', room) := FindOrCreateDM(m, u1, n1, u2, n2, uuid, now);
    if FindDm(m, u1, u2).None? {
      forall k | k in m'.rooms.entries ensures RoomOk(m', k) {
        if k != room.id {
          assert GetRoom(m', k) == GetRoom(m, k);
        }
      }
      forall k1, k2 |
        && k1 in m'.rooms.entries && k2 in m'.rooms.entries
        && m'.rooms.entries[k1].dmPair.Some? && m'.rooms.entries[k2].dmPair.Some?
        && PairSet(m'.rooms.entries[k1].dmPair.value) == PairSet(m'.rooms.entries[k2].dmPair.value)
        ensures k1 == k2
      {
        assert GetRoom(m', k1) == GetRoom(m, k1) || k1 == room.id;
        assert GetRoom(m', k2) == GetRoom(m, k2) || k2 == room.id;
        if k1 == room.id && k2 != room.id {
          PairSetMatches(m.rooms.entries[k2], u1, u2);
        } else if k2 == room.id && k1 != room.id {
          PairSetMatches(m.rooms.entries[k1], u1, u2);
        }
      }
    }
  }

  /** A dm room whose recorded pair is the set {a, b} is found by a search for (a, b). */
  lemma PairSetMatches(r: Room, a: string, b: string)
    requires r.dmPair.Some? && IsDm(r)
    requires PairSet(r.dmPair.value) == PairSet((a, b))
    ensures DmMatches(r, a, b)
  {
    assert a in PairSet(r.dmPair.value) && b in PairSet(r.dmPair.value);
  }

  lemma JoinRoomPreservesValid(m: RoomManager, roomId: string, member: Member)
    requires Valid(m)
    ensures Valid(JoinRoom(m, roomId, member).0)
  {
    var (m', res) := JoinRoom(m, roomId, member);
    if res.Joined? {
      forall k | k in m'.rooms.entries ensures RoomOk(m', k) {
        if k != roomId {
          assert GetRoom(m', k) == GetRoom(m, k);
        } else {
          var r := res.room;
          forall u | u in r.users.entries ensures r.users.entries[u].userId == u {
            if u != member.userId {
              assert u in m.rooms.entries[roomId].users.entries;
            }
          }
        }
      }
      forall k1, k2 |
        && k1 in m'.rooms.entries && k2 in m'.rooms.entries
        && m'.rooms.entries[k1].dmPair.Some? && m'.rooms.entries[k2].dmPair.Some?
        && PairSet(m'.rooms.entries[k1].dmPair.value) == PairSet(m'.rooms.entries[k2].dmPair.value)
        ensures k1 == k2
      {
        assert m'.rooms.entries[k1].dmPair == m.rooms.entries[k1].dmPair;
        assert m'.rooms.entries[k2].dmPair == m.rooms.entries[k2].dmPair;
      }
    }
  }

  /** Removing a member from a well-formed room leaves it well formed. */
  lemma EvictOk(m: RoomManager, m': RoomManager, k: string, userId: string)
    requires Valid(m) && k in m.rooms.entries && k in m'.rooms.entries
    requires m'.maxRoomUsers == m.maxRoomUsers
    requires m'.rooms.entries[k] == Evict(m.rooms.entries[k], userId)
    ensures RoomOk(m', k)
  {
    assert RoomOk(m, k);
  }

  lemma LeaveRoomPreservesValid(m: RoomManager, roomId: string, userId: string)
    requires Valid(m)
    ensures Valid(LeaveRoom(m, roomId, userId).0)
  {
    var (m', res) := LeaveRoom(m, roomId, userId);
    forall k | k in m'.rooms.entries ensures RoomOk(m', k) && m'.rooms.entries[k].dmPair == m.rooms.entries[k].dmPair {
      if k != roomId {
        assert GetRoom(m', k) == GetRoom(m, k);
      } else {
        EvictOk(m, m', k, userId);
      }
    }
  }

  lemma RemoveUserPreservesValid(m: RoomManager, userId: string)
    requires Valid(m)
    ensures Valid(RemoveUserFromAllRooms(m, userId).0)
  {
    var m' := RemoveUserFromAllRooms(m, userId).0;
    forall k | k in m'.rooms.entries ensures RoomOk(m', k) && m'.rooms.entries[k].dmPair == m.rooms.entries[k].dmPair {
      assert RemovedFrom(k, m.rooms.entries[k], m'.rooms.entries, userId);
      if IsMember(m.rooms.entries[k], userId) {
        EvictOk(m, m', k, userId);
      }
    }
  }

  /** The lobby is never dropped: leaving it, or removing a user everywhere, keeps it. */
  lemma LobbyNeverDeleted(m: RoomManager, roomId: string, userId: string)
    requires Lobby in m.rooms.entries
    ensures Lobby in LeaveRoom(m, roomId, userId).0.rooms.entries
    ensures Lobby in RemoveUserFromAllRooms(m, userId).0.rooms.entries
  {
    assert RemovedFrom(Lobby, m.rooms.entries[Lobby], RemoveUserFromAllRooms(m, userId).0.rooms.entries, userId);
  }

  /** With `maxRoomUsers` members present the next join fails and changes nothing. */
  lemma FullRoomRejectsJoin(m: RoomManager, roomId: string, member: Member)
    requires roomId in m.rooms.entries
    requires Size(m.rooms.entries[roomId].users) >= m.maxRoomUsers
    ensures JoinRoom(m, roomId, member) == (m, RoomFull(RoomFullMessage))
  {
  }

  // ---------------------------------------------------------------------------
  // Views

  /** `serializeRoom(room)`: the externally visible fields, members in join order. */
  function SerializeRoom(r: Room): (v: RoomView)
    ensures v.id == r.id && v.name == r.name && v.kind == r.kind && v.createdBy == r.createdBy && v.createdAt == r.createdAt
    ensures |v.users| == Size(r.users)
    ensures forall i :: 0 <= i < |v.users| ==> v.users[i] == r.users.entries[r.users.keys[i]]
  {
    RoomView(r.id, r.name, r.kind, r.createdBy, Values(r.users), r.createdAt)
  }

  /** The view never reveals the dm pair: rooms that differ only in it look the same. */
  lemma SerializeHidesDmPair(r: Room, pair: Option<(string, string)>)
    ensures SerializeRoom(r.(dmPair := pair)) == SerializeRoom(r)
  {
  }

  /** Every member appears in the view, and only members do. */
  lemma SerializeListsMembers(r: Room, u: string)
    requires forall x :: x in r.users.entries ==> r.users.entries[x].userId == x
    ensures IsMember(r, u) <==> exists i :: 0 <= i < |SerializeRoom(r).users| && SerializeRoom(r).users[i].userId == u
  {
    var v := SerializeRoom(r);
    if IsMember(r, u) {
      var i :| 0 <= i < |r.users.keys| && r.users.keys[i] == u;
      assert v.users[i].userId == u;
    }
  }

  /** Which rooms a listing shows: `getPublicRooms` skips dm rooms, `getUserRooms(u)`
      keeps the rooms `u` is a member of and the public ones. */
  datatype RoomFilter = NotDm | VisibleTo(userId: string)

  predicate Accepts(f: RoomFilter, room: Room)
  {
    match f
    case NotDm => !IsDm(room)
    case VisibleTo(u) => IsMember(room, u) || IsPublic(room)
  }

  /** The ids of the rooms that pass the filter. */
  function AcceptedIds(m: RoomManager, f: RoomFilter): (r: set<string>)
    ensures forall k :: k in r <==> k in m.rooms.entries && Accepts(f, m.rooms.entries[k])
  {
    set k | k in m.rooms.entries && Accepts(f, m.rooms.entries[k])
  }

  /** The ids of the rooms a listing shows: the directory's keys, in their order, kept
      when their room passes the filter. */
  function ListedIds(m: RoomManager, f: RoomFilter): (r: seq<string>)
    ensures forall k :: k in r <==> k in m.rooms.entries && Accepts(f, m.rooms.entries[k])
    ensures |r| <= Size(m.rooms)
    ensures Distinct(r)
  {
    KeepOnlyDistinct(m.rooms.keys, AcceptedIds(m, f));
    KeepOnly(m.rooms.keys, AcceptedIds(m, f))
  }

  /** The loop of `getPublicRooms` / `getUserRooms`: the accepted rooms, serialized, in
      room order. */
  function ListRooms(m: RoomManager, f: RoomFilter): (r: seq<RoomView>)
    ensures |r| == |ListedIds(m, f)| <= Size(m.rooms)
    ensures forall i :: 0 <= i < |r| ==> Accepts(f, m.rooms.entries[ListedIds(m, f)[i]])
    ensures forall i :: 0 <= i < |r| ==> r[i] == SerializeRoom(m.rooms.entries[ListedIds(m, f)[i]])
  {
    var ks := ListedIds(m, f);
    assert forall i :: 0 <= i < |ks| ==> ks[i] in ks;
    seq(|ks|, i requires 0 <= i < |ks| => SerializeRoom(m.rooms.entries[ks[i]]))
  }

  /** In a directory whose rooms carry their keys as ids, a room's view is listed
      exactly when the room passes the filter, and every listed view is the view of the
      room its id names. */
  lemma ListRoomsExact(m: RoomManager, f: RoomFilter, k: string)
    requires forall x :: x in m.rooms.entries ==> m.rooms.entries[x].id == x
    requires k in m.rooms.entries
    ensures SerializeRoom(m.rooms.entries[k]) in ListRooms(m, f) <==> Accepts(f, m.rooms.entries[k])
  {
    var r := ListRooms(m, f);
    var ks := ListedIds(m, f);
    if SerializeRoom(m.rooms.entries[k]) in r {
      var i :| 0 <= i < |r| && r[i] == SerializeRoom(m.rooms.entries[k]);
      assert ks[i] in ks;
      assert m.rooms.entries[ks[i]].id == ks[i];
    }
    if Accepts(f, m.rooms.entries[k]) {
      var i :| 0 <= i < |ks| && ks[i] == k;
      assert r[i] == SerializeRoom(m.rooms.entries[k]);
    }
  }

  /** `getPublicRooms()`: the rooms that are not dm rooms, in room order. */
  function GetPublicRooms(m: RoomManager): (r: seq<RoomView>)
    ensures |r| <= Size(m.rooms)
    ensures forall i :: 0 <= i < |r| ==> r[i].kind != Str("dm")
  {
    ListRooms(m, NotDm)
  }

  /** `getUserRooms(userId)`: the rooms the user is a member of or whose type is
      `'public'`, in room order. */
  function GetUserRooms(m: RoomManager, userId: string): (r: seq<RoomView>)
    ensures |r| == |ListedIds(m, VisibleTo(userId))| <= Size(m.rooms)
    ensures Distinct(ListedIds(m, VisibleTo(userId)))
    ensures forall i :: 0 <= i < |r| ==>
      r[i].kind == Str("public") || IsMember(m.rooms.entries[ListedIds(m, VisibleTo(userId))[i]], userId)
  {
    ListRooms(m, VisibleTo(userId))
  }

  /** In a well-formed directory, `getPublicRooms` lists a room exactly when it is not a
      dm room. */
  lemma PublicRoomsExact(m: RoomManager, k: string)
    requires Valid(m) && k in m.rooms.entries
    ensures SerializeRoom(m.rooms.entries[k]) in GetPublicRooms(m) <==> !IsDm(m.rooms.entries[k])
  {
    assert forall x :: x in m.rooms.entries ==> RoomOk(m, x);
    ListRoomsExact(m, NotDm, k);
  }

  /** In a well-formed directory, `getUserRooms(u)` lists a room exactly when `u` is a
      member or the room is public. */
  lemma UserRoomsExact(m: RoomManager, userId: string, k: string)
    requires Valid(m) && k in m.rooms.entries
    ensures SerializeRoom(m.rooms.entries[k]) in GetUserRooms(m, userId)
            <==> IsMember(m.rooms.entries[k], userId) || IsPublic(m.rooms.entries[k])
  {
    assert forall x :: x in m.rooms.entries ==> RoomOk(m, x);
    ListRoomsExact(m, VisibleTo(userId), k);
  }
}
