/** The socket event handlers of node-server/server.js. Each handler is one atomic step
    of the Node event loop: it reads the state, updates the room directory, the presence
    registry and the channel subscriptions, and emits events. An emitted event is
    recorded with the set of sockets it reaches, computed from the subscriptions at the
    moment of the emit, as socket.io does. */
module Relay {
  import opened JsValues
  import opened JsMaps
  import opened Auth
  import opened Presence
  import opened Rooms

  const OfflineMessage: string := "해당 사용자가 오프라인입니다."
  const NoSuchRoomMessage: string := "존재하지 않는 채팅방입니다."
  const NotMemberMessage: string := "해당 채팅방에 참여하고 있지 않습니다."
  const MessageLimit: nat := 2000
  const DisplayNameLimit: nat := 20

  function JoinedNotice(name: JsValue): string { ToJsString(name) + "님이 입장했습니다." }
  function LeftNotice(name: JsValue): string { ToJsString(name) + "님이 퇴장했습니다." }
  function InvitedByNotice(inviter: JsValue): string { ToJsString(inviter) + "님이 채팅방에 초대했습니다." }
  function InvitedNotice(target: JsValue): string { ToJsString(target) + "님이 초대되었습니다." }

  /** The object relayed by `message:send`; it is built, emitted and dropped. */
  datatype Message = Message(
    id: string,
    roomId: string,
    userId: string,
    displayName: JsValue,
    avatarUrl: JsValue,
    text: string,
    timestamp: int)

  /** Outbound events with their payloads. */
  datatype Event =
    | AuthSuccess(userId: string, displayName: JsValue, avatarUrl: JsValue, isGuest: bool)
    | UsersList(users: seq<PublicUser>)
    | UserJoined(userId: string, displayName: JsValue, avatarUrl: JsValue, isGuest: bool)
    | UserLeft(userId: string)
    | RoomsList(rooms: seq<RoomView>)
    | RoomCreated(room: RoomView)
    | RoomJoined(room: RoomView)
    | RoomUpdated(room: RoomView)
    | RoomDeleted(roomId: string)
    | MessageReceive(message: Message)
    | SystemMessage(text: string)
    | TypingShow(userId: string, displayName: JsValue, typingIn: JsValue)
    | TypingHide(userId: string, typingIn: JsValue)

  /** An emitted event and the sockets it reaches. */
  datatype Delivery = Delivery(to: set<string>, event: Event)

  /** A live socket: the identity its handlers close over (`socket.user`) and the
      channels it has joined, its own socket id among them at first. */
  datatype Conn = Conn(user: Identity, channels: set<string>)

  datatype State = State(rooms: RoomManager, presence: PresenceManager, conns: map<string, Conn>)

  datatype Step = Step(state: State, out: seq<Delivery>)

  // ---------------------------------------------------------------------------
  // Channels

  /** The sockets `io.to(channel)` reaches. */
  function Subscribers(conns: map<string, Conn>, channel: string): set<string>
  {
    set s | s in conns && channel in conns[s].channels
  }

  /** The sockets `io.emit` reaches. */
  function Everyone(st: State): set<string>
  {
    st.conns.Keys
  }

  /** The sockets `socket.to(roomId)` reaches from `sid`: a non-string id names no
      channel any socket is in. */
  function OthersIn(st: State, roomId: JsValue, sid: string): set<string>
  {
    if roomId.Str? then Subscribers(st.conns, roomId.s) - {sid} else {}
  }

  /** `socket.join(channel)` */
  function Subscribe(st: State, sid: string, channel: string): (r: State)
    requires sid in st.conns
    ensures r.rooms == st.rooms && r.presence == st.presence && r.conns.Keys == st.conns.Keys
    ensures Subscribers(r.conns, channel) == Subscribers(st.conns, channel) + {sid}
    ensures forall c :: c != channel ==> Subscribers(r.conns, c) == Subscribers(st.conns, c)
    ensures forall s :: s in r.conns ==> r.conns[s].user == st.conns[s].user
  {
    var c := st.conns[sid];
    st.(conns := st.conns[sid := c.(channels := c.channels + {channel})])
  }

  /** `socket.leave(channel)` */
  function Unsubscribe(st: State, sid: string, channel: string): (r: State)
    requires sid in st.conns
    ensures r.rooms == st.rooms && r.presence == st.presence && r.conns.Keys == st.conns.Keys
    ensures Subscribers(r.conns, channel) == Subscribers(st.conns, channel) - {sid}
    ensures forall c :: c != channel ==> Subscribers(r.conns, c) == Subscribers(st.conns, c)
    ensures forall s :: s in r.conns ==> r.conns[s].user == st.conns[s].user
  {
    var c := st.conns[sid];
    st.(conns := st.conns[sid := c.(channels := c.channels - {channel})])
  }

  /** `io.to(from).socketsJoin(channel)`: every socket in `from` joins `channel`. */
  function SubscribeAll(st: State, from: string, channel: string): (r: State)
    ensures r.rooms == st.rooms && r.presence == st.presence && r.conns.Keys == st.conns.Keys
    ensures Subscribers(r.conns, channel) == Subscribers(st.conns, channel) + Subscribers(st.conns, from)
    ensures forall c :: c != channel ==> Subscribers(r.conns, c) == Subscribers(st.conns, c)
    ensures forall s :: s in r.conns ==> r.conns[s].user == st.conns[s].user
  {
    var conns := map s | s in st.conns ::
      if from in st.conns[s].channels then st.conns[s].(channels := st.conns[s].channels + {channel})
      else st.conns[s];
    st.(conns := conns)
  }

  // ---------------------------------------------------------------------------
  // Lookups by payload value: the maps are keyed by strings, so any other value misses.

  function RoomByValue(st: State, roomId: JsValue): (r: Option<Room>)
    ensures r.Some? ==> roomId.Str? && GetRoom(st.rooms, roomId.s) == r
    ensures roomId.Str? ==> r == GetRoom(st.rooms, roomId.s)
  {
    if roomId.Str? then GetRoom(st.rooms, roomId.s) else None
  }

  function UserByValue(st: State, userId: JsValue): (r: Option<UserPresence>)
    ensures r.Some? ==> userId.Str? && GetUser(st.presence, userId.s) == r
    ensures userId.Str? ==> r == GetUser(st.presence, userId.s)
  {
    if userId.Str? then GetUser(st.presence, userId.s) else None
  }

  /** `{ ...user, socketId }` as `joinRoom` stores it. */
  function MemberOf(user: Identity, sid: string): Member
  {
    Member(user.userId, user.displayName, user.avatarUrl, sid)
  }

  function MemberOfPresence(p: UserPresence, sid: string): Member
  {
    Member(p.userId, p.displayName, p.avatarUrl, sid)
  }

  /** The room object a handler holds, as it reads after the handler's own mutations. */
  function Current(m: RoomManager, r: Room): Room
  {
    if r.id in m.rooms.entries then m.rooms.entries[r.id] else r
  }

  // ---------------------------------------------------------------------------
  // Start-up and connection

  /** Module start-up: an empty directory with `createDefaultRoom()` applied once. */
  function Boot(parsedMax: Option<int>, lobbyName: Option<string>, now: int): (st: State)
    ensures GetRoom(st.rooms, Lobby).Some? && Size(st.rooms.rooms.entries[Lobby].users) == 0
    ensures st.rooms.rooms.entries.Keys == {Lobby} && st.rooms.rooms.keys == [Lobby]
    ensures st.rooms.rooms.entries[Lobby] == Room(Lobby, LobbyName(lobbyName), Str("public"), "system", Empty(), now, None)
    ensures st.rooms.maxRoomUsers == MaxRoomUsers(parsedMax)
    ensures GetOnlineCount(st.presence) == 0 && st.presence.socketToUser.entries == map[] && st.conns == map[]
  {
    State(CreateDefaultRoom(Rooms.Init(parsedMax), lobbyName, now).0, Presence.Init(), map[])
  }

  /** The `connection` handler for socket `sid` of an authenticated `user`. */
  function OnConnection(st: State, sid: string, user: Identity, now: int): (r: Step)
    requires sid !in st.conns
    ensures r.state.conns == st.conns[sid := Conn(user, {sid})]
    ensures r.state.rooms == st.rooms
    ensures r.state.presence == UserConnected(st.presence, sid, user, now).0
    ensures IsOnline(r.state.presence, user.userId)
    ensures |r.out| == 4
    ensures r.out[0] == Delivery({sid}, AuthSuccess(user.userId, user.displayName, user.avatarUrl, user.isGuest))
    ensures r.out[1] == Delivery(Everyone(r.state), UsersList(GetOnlineUserList(r.state.presence)))
    ensures r.out[2] == Delivery(Everyone(st), UserJoined(user.userId, user.displayName, user.avatarUrl, user.isGuest))
    ensures r.out[3] == Delivery({sid}, RoomsList(GetUserRooms(st.rooms, user.userId)))
  {
    var presence := UserConnected(st.presence, sid, user, now).0;
    var st1 := State(st.rooms, presence, st.conns[sid := Conn(user, {sid})]);
    assert Everyone(st1) - {sid} == Everyone(st);
    Step(st1, [
      Delivery({sid}, AuthSuccess(user.userId, user.displayName, user.avatarUrl, user.isGuest)),
      Delivery(Everyone(st1), UsersList(GetOnlineUserList(presence))),
      Delivery(Everyone(st1) - {sid}, UserJoined(user.userId, user.displayName, user.avatarUrl, user.isGuest)),
      Delivery({sid}, RoomsList(GetUserRooms(st.rooms, user.userId)))])
  }

  // ---------------------------------------------------------------------------
  // Rooms

  /** `room:create {name, type}` */
  function OnRoomCreate(st: State, sid: string, name: JsValue, kind: JsValue, uuid: string, now: int): (r: Step)
    requires sid in st.conns
    ensures NonEmptyText(name).None? ==> r == Step(st, [])
    ensures NonEmptyText(name).Some? ==>
      var id := RoomIdFor(uuid);
      var user := st.conns[sid].user;
      var rooms1 := CreateRoom(st.rooms, Sanitize(name.s, RoomNameLimit), kind, user.userId, uuid, now).0;
      && r.state.rooms == JoinRoom(rooms1, id, MemberOf(user, sid)).0
      && id in r.state.rooms.rooms.entries
      && var room := r.state.rooms.rooms.entries[id];
      && room.name == Sanitize(name.s, RoomNameLimit)
      && room.createdBy == user.userId && room.createdAt == now && room.dmPair.None?
      && room.kind == (if Truthy(kind) then kind else Str("public"))
      && (st.rooms.maxRoomUsers > 0 ==>
            && IsMember(room, user.userId) && Size(room.users) == 1
            && room.users.entries[user.userId] == MemberOf(user, sid))
      && sid in Subscribers(r.state.conns, id)
      && r.state.conns == Subscribe(st, sid, id).conns
      && r.out == [Delivery(Everyone(st), RoomCreated(SerializeRoom(room))), Delivery({sid}, RoomJoined(SerializeRoom(room)))]
      && (forall k :: k != id ==> GetRoom(r.state.rooms, k) == GetRoom(st.rooms, k))
      && r.state.presence == st.presence
  {
    match NonEmptyText(name)
    case None => Step(st, [])
    case Some(text) =>
      var user := st.conns[sid].user;
      var (rooms1, room) := CreateRoom(st.rooms, Sanitize(text, RoomNameLimit), kind, user.userId, uuid, now);
      var rooms2 := JoinRoom(rooms1, room.id, MemberOf(user, sid)).0;
      var st2 := Subscribe(st.(rooms := rooms2), sid, room.id);
      var view := SerializeRoom(Current(rooms2, room));
      Step(st2, [Delivery(Everyone(st2), RoomCreated(view)), Delivery({sid}, RoomJoined(view))])
  }

  /** `room:create-dm {targetUserId}` (`targetName` is not read). */
  function OnRoomCreateDm(st: State, sid: string, targetUserId: JsValue, uuid: string, now: int): (r: Step)
    requires sid in st.conns
    ensures !Truthy(targetUserId) ==> r == Step(st, [])
    ensures Truthy(targetUserId) && UserByValue(st, targetUserId).None? ==>
      r == Step(st, [Delivery({sid}, SystemMessage(OfflineMessage))])
    ensures Truthy(targetUserId) && UserByValue(st, targetUserId).Some? ==>
      var user := st.conns[sid].user;
      var target := UserByValue(st, targetUserId).value;
      var (rooms1, found) := FindOrCreateDM(st.rooms, user.userId, user.displayName, targetUserId.s,
                                            target.displayName, uuid, now);
      var rooms2 := JoinRoom(rooms1, found.id, MemberOf(user, sid)).0;
      && sid in Subscribers(r.state.conns, found.id)
      && r.state.presence == st.presence
      && r.state.rooms.rooms.entries.Keys == rooms1.rooms.entries.Keys
      && (GetSocketId(st.presence, targetUserId.s).None? ==>
            && r.state.rooms == rooms2
            && Subscribers(r.state.conns, found.id) == Subscribers(st.conns, found.id) + {sid}
            && r.state.conns == Subscribe(st, sid, found.id).conns
            && |r.out| == 1)
      && (GetSocketId(st.presence, targetUserId.s).Some? ==>
            var targetSid := GetSocketId(st.presence, targetUserId.s).value;
            && r.state.rooms == JoinRoom(rooms2, found.id, MemberOfPresence(target, targetSid)).0
            && Subscribers(st.conns, targetSid) <= Subscribers(r.state.conns, found.id)
            && r.state.conns == SubscribeAll(Subscribe(st, sid, found.id), targetSid, found.id).conns
            && |r.out| == 2
            && r.out[0] == Delivery(Subscribers(r.state.conns, targetSid), RoomJoined(SerializeRoom(Current(r.state.rooms, found)))))
      && |r.out| >= 1
      && r.out[|r.out| - 1] == Delivery({sid}, RoomJoined(SerializeRoom(Current(r.state.rooms, found))))
  {
    if !Truthy(targetUserId) then Step(st, [])
    else match UserByValue(st, targetUserId)
      case None => Step(st, [Delivery({sid}, SystemMessage(OfflineMessage))])
      case Some(target) =>
        var user := st.conns[sid].user;
        var targetId := targetUserId.s;
        var (rooms1, room) := FindOrCreateDM(st.rooms, user.userId, user.displayName, targetId, target.displayName, uuid, now);
        var rooms2 := JoinRoom(rooms1, room.id, MemberOf(user, sid)).0;
        var st2 := Subscribe(st.(rooms := rooms2), sid, room.id);
        var (st3, toTarget) :=
          match GetSocketId(st.presence, targetId)
          case None => (st2, [])
          case Some(targetSid) =>
            var rooms3 := JoinRoom(rooms2, room.id, MemberOfPresence(target, targetSid)).0;
            var st3 := SubscribeAll(st2.(rooms := rooms3), targetSid, room.id);
            (st3, [Delivery(Subscribers(st3.conns, targetSid), RoomJoined(SerializeRoom(Current(rooms3, room))))]);
        Step(st3, toTarget + [Delivery({sid}, RoomJoined(SerializeRoom(Current(st3.rooms, room))))])
  }

  /** `room:join {roomId}` */
  function OnRoomJoin(st: State, sid: string, roomId: JsValue): (r: Step)
    requires sid in st.conns
    ensures !Truthy(roomId) ==> r == Step(st, [])
    ensures Truthy(roomId) && RoomByValue(st, roomId).None? ==>
      r == Step(st, [Delivery({sid}, SystemMessage(NoSuchRoomMessage))])
    ensures Truthy(roomId) && RoomByValue(st, roomId).Some? && Size(RoomByValue(st, roomId).value.users) >= st.rooms.maxRoomUsers ==>
      r == Step(st, [Delivery({sid}, SystemMessage(RoomFullMessage))])
    ensures Truthy(roomId) && RoomByValue(st, roomId).Some? && Size(RoomByValue(st, roomId).value.users) < st.rooms.maxRoomUsers ==>
      var user := st.conns[sid].user;
      && r.state.rooms == JoinRoom(st.rooms, roomId.s, MemberOf(user, sid)).0
      && roomId.s in r.state.rooms.rooms.entries
      && var room := r.state.rooms.rooms.entries[roomId.s];
      && IsMember(room, user.userId)
      && room.users.entries[user.userId] == MemberOf(user, sid)
      && Size(room.users) <= st.rooms.maxRoomUsers
      && Subscribers(r.state.conns, roomId.s) == Subscribers(st.conns, roomId.s) + {sid}
      && r.state.conns == Subscribe(st, sid, roomId.s).conns
      && r.state.presence == st.presence
      && r.out == [
           Delivery({sid}, RoomJoined(SerializeRoom(room))),
           Delivery(Subscribers(st.conns, roomId.s) - {sid}, SystemMessage(JoinedNotice(user.displayName))),
           Delivery(Everyone(st), RoomUpdated(SerializeRoom(room)))]
  {
    if !Truthy(roomId) then Step(st, [])
    else if !roomId.Str? then Step(st, [Delivery({sid}, SystemMessage(NoSuchRoomMessage))])
    else
      var user := st.conns[sid].user;
      var (rooms1, result) := JoinRoom(st.rooms, roomId.s, MemberOf(user, sid));
      match result
      case NoSuchRoom => Step(st, [Delivery({sid}, SystemMessage(NoSuchRoomMessage))])
      case RoomFull(error) => Step(st, [Delivery({sid}, SystemMessage(error))])
      case Joined(room) =>
        var st1 := Subscribe(st.(rooms := rooms1), sid, roomId.s);
        assert Subscribers(st1.conns, roomId.s) - {sid} == Subscribers(st.conns, roomId.s) - {sid};
        assert Everyone(st1) == Everyone(st);
        Step(st1, [
          Delivery({sid}, RoomJoined(SerializeRoom(room))),
          Delivery(Subscribers(st1.conns, roomId.s) - {sid}, SystemMessage(JoinedNotice(user.displayName))),
          Delivery(Everyone(st1), RoomUpdated(SerializeRoom(room)))])
  }

  /** `room:leave {roomId}` */
  function OnRoomLeave(st: State, sid: string, roomId: JsValue): (r: Step)
    requires sid in st.conns
    ensures !Truthy(roomId) ==> r == Step(st, [])
    ensures Truthy(roomId) && RoomByValue(st, roomId).None? ==>
      r.out == [] && r.state.rooms == st.rooms && r.state.presence == st.presence
    ensures Truthy(roomId) && !roomId.Str? ==> r == Step(st, [])
    ensures roomId.Str? && Truthy(roomId) ==> sid !in Subscribers(r.state.conns, roomId.s)
    ensures roomId.Str? && Truthy(roomId) ==> r.state.conns == Unsubscribe(st, sid, roomId.s).conns
    ensures Truthy(roomId) && RoomByValue(st, roomId).Some? ==>
      var user := st.conns[sid].user;
      var (rooms1, result) := LeaveRoom(st.rooms, roomId.s, user.userId);
      && r.state.rooms == rooms1
      && r.state.presence == st.presence
      && (result.Deleted? ==> r.out == [Delivery(Everyone(st), RoomDeleted(roomId.s))])
      && (result.Left? ==> r.out == [
            Delivery(Subscribers(st.conns, roomId.s) - {sid}, SystemMessage(LeftNotice(user.displayName))),
            Delivery(Everyone(st), RoomUpdated(SerializeRoom(result.room)))])
  {
    if !Truthy(roomId) then Step(st, [])
    else if !roomId.Str? then Step(st, [])
    else
      var user := st.conns[sid].user;
      var st1 := Unsubscribe(st, sid, roomId.s);
      var (rooms1, result) := LeaveRoom(st.rooms, roomId.s, user.userId);
      var st2 := st1.(rooms := rooms1);
      match result
      case NotFound => Step(st2, [])
      case Deleted(_) => Step(st2, [Delivery(Everyone(st2), RoomDeleted(roomId.s))])
      case Left(room) =>
        assert Subscribers(st2.conns, roomId.s) - {sid} == Subscribers(st.conns, roomId.s) - {sid};
        assert Everyone(st2) == Everyone(st);
        Step(st2, [
          Delivery(Subscribers(st2.conns, roomId.s) - {sid}, SystemMessage(LeftNotice(user.displayName))),
          Delivery(Everyone(st2), RoomUpdated(SerializeRoom(room)))])
  }

  /** The checks of `room:invite` that silently drop the event. */
  predicate InviteApplies(st: State, roomId: JsValue, targetId: JsValue)
  {
    && Truthy(roomId) && Truthy(targetId)
    && UserByValue(st, targetId).Some?
    && GetSocketId(st.presence, targetId.s).Some?
    && RoomByValue(st, roomId).Some?
  }

  /** `room:invite {roomId, userId}` */
  function OnRoomInvite(st: State, sid: string, roomId: JsValue, targetId: JsValue): (r: Step)
    requires sid in st.conns
    ensures !InviteApplies(st, roomId, targetId) ==> r == Step(st, [])
    ensures InviteApplies(st, roomId, targetId) ==>
      var target := UserByValue(st, targetId).value;
      var targetSid := GetSocketId(st.presence, targetId.s).value;
      && r.state.rooms == JoinRoom(st.rooms, roomId.s, MemberOfPresence(target, targetSid)).0
      && Subscribers(r.state.conns, roomId.s) == Subscribers(st.conns, roomId.s) + Subscribers(st.conns, targetSid)
      && r.state.conns == SubscribeAll(st, targetSid, roomId.s).conns
      && r.state.presence == st.presence
      && |r.out| == 4
      && r.out[0].to == r.out[1].to == Subscribers(st.conns, targetSid)
      && r.out[0].event == RoomJoined(SerializeRoom(r.state.rooms.rooms.entries[roomId.s]))
      && r.out[1].event == SystemMessage(InvitedByNotice(st.conns[sid].user.displayName))
      && r.out[2] == Delivery(Subscribers(r.state.conns, roomId.s), SystemMessage(InvitedNotice(target.displayName)))
      && r.out[3] == Delivery(Everyone(st), RoomUpdated(SerializeRoom(r.state.rooms.rooms.entries[roomId.s])))
  {
    if !InviteApplies(st, roomId, targetId) then Step(st, [])
    else
      var user := st.conns[sid].user;
      var target := UserByValue(st, targetId).value;
      var targetSid := GetSocketId(st.presence, targetId.s).value;
      var rooms1 := JoinRoom(st.rooms, roomId.s, MemberOfPresence(target, targetSid)).0;
      var st1 := SubscribeAll(st.(rooms := rooms1), targetSid, roomId.s);
      var view := SerializeRoom(rooms1.rooms.entries[roomId.s]);
      Step(st1, [
        Delivery(Subscribers(st1.conns, targetSid), RoomJoined(view)),
        Delivery(Subscribers(st1.conns, targetSid), SystemMessage(InvitedByNotice(user.displayName))),
        Delivery(Subscribers(st1.conns, roomId.s), SystemMessage(InvitedNotice(target.displayName))),
        Delivery(Everyone(st1), RoomUpdated(view))])
  }

  // ---------------------------------------------------------------------------
  // Messages and typing

  /** `message:send {roomId, text}` with `msgId` and `now` standing for the id built from
      `Date.now()` and `Math.random()` and for the timestamp. */
  function OnMessageSend(st: State, sid: string, roomId: JsValue, text: JsValue, msgId: string, now: int): (r: Step)
    requires sid in st.conns
    ensures r.state == st
    ensures !Truthy(roomId) || NonEmptyText(text).None? ==> r.out == []
    ensures Truthy(roomId) && NonEmptyText(text).Some?
            && (RoomByValue(st, roomId).None? || !IsMember(RoomByValue(st, roomId).value, st.conns[sid].user.userId)) ==>
      r.out == [Delivery({sid}, SystemMessage(NotMemberMessage))]
    ensures Truthy(roomId) && NonEmptyText(text).Some?
            && RoomByValue(st, roomId).Some? && IsMember(RoomByValue(st, roomId).value, st.conns[sid].user.userId) ==>
      var user := st.conns[sid].user;
      && |r.out| == 1
      && r.out[0].to == Subscribers(st.conns, roomId.s)
      && r.out[0].event.MessageReceive?
      && var msg := r.out[0].event.message;
      && msg.id == msgId && msg.roomId == roomId.s && msg.timestamp == now
      && msg.userId == user.userId && msg.displayName == user.displayName && msg.avatarUrl == user.avatarUrl
      && msg.text <= text.s
      && |msg.text| == if |text.s| <= MessageLimit then |text.s| else MessageLimit
  {
    if !Truthy(roomId) || NonEmptyText(text).None? then Step(st, [])
    else
      var user := st.conns[sid].user;
      match RoomByValue(st, roomId)
      case None => Step(st, [Delivery({sid}, SystemMessage(NotMemberMessage))])
      case Some(room) =>
        if !IsMember(room, user.userId) then Step(st, [Delivery({sid}, SystemMessage(NotMemberMessage))])
        else
          var message := Message(msgId, roomId.s, user.userId, user.displayName, user.avatarUrl, Prefix(text.s, MessageLimit), now);
          Step(st, [Delivery(Subscribers(st.conns, roomId.s), MessageReceive(message))])
  }

  /** `typing:start {roomId}`: relayed to the room's other subscribers, no state change. */
  function OnTypingStart(st: State, sid: string, roomId: JsValue): (r: Step)
    requires sid in st.conns
    ensures r.state == st
    ensures !Truthy(roomId) ==> r.out == []
    ensures Truthy(roomId) ==> r.out == [Delivery(OthersIn(st, roomId, sid),
      TypingShow(st.conns[sid].user.userId, st.conns[sid].user.displayName, roomId))]
    ensures forall i :: 0 <= i < |r.out| ==> sid !in r.out[i].to
  {
    if !Truthy(roomId) then Step(st, [])
    else
      var user := st.conns[sid].user;
      Step(st, [Delivery(OthersIn(st, roomId, sid), TypingShow(user.userId, user.displayName, roomId))])
  }

  /** `typing:stop {roomId}` */
  function OnTypingStop(st: State, sid: string, roomId: JsValue): (r: Step)
    requires sid in st.conns
    ensures r.state == st
    ensures !Truthy(roomId) ==> r.out == []
    ensures Truthy(roomId) ==> r.out == [Delivery(OthersIn(st, roomId, sid), TypingHide(st.conns[sid].user.userId, roomId))]
    ensures forall i :: 0 <= i < |r.out| ==> sid !in r.out[i].to
  {
    if !Truthy(roomId) then Step(st, [])
    else Step(st, [Delivery(OthersIn(st, roomId, sid), TypingHide(st.conns[sid].user.userId, roomId))])
  }

  // ---------------------------------------------------------------------------
  // Settings and teardown

  /** `user:change-name {displayName}` */
  function OnChangeName(st: State, sid: string, displayName: JsValue): (r: Step)
    requires sid in st.conns
    ensures NonEmptyText(displayName).None? ==> r == Step(st, [])
    ensures NonEmptyText(displayName).Some? ==>
      var user := st.conns[sid].user;
      var name := Str(Sanitize(displayName.s, DisplayNameLimit));
      && r.state.conns == st.conns[sid := st.conns[sid].(user := user.(displayName := name))]
      && r.state.presence == UpdateDisplayName(st.presence, user.userId, name)
      && r.state.rooms == st.rooms
      && r.out == [Delivery(Everyone(st), UsersList(GetOnlineUserList(r.state.presence)))]
  {
    match NonEmptyText(displayName)
    case None => Step(st, [])
    case Some(text) =>
      var user := st.conns[sid].user;
      var name := Str(Sanitize(text, DisplayNameLimit));
      var conn := st.conns[sid];
      var presence := UpdateDisplayName(st.presence, user.userId, name);
      var st1 := State(st.rooms, presence, st.conns[sid := conn.(user := user.(displayName := name))]);
      assert Everyone(st1) == Everyone(st);
      Step(st1, [Delivery(Everyone(st1), UsersList(GetOnlineUserList(presence)))])
  }

  /** The notices of the `disconnect` handler for one affected room: a room that is gone
      gets a global `room:deleted`, one that survives gets the notice to its channel and
      a global `room:updated` with its view. */
  function RoomNotices(st: State, id: string, name: JsValue): (r: seq<Delivery>)
    ensures 1 <= |r| <= 2
    ensures forall i :: 0 <= i < |r| ==> r[i].event.SystemMessage? || r[i].event.RoomUpdated? || r[i].event.RoomDeleted?
  {
    match GetRoom(st.rooms, id)
    case Some(room) => [
      Delivery(Subscribers(st.conns, id), SystemMessage(LeftNotice(name))),
      Delivery(Everyone(st), RoomUpdated(SerializeRoom(room)))]
    case None => [Delivery(Everyone(st), RoomDeleted(id))]
  }

  /** The per-room notices of the `disconnect` handler, room after room in the order of
      `affected`. */
  function DepartureNotices(st: State, affected: seq<string>, name: JsValue): (r: seq<Delivery>)
    ensures forall i :: 0 <= i < |r| ==> r[i].event.SystemMessage? || r[i].event.RoomUpdated? || r[i].event.RoomDeleted?
    ensures |affected| <= |r| <= 2 * |affected|
    decreases |affected|
  {
    if |affected| == 0 then []
    else RoomNotices(st, affected[0], name) + DepartureNotices(st, affected[1..], name)
  }

  /** The notices for one room: the departure notice and a `room:updated` when the room
      survives, a `room:deleted` alone when it is gone. */
  lemma DepartureNoticesOne(st: State, id: string, name: JsValue)
    ensures DepartureNotices(st, [id], name) ==
      if id in st.rooms.rooms.entries then [
        Delivery(Subscribers(st.conns, id), SystemMessage(LeftNotice(name))),
        Delivery(Everyone(st), RoomUpdated(SerializeRoom(st.rooms.rooms.entries[id])))]
      else [Delivery(Everyone(st), RoomDeleted(id))]
  {
    assert [id][0] == id && [id][1..] == [];
    assert DepartureNotices(st, [id], name) == RoomNotices(st, id, name) + [];
  }

  /** The notices of a concatenation of rooms are those of each part, in order, so the
      rooms are reported one after another in the order `affected` lists them. */
  lemma {:induction false} DepartureNoticesAppend(st: State, a: seq<string>, b: seq<string>, name: JsValue)
    ensures DepartureNotices(st, a + b, name) == DepartureNotices(st, a, name) + DepartureNotices(st, b, name)
    decreases |a|
  {
    if |a| > 0 {
      assert (a + b)[0] == a[0] && (a + b)[1..] == a[1..] + b;
      DepartureNoticesAppend(st, a[1..], b, name);
      ConcatAssoc(RoomNotices(st, a[0], name), DepartureNotices(st, a[1..], name), DepartureNotices(st, b, name));
    } else {
      assert a + b == b;
    }
  }

  /** Concatenation is associative; stated for any element type so that proofs about
      delivery lists need not compare deliveries. */
  lemma ConcatAssoc<T>(x: seq<T>, y: seq<T>, z: seq<T>)
    ensures x + (y + z) == (x + y) + z
  {
  }

  /** The `disconnect` handler. socket.io has already taken the socket out of every
      channel and out of the namespace when it runs. */
  function OnDisconnect(st: State, sid: string): (r: Step)
    requires sid in st.conns
    ensures sid !in r.state.conns && r.state.conns == st.conns - {sid}
    ensures r.state.presence == UserDisconnected(st.presence, sid).0
    ensures r.state.rooms == RemoveUserFromAllRooms(st.rooms, st.conns[sid].user.userId).0
    ensures forall k :: k in r.state.rooms.rooms.entries ==> !IsMember(r.state.rooms.rooms.entries[k], st.conns[sid].user.userId)
    ensures var affected := RemoveUserFromAllRooms(st.rooms, st.conns[sid].user.userId).1;
      && |r.out| >= 2
      && r.out[..|r.out| - 2] == DepartureNotices(r.state, affected, st.conns[sid].user.displayName)
      && r.out[|r.out| - 2] == Delivery(Everyone(r.state), UsersList(GetOnlineUserList(r.state.presence)))
      && r.out[|r.out| - 1] == Delivery(Everyone(r.state), UserLeft(st.conns[sid].user.userId))
  {
    var user := st.conns[sid].user;
    var presence := UserDisconnected(st.presence, sid).0;
    var (rooms1, affected) := RemoveUserFromAllRooms(st.rooms, user.userId);
    var st1 := State(rooms1, presence, st.conns - {sid});
    var notices := DepartureNotices(st1, affected, user.displayName);
    Step(st1, notices + [
      Delivery(Everyone(st1), UsersList(GetOnlineUserList(presence))),
      Delivery(Everyone(st1) - {sid}, UserLeft(user.userId))])
  }
}
