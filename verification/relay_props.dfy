/** Properties of the relay as a whole: the state invariant every handler keeps, and
    the consequences of the handlers ignoring `joinRoom`'s result and of the
    presence registry's stale reverse entries. */
module RelayProperties {
  import opened JsValues
  import opened JsMaps
  import opened Auth
  import opened Presence
  import opened Rooms
  import opened Relay

  /** What holds between any two events: a well-formed room directory (ids match keys,
      members keyed by userId, sizes within capacity, one dm room per pair) that still
      has the lobby, a consistent presence registry, and every live socket known to the
      reverse map as belonging to its own user. */
  ghost predicate Inv(st: State)
  {
    && Rooms.Valid(st.rooms)
    && Lobby in st.rooms.rooms.entries
    && Presence.Valid(st.presence)
    && (forall s :: s in st.conns ==>
          s in st.presence.socketToUser.entries && st.presence.socketToUser.entries[s] == st.conns[s].user.userId)
  }

  lemma BootEstablishesInv(parsedMax: Option<int>, lobbyName: Option<string>, now: int)
    ensures Inv(Boot(parsedMax, lobbyName, now))
  {
    Rooms.InitValid(parsedMax);
    CreateDefaultRoomPreservesValid(Rooms.Init(parsedMax), lobbyName, now);
    Presence.InitValid();
  }

  /** socket.io never reuses a socket id, so a new socket is unknown to the registry. */
  lemma ConnectionPreservesInv(st: State, sid: string, user: Identity, now: int)
    requires Inv(st)
    requires sid !in st.conns && sid !in st.presence.socketToUser.entries
    ensures Inv(OnConnection(st, sid, user, now).state)
  {
    ConnectPreservesValid(st.presence, sid, user, now);
    var st1 := OnConnection(st, sid, user, now).state;
    assert st1.presence.socketToUser.entries == st.presence.socketToUser.entries[sid := user.userId];
    assert st1.conns == st.conns[sid := Conn(user, {sid})];
  }

  lemma RoomCreatePreservesInv(st: State, sid: string, name: JsValue, kind: JsValue, uuid: string, now: int)
    requires Inv(st) && sid in st.conns
    ensures Inv(OnRoomCreate(st, sid, name, kind, uuid, now).state)
  {
    if NonEmptyText(name).Some? {
      var user := st.conns[sid].user;
      var (rooms1, room) := CreateRoom(st.rooms, Sanitize(name.s, RoomNameLimit), kind, user.userId, uuid, now);
      CreateRoomPreservesValid(st.rooms, Sanitize(name.s, RoomNameLimit), kind, user.userId, uuid, now);
      JoinRoomPreservesValid(rooms1, room.id, MemberOf(user, sid));
      assert GetRoom(rooms1, Lobby) == GetRoom(st.rooms, Lobby);
    }
  }

  lemma RoomCreateDmPreservesInv(st: State, sid: string, targetUserId: JsValue, uuid: string, now: int)
    requires Inv(st) && sid in st.conns
    ensures Inv(OnRoomCreateDm(st, sid, targetUserId, uuid, now).state)
  {
    if Truthy(targetUserId) && UserByValue(st, targetUserId).Some? {
      var user := st.conns[sid].user;
      var target := UserByValue(st, targetUserId).value;
      var targetId := targetUserId.s;
      var (rooms1, room) := FindOrCreateDM(st.rooms, user.userId, user.displayName, targetId, target.displayName, uuid, now);
      FindOrCreateDMPreservesValid(st.rooms, user.userId, user.displayName, targetId, target.displayName, uuid, now);
      assert Lobby in rooms1.rooms.entries by {
        if FindDm(st.rooms, user.userId, targetId).None? {
          assert GetRoom(rooms1, Lobby) == GetRoom(st.rooms, Lobby);
        }
      }
      var rooms2 := JoinRoom(rooms1, room.id, MemberOf(user, sid)).0;
      JoinRoomPreservesValid(rooms1, room.id, MemberOf(user, sid));
      match GetSocketId(st.presence, targetId)
      case None =>
      case Some(targetSid) =>
        JoinRoomPreservesValid(rooms2, room.id, MemberOfPresence(target, targetSid));
    }
  }

  lemma RoomJoinPreservesInv(st: State, sid: string, roomId: JsValue)
    requires Inv(st) && sid in st.conns
    ensures Inv(OnRoomJoin(st, sid, roomId).state)
  {
    if roomId.Str? {
      JoinRoomPreservesValid(st.rooms, roomId.s, MemberOf(st.conns[sid].user, sid));
    }
  }

  lemma RoomLeavePreservesInv(st: State, sid: string, roomId: JsValue)
    requires Inv(st) && sid in st.conns
    ensures Inv(OnRoomLeave(st, sid, roomId).state)
  {
    if roomId.Str? {
      LeaveRoomPreservesValid(st.rooms, roomId.s, st.conns[sid].user.userId);
      LobbyNeverDeleted(st.rooms, roomId.s, st.conns[sid].user.userId);
    }
  }

  lemma RoomInvitePreservesInv(st: State, sid: string, roomId: JsValue, targetId: JsValue)
    requires Inv(st) && sid in st.conns
    ensures Inv(OnRoomInvite(st, sid, roomId, targetId).state)
  {
    if InviteApplies(st, roomId, targetId) {
      var target := UserByValue(st, targetId).value;
      var targetSid := GetSocketId(st.presence, targetId.s).value;
      JoinRoomPreservesValid(st.rooms, roomId.s, MemberOfPresence(target, targetSid));
    }
  }

  lemma ChangeNamePreservesInv(st: State, sid: string, displayName: JsValue)
    requires Inv(st) && sid in st.conns
    ensures Inv(OnChangeName(st, sid, displayName).state)
  {
    if NonEmptyText(displayName).Some? {
      RenamePreservesValid(st.presence, st.conns[sid].user.userId, Str(Sanitize(displayName.s, DisplayNameLimit)));
    }
  }

  lemma DisconnectPreservesInv(st: State, sid: string)
    requires Inv(st) && sid in st.conns
    ensures Inv(OnDisconnect(st, sid).state)
  {
    var user := st.conns[sid].user;
    Presence.DisconnectPreservesValid(st.presence, sid);
    RemoveUserPreservesValid(st.rooms, user.userId);
    LobbyNeverDeleted(st.rooms, Lobby, user.userId);
  }

  /** No event ever removes the lobby: it is in the directory at start-up, and every
      handler keeps it. */
  lemma LobbyAlwaysPresent(st: State, sid: string, roomId: JsValue)
    requires Inv(st) && sid in st.conns
    ensures GetRoom(OnRoomLeave(st, sid, roomId).state.rooms, Lobby).Some?
    ensures GetRoom(OnDisconnect(st, sid).state.rooms, Lobby).Some?
  {
    RoomLeavePreservesInv(st, sid, roomId);
    DisconnectPreservesInv(st, sid);
  }

  /** `room:invite` does not check `joinRoom`'s result: inviting a non-member into a
      full room leaves the membership as it was but still subscribes the invitee's
      socket to the room's channel, so it receives the room's messages. */
  lemma InviteToFullRoomSubscribesNonMember(st: State, sid: string, roomId: string, targetId: string)
    requires sid in st.conns
    requires InviteApplies(st, Str(roomId), Str(targetId))
    requires Size(st.rooms.rooms.entries[roomId].users) >= st.rooms.maxRoomUsers
    requires !IsMember(st.rooms.rooms.entries[roomId], targetId)
    requires var t := GetSocketId(st.presence, targetId).value; t in st.conns && t in st.conns[t].channels
    ensures var after := OnRoomInvite(st, sid, Str(roomId), Str(targetId)).state;
      && after.rooms == st.rooms
      && !IsMember(after.rooms.rooms.entries[roomId], targetId)
      && GetSocketId(st.presence, targetId).value in Subscribers(after.conns, roomId)
  {
    var target := UserByValue(st, Str(targetId)).value;
    var t := GetSocketId(st.presence, targetId).value;
    FullRoomRejectsJoin(st.rooms, roomId, MemberOfPresence(target, t));
    assert t in Subscribers(st.conns, t);
  }

  /** `room:create-dm` does not check `joinRoom`'s result either. With a capacity of one
      the new dm room holds only its creator, yet the target's socket is subscribed. */
  lemma CreateDmAtCapacityOneSubscribesNonMember(st: State, sid: string, targetId: string, uuid: string, now: int)
    requires sid in st.conns
    requires targetId != "" && targetId != st.conns[sid].user.userId
    requires st.rooms.maxRoomUsers == 1
    requires FindDm(st.rooms, st.conns[sid].user.userId, targetId).None?
    requires GetSocketId(st.presence, targetId).Some?
    requires var t := GetSocketId(st.presence, targetId).value; t in st.conns && t in st.conns[t].channels
    ensures var after := OnRoomCreateDm(st, sid, Str(targetId), uuid, now).state;
      var id := DmIdFor(uuid);
      && id in after.rooms.rooms.entries
      && IsMember(after.rooms.rooms.entries[id], st.conns[sid].user.userId)
      && !IsMember(after.rooms.rooms.entries[id], targetId)
      && GetSocketId(st.presence, targetId).value in Subscribers(after.conns, id)
  {
    var user := st.conns[sid].user;
    var t := GetSocketId(st.presence, targetId).value;
    assert UserByValue(st, Str(targetId)).Some?;
    var target := UserByValue(st, Str(targetId)).value;
    var rooms1 := FindOrCreateDM(st.rooms, user.userId, user.displayName, targetId, target.displayName, uuid, now).0;
    var id := DmIdFor(uuid);
    var rooms2 := JoinRoom(rooms1, id, MemberOf(user, sid)).0;
    var after := OnRoomCreateDm(st, sid, Str(targetId), uuid, now).state;
    assert after.rooms == JoinRoom(rooms2, id, MemberOfPresence(target, t)).0;
    assert Subscribers(st.conns, t) <= Subscribers(after.conns, id);
    SecondJoinAtCapacityOne(rooms1, id, MemberOf(user, sid), MemberOfPresence(target, t), targetId);
    assert t in Subscribers(st.conns, t);
  }

  /** In an empty room of capacity one, a first join succeeds and a second is refused,
      so the room holds its first member and nobody else. */
  lemma SecondJoinAtCapacityOne(m: RoomManager, id: string, first: Member, second: Member, other: string)
    requires m.maxRoomUsers == 1 && id in m.rooms.entries && Size(m.rooms.entries[id].users) == 0
    requires other != first.userId
    ensures var m2 := JoinRoom(JoinRoom(m, id, first).0, id, second).0;
      && id in m2.rooms.entries
      && IsMember(m2.rooms.entries[id], first.userId)
      && !IsMember(m2.rooms.entries[id], other)
  {
    var m1 := JoinRoom(m, id, first).0;
    assert Size(m1.rooms.entries[id].users) == 1;
    FullRoomRejectsJoin(m1, id, second);
  }

  /** While the relay's invariant holds, a disconnect always takes the socket's user
      offline (for a non-empty userId), even when the same user is still connected on a
      newer socket: the older socket's reverse entry still names the user. */
  lemma DisconnectTakesUserOffline(st: State, sid: string)
    requires Inv(st) && sid in st.conns
    requires st.conns[sid].user.userId != ""
    ensures !IsOnline(OnDisconnect(st, sid).state.presence, st.conns[sid].user.userId)
  {
  }

  /** A user connected on two sockets goes offline when the older one disconnects,
      although the newer socket is still live. */
  lemma StaleDisconnectEvictsLiveUser(st: State, s1: string, s2: string, user: Identity, t1: int, t2: int)
    requires Inv(st)
    requires s1 != s2 && user.userId != ""
    requires s1 !in st.conns && s1 !in st.presence.socketToUser.entries
    requires s2 !in st.conns && s2 !in st.presence.socketToUser.entries
    ensures var st1 := OnConnection(st, s1, user, t1).state;
      var st2 := OnConnection(st1, s2, user, t2).state;
      var st3 := OnDisconnect(st2, s1).state;
      && s2 in st3.conns
      && !IsOnline(st3.presence, user.userId)
  {
    var st1 := OnConnection(st, s1, user, t1).state;
    var st2 := OnConnection(st1, s2, user, t2).state;
    assert st2.presence == UserConnected(UserConnected(st.presence, s1, user, t1).0, s2, user, t2).0;
    StaleSocketDisconnectEvictsNewer(st.presence, s1, s2, user, t1, t2);
  }

  /** Some delivery in `ds` is a `room:updated` for room `id`. */
  ghost predicate ReportsUpdate(ds: seq<Delivery>, id: string)
  {
    exists i :: 0 <= i < |ds| && ds[i].event.RoomUpdated? && ds[i].event.room.id == id
  }

  /** On disconnect, every room the user was in is reported exactly one way: a global
      `room:deleted` if the room is gone, a `room:updated` for it if it survives. */
  lemma DisconnectReportsEachRoomOnce(st: State, sid: string)
    requires Inv(st) && sid in st.conns
    ensures var r := OnDisconnect(st, sid);
      var affected := RemoveUserFromAllRooms(st.rooms, st.conns[sid].user.userId).1;
      var notices := r.out[..|r.out| - 2];
      forall id :: id in affected ==>
        && (Delivery(Everyone(r.state), RoomDeleted(id)) in notices <==> id !in r.state.rooms.rooms.entries)
        && (ReportsUpdate(notices, id) <==> id in r.state.rooms.rooms.entries)
  {
    var user := st.conns[sid].user;
    var r := OnDisconnect(st, sid);
    var affected := RemoveUserFromAllRooms(st.rooms, user.userId).1;
    RemoveUserPreservesValid(st.rooms, user.userId);
    assert forall k :: k in r.state.rooms.rooms.entries ==> RoomOk(r.state.rooms, k);
    forall id | id in affected
      ensures Delivery(Everyone(r.state), RoomDeleted(id)) in r.out[..|r.out| - 2] <==> id !in r.state.rooms.rooms.entries
      ensures ReportsUpdate(r.out[..|r.out| - 2], id) <==> id in r.state.rooms.rooms.entries
    {
      NoticesReportEachRoom(r.state, affected, user.displayName, id);
    }
  }

  /** The per-room notices for a directory whose rooms carry their own keys as ids. */
  lemma NoticesReportEachRoom(st: State, affected: seq<string>, name: JsValue, id: string)
    requires forall k :: k in st.rooms.rooms.entries ==> st.rooms.rooms.entries[k].id == k
    requires id in affected
    ensures var notices := DepartureNotices(st, affected, name);
      && (Delivery(Everyone(st), RoomDeleted(id)) in notices <==> id !in st.rooms.rooms.entries)
      && (ReportsUpdate(notices, id) <==> id in st.rooms.rooms.entries)
  {
    var after := st.rooms.rooms.entries;
    var notices := DepartureNotices(st, affected, name);
    NoticesDeleteExactlyGoneRooms(st, affected, name, id);
    if id in after {
      NoticesUpdateLiveRooms(st, affected, name, id);
      var i :| 0 <= i < |notices| && notices[i] == Delivery(Everyone(st), RoomUpdated(SerializeRoom(after[id])));
      assert notices[i].event.room.id == id;
    }
    if ReportsUpdate(notices, id) {
      var i :| 0 <= i < |notices| && notices[i].event.RoomUpdated? && notices[i].event.room.id == id;
      NoticeUpdateIsForLiveRoom(st, affected, name, i);
      var k :| k in affected && k in after && notices[i].event.room == SerializeRoom(after[k]);
      assert after[k].id == k;
    }
  }

  /** The per-room notices carry a `room:deleted` for a room exactly when it is listed
      and gone. */
  lemma {:induction false} NoticesDeleteExactlyGoneRooms(st: State, affected: seq<string>, name: JsValue, id: string)
    ensures Delivery(Everyone(st), RoomDeleted(id)) in DepartureNotices(st, affected, name)
            <==> id in affected && id !in st.rooms.rooms.entries
    decreases |affected|
  {
    if |affected| > 0 {
      NoticesDeleteExactlyGoneRooms(st, affected[1..], name, id);
      assert affected == [affected[0]] + affected[1..];
    }
  }

  /** Every listed room that survives gets the departure notice on its channel and a
      `room:updated` with its current view. */
  lemma {:induction false} NoticesUpdateLiveRooms(st: State, affected: seq<string>, name: JsValue, id: string)
    requires id in affected && id in st.rooms.rooms.entries
    ensures Delivery(Subscribers(st.conns, id), SystemMessage(LeftNotice(name))) in DepartureNotices(st, affected, name)
    ensures Delivery(Everyone(st), RoomUpdated(SerializeRoom(st.rooms.rooms.entries[id]))) in DepartureNotices(st, affected, name)
    decreases |affected|
  {
    if affected[0] != id {
      NoticesUpdateLiveRooms(st, affected[1..], name, id);
    }
  }

  /** Every `room:updated` among the per-room notices shows a listed room that survives. */
  lemma {:induction false} NoticeUpdateIsForLiveRoom(st: State, affected: seq<string>, name: JsValue, i: nat)
    requires i < |DepartureNotices(st, affected, name)| && DepartureNotices(st, affected, name)[i].event.RoomUpdated?
    ensures var view := DepartureNotices(st, affected, name)[i].event.room;
      exists k :: k in affected && k in st.rooms.rooms.entries && view == SerializeRoom(st.rooms.rooms.entries[k])
    decreases |affected|
  {
    var notices := DepartureNotices(st, affected, name);
    var rest := DepartureNotices(st, affected[1..], name);
    var here := notices[..|notices| - |rest|];
    assert notices == here + rest;
    if i < |here| {
      assert affected[0] in affected;
    } else {
      NoticeUpdateIsForLiveRoom(st, affected[1..], name, i - |here|);
      assert notices[i] == rest[i - |here|];
      var k :| k in affected[1..] && k in st.rooms.rooms.entries && rest[i - |here|].event.room == SerializeRoom(st.rooms.rooms.entries[k]);
      assert k in affected;
    }
  }

  /** A message reaches exactly the sockets subscribed to the room's channel, the
      sender's own socket included, and changes nothing. A socket that is not subscribed
      never receives it, whatever its membership. */
  lemma MessageReachesOnlySubscribers(st: State, sid: string, roomId: JsValue, text: JsValue, msgId: string, now: int, other: string)
    requires sid in st.conns
    requires other in st.conns && roomId.Str? && roomId.s !in st.conns[other].channels
    ensures var r := OnMessageSend(st, sid, roomId, text, msgId, now);
      r.state == st && forall i :: 0 <= i < |r.out| && r.out[i].event.MessageReceive? ==> other !in r.out[i].to
  {
  }
}
