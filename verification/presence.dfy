/** The online-user registry (node-server/presenceManager.js): a forward map from
    userId to presence record and a reverse map from socket id to userId. */
module Presence {
  import opened JsValues
  import opened JsMaps
  import opened Auth

  /** One online user, as stored in `onlineUsers`. */
  datatype UserPresence = UserPresence(
    userId: string,
    displayName: JsValue,
    avatarUrl: JsValue,
    isGuest: bool,
    socketId: string,
    connectedAt: int)

  /** The public part of a presence record, as sent in `users:list`. */
  datatype PublicUser = PublicUser(userId: string, displayName: JsValue, avatarUrl: JsValue, isGuest: bool)

  datatype PresenceManager = PresenceManager(onlineUsers: JsMap<UserPresence>, socketToUser: JsMap<string>)

  /** `new PresenceManager()` */
  function Init(): (p: PresenceManager)
    ensures GetOnlineCount(p) == 0
    ensures p.socketToUser.entries == map[]
  {
    PresenceManager(Empty(), Empty())
  }

  /** `getUser(userId)` */
  function GetUser(p: PresenceManager, userId: string): (r: Option<UserPresence>)
    ensures r.Some? <==> userId in p.onlineUsers.entries
    ensures r.Some? ==> r.value == p.onlineUsers.entries[userId]
  {
    Get(p.onlineUsers, userId)
  }

  /** `isOnline(userId)`: the user has a record, so it occupies a place in the
      connection order. */
  predicate IsOnline(p: PresenceManager, userId: string)
    ensures IsOnline(p, userId) <==> GetUser(p, userId).Some?
    ensures IsOnline(p, userId) <==> userId in p.onlineUsers.keys
  {
    Has(p.onlineUsers, userId)
  }

  /** `getSocketId(userId)`: the `|| null` also turns an empty socket id into `null`. */
  function GetSocketId(p: PresenceManager, userId: string): (r: Option<string>)
    ensures r.Some? <==> IsOnline(p, userId) && p.onlineUsers.entries[userId].socketId != ""
    ensures r.Some? ==> r.value == p.onlineUsers.entries[userId].socketId
  {
    if userId in p.onlineUsers.entries && p.onlineUsers.entries[userId].socketId != "" then
      Some(p.onlineUsers.entries[userId].socketId)
    else None
  }

  /** `getOnlineCount()` */
  function GetOnlineCount(p: PresenceManager): (n: nat)
    ensures n == |p.onlineUsers.entries|
  {
    SizeIsKeyCount(p.onlineUsers);
    Size(p.onlineUsers)
  }

  /** The forward map is keyed by the records' own userIds, and every online user's
      socket id leads back to that user through the reverse map. The converse does not
      hold: the reverse map may keep entries for sockets that were superseded. */
  ghost predicate Valid(p: PresenceManager)
  {
    && (forall u :: u in p.onlineUsers.entries ==> p.onlineUsers.entries[u].userId == u)
    && (forall u :: u in p.onlineUsers.entries ==>
          p.onlineUsers.entries[u].socketId in p.socketToUser.entries
          && p.socketToUser.entries[p.onlineUsers.entries[u].socketId] == u)
  }

  /** `userConnected(socketId, user)` at time `now`: creates or overwrites the user's
      record and maps the socket to the user. */
  function UserConnected(p: PresenceManager, socketId: string, user: Identity, now: int): (r: (PresenceManager, UserPresence))
    ensures r.1.userId == user.userId && r.1.socketId == socketId && r.1.connectedAt == now
    ensures r.1.displayName == user.displayName && r.1.avatarUrl == user.avatarUrl && r.1.isGuest == user.isGuest
    ensures GetUser(r.0, user.userId) == Some(r.1)
    ensures IsOnline(r.0, user.userId)
    ensures socketId != "" ==> GetSocketId(r.0, user.userId) == Some(socketId)
    ensures forall u :: u != user.userId ==> GetUser(r.0, u) == GetUser(p, u)
    ensures r.0.socketToUser.entries == p.socketToUser.entries[socketId := user.userId]
    ensures r.0.onlineUsers.keys ==
      if user.userId in p.onlineUsers.entries then p.onlineUsers.keys else p.onlineUsers.keys + [user.userId]
    ensures GetOnlineCount(r.0) == if IsOnline(p, user.userId) then GetOnlineCount(p) else GetOnlineCount(p) + 1
  {
    var presence := UserPresence(user.userId, user.displayName, user.avatarUrl, user.isGuest, socketId, now);
    (PresenceManager(Set(p.onlineUsers, user.userId, presence), Set(p.socketToUser, socketId, user.userId)), presence)
  }

  /** `userDisconnected(socketId)`: `None` (and no change) unless the socket maps to a
      truthy userId; otherwise that user's record and the socket's entry are removed. */
  function UserDisconnected(p: PresenceManager, socketId: string): (r: (PresenceManager, Option<string>))
    ensures r.1.None? <==> socketId !in p.socketToUser.entries || p.socketToUser.entries[socketId] == ""
    ensures r.1.None? ==> r.0 == p
    ensures r.1.Some? ==> r.1.value == p.socketToUser.entries[socketId]
    ensures r.1.Some? ==> !IsOnline(r.0, r.1.value) && socketId !in r.0.socketToUser.entries
    ensures r.1.Some? ==> forall u :: u != r.1.value ==> GetUser(r.0, u) == GetUser(p, u)
    ensures r.1.Some? ==> r.0.socketToUser.entries == p.socketToUser.entries - {socketId}
    ensures r.0.onlineUsers.keys == if r.1.Some? then Without(p.onlineUsers.keys, r.1.value) else p.onlineUsers.keys
    ensures r.1.Some? ==> GetOnlineCount(r.0) == if IsOnline(p, r.1.value) then GetOnlineCount(p) - 1 else GetOnlineCount(p)
  {
    match Get(p.socketToUser, socketId)
    case None => (p, None)
    case Some(userId) =>
      if userId == "" then (p, None)
      else (PresenceManager(Delete(p.onlineUsers, userId), Delete(p.socketToUser, socketId)), Some(userId))
  }

  /** `updateDisplayName(userId, newName)`: an offline user is ignored. */
  function UpdateDisplayName(p: PresenceManager, userId: string, newName: JsValue): (r: PresenceManager)
    ensures !IsOnline(p, userId) ==> r == p
    ensures IsOnline(p, userId) ==> GetUser(r, userId) == Some(p.onlineUsers.entries[userId].(displayName := newName))
    ensures forall u :: u != userId ==> GetUser(r, u) == GetUser(p, u)
    ensures r.onlineUsers.keys == p.onlineUsers.keys
    ensures r.socketToUser == p.socketToUser
  {
    match GetUser(p, userId)
    case None => p
    case Some(user) => p.(onlineUsers := Set(p.onlineUsers, userId, user.(displayName := newName)))
  }

  function ToPublic(u: UserPresence): PublicUser
  {
    PublicUser(u.userId, u.displayName, u.avatarUrl, u.isGuest)
  }

  /** `getOnlineUserList()`: the public fields of every online user, in connection order. */
  function GetOnlineUserList(p: PresenceManager): (r: seq<PublicUser>)
    ensures |r| == GetOnlineCount(p)
    ensures forall i :: 0 <= i < |r| ==> r[i] == ToPublic(p.onlineUsers.entries[p.onlineUsers.keys[i]])
  {
    var users := Values(p.onlineUsers);
    seq(|users|, i requires 0 <= i < |users| => ToPublic(users[i]))
  }

  /** The online list names each online user once and nobody else, and its length is
      the online count. */
  lemma OnlineListIsExact(p: PresenceManager)
    requires Valid(p)
    ensures |GetOnlineUserList(p)| == GetOnlineCount(p) == |p.onlineUsers.entries|
    ensures forall u :: IsOnline(p, u) <==> exists i :: 0 <= i < |GetOnlineUserList(p)| && GetOnlineUserList(p)[i].userId == u
    ensures forall i, j :: 0 <= i < j < |GetOnlineUserList(p)| ==> GetOnlineUserList(p)[i].userId != GetOnlineUserList(p)[j].userId
  {
    SizeIsKeyCount(p.onlineUsers);
    var list := GetOnlineUserList(p);
    var ks := p.onlineUsers.keys;
    forall u | IsOnline(p, u)
      ensures exists i :: 0 <= i < |list| && list[i].userId == u
    {
      var i :| 0 <= i < |ks| && ks[i] == u;
      assert list[i].userId == u;
    }
    forall i | 0 <= i < |list|
      ensures list[i].userId == ks[i]
    {
    }
  }

  /** In a consistent registry the record found for a user is that user's, and its
      socket leads back to the user through the reverse map. */
  lemma GetUserAgreesWithSocketMap(p: PresenceManager, userId: string)
    requires Valid(p)
    ensures GetUser(p, userId).Some? ==> GetUser(p, userId).value.userId == userId
    ensures GetUser(p, userId).Some? ==>
      var sid := GetUser(p, userId).value.socketId;
      sid in p.socketToUser.entries && p.socketToUser.entries[sid] == userId
  {
  }

  lemma InitValid()
    ensures Valid(Init())
  {
  }

  /** Connecting on a socket id never seen before keeps the registry consistent. */
  lemma ConnectPreservesValid(p: PresenceManager, socketId: string, user: Identity, now: int)
    requires Valid(p)
    requires socketId !in p.socketToUser.entries
    ensures Valid(UserConnected(p, socketId, user, now).0)
  {
    var q := UserConnected(p, socketId, user, now).0;
    forall u | u in q.onlineUsers.entries
      ensures q.socketToUser.entries[q.onlineUsers.entries[u].socketId] == u
    {
      if u != user.userId {
        assert GetUser(q, u) == GetUser(p, u);
        assert p.onlineUsers.entries[u].socketId != socketId;
      }
    }
  }

  lemma DisconnectPreservesValid(p: PresenceManager, socketId: string)
    requires Valid(p)
    ensures Valid(UserDisconnected(p, socketId).0)
  {
    var (q, gone) := UserDisconnected(p, socketId);
    if gone.Some? {
      forall u | u in q.onlineUsers.entries
        ensures q.onlineUsers.entries[u].socketId in q.socketToUser.entries
      {
        assert GetUser(q, u) == GetUser(p, u);
        assert p.socketToUser.entries[p.onlineUsers.entries[u].socketId] == u;
      }
    }
  }

  lemma RenamePreservesValid(p: PresenceManager, userId: string, newName: JsValue)
    requires Valid(p)
    ensures Valid(UpdateDisplayName(p, userId, newName))
  {
    var q := UpdateDisplayName(p, userId, newName);
    forall u | u in q.onlineUsers.entries
      ensures q.onlineUsers.entries[u].userId == u && q.onlineUsers.entries[u].socketId == p.onlineUsers.entries[u].socketId
    {
      assert GetUser(q, u).Some?;
    }
  }

  /** Disconnecting the same socket twice changes the registry once: the second call
      finds nothing and returns `None`. */
  lemma DisconnectTwiceIsNoop(p: PresenceManager, socketId: string)
    ensures var q := UserDisconnected(p, socketId).0;
      UserDisconnected(q, socketId) == (q, None)
  {
  }

  /** A second connection for an online user replaces the record (last connection
      wins) without changing the online count. The first socket's reverse entry is
      left in place. */
  lemma ReconnectReplacesEntry(p: PresenceManager, s1: string, s2: string, user: Identity, t1: int, t2: int)
    requires s1 != s2 && s2 != ""
    ensures var q1 := UserConnected(p, s1, user, t1).0;
      var q2 := UserConnected(q1, s2, user, t2).0;
      && GetOnlineCount(q2) == GetOnlineCount(q1)
      && GetSocketId(q2, user.userId) == Some(s2)
      && s1 in q2.socketToUser.entries && q2.socketToUser.entries[s1] == user.userId
  {
  }

  /** Because the superseded socket still maps to the user, its disconnect takes the
      user offline although the newer socket is live. */
  lemma StaleSocketDisconnectEvictsNewer(p: PresenceManager, s1: string, s2: string, user: Identity, t1: int, t2: int)
    requires s1 != s2 && user.userId != ""
    ensures var q1 := UserConnected(p, s1, user, t1).0;
      var q2 := UserConnected(q1, s2, user, t2).0;
      var (q3, gone) := UserDisconnected(q2, s1);
      gone == Some(user.userId) && !IsOnline(q3, user.userId) && s2 in q3.socketToUser.entries
  {
  }

  /** The `if (!userId)` guard also treats the empty userId as unknown: a user whose
      userId is `""` stays online after its only socket disconnects. */
  lemma EmptyUserIdStaysOnline(p: PresenceManager, socketId: string, user: Identity, now: int)
    requires user.userId == ""
    ensures var q := UserConnected(p, socketId, user, now).0;
      UserDisconnected(q, socketId) == (q, None) && IsOnline(q, "")
  {
  }
}
