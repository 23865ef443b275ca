/**
 * WebSocketEventListener: on a session connect or disconnect it resolves the
 * session principal to a username, ignores anonymous sessions, writes or
 * deletes the user's Redis online key and broadcasts the new status to the
 * presence topic of every room the user belongs to. Each handler returns the
 * new key store and the trace of its effects, in the order it performs them.
 */
module PresenceTracker {
  import opened Common
  import opened Rooms
  import opened Wire
  import opened ChatRoomService
  import opened MessageSecurity

  /** `SessionConnectedEvent.getUser()`: none, a username/password token, or some other Principal. */
  datatype SessionPrincipal =
    | NoPrincipal
    | PasswordToken(principal: PrincipalObject)
    | OtherPrincipal(name: Option<string>)

  /** What a handler does to the outside world, in order. */
  datatype Effect =
    | RedisSet(key: string, value: string)
    | RedisDelete(key: string)
    | FindUser(username: string)
    | FindRooms(userId: UserId)
    | Broadcast(message: Outbound)

  datatype PresenceStep = PresenceStep(keys: KeyStore, effects: seq<Effect>)

  /** extractUsername: the name a principal stands for, "anonymous" when it stands for none. */
  function ExtractUsername(p: SessionPrincipal): (r: Option<string>)
    ensures p.PasswordToken? && p.principal.UserDetailsObject? ==> r == Some(p.principal.username)
    ensures p.PasswordToken? && p.principal.StringObject? ==> r == Some(p.principal.value)
    ensures p.PasswordToken? && (p.principal.NullObject? || p.principal.OtherObject?) ==> r == Some("anonymous")
    ensures p.OtherPrincipal? ==> r == p.name
    ensures p.NoPrincipal? ==> r == Some("anonymous")
  {
    match p
    case PasswordToken(UserDetailsObject(username)) => Some(username)
    case PasswordToken(StringObject(value)) => Some(value)
    case PasswordToken(_) => Some("anonymous")
    case OtherPrincipal(name) => name
    case NoPrincipal => Some("anonymous")
  }

  /** isAnonymous: a null username or the literal "anonymous". */
  predicate IsAnonymous(username: Option<string>) {
    username.None? || username.value == "anonymous"
  }

  /** getUserOnlineKey, as the listener spells it. */
  function ListenerOnlineKey(username: string): string {
    "user:" + username + ":online"
  }

  /** The rooms of user `uid` in table order: the list `findChatRoomsByUserId` hands to the loop. */
  function RoomsOf(rooms: seq<ChatRoom>, memberships: set<(UserId, RoomId)>, uid: UserId): (rs: seq<ChatRoom>)
    ensures forall room :: room in rs <==> room in rooms && (uid, room.id) in memberships
    ensures |rs| <= |rooms|
  {
    if |rooms| == 0 then []
    else
      var rest := RoomsOf(rooms[1..], memberships, uid);
      assert forall room | room in rooms :: room == rooms[0] || room in rooms[1..];
      if (uid, rooms[0].id) in memberships then [rooms[0]] + rest else rest
  }

  /** One presence broadcast per room, in the order of `rooms`. */
  function PresenceBroadcasts(rooms: seq<ChatRoom>, username: string, online: bool): (es: seq<Effect>)
    ensures |es| == |rooms|
    ensures forall i | 0 <= i < |rooms| ::
              es[i] == Broadcast(ToTopic(PresenceTopic(rooms[i].name), PresenceUpdate(username, online)))
  {
    seq(|rooms|, i requires 0 <= i < |rooms| =>
      Broadcast(ToTopic(PresenceTopic(rooms[i].name), PresenceUpdate(username, online))))
  }

  /**
   * The part both handlers share once the key has been written or deleted:
   * look the user up, and if found, look up its rooms and broadcast to each.
   */
  function Announce(db: Db, username: string, online: bool): (es: seq<Effect>)
    ensures |es| >= 1 && es[0] == FindUser(username)
    ensures FindByUsername(db, username).None? ==> es == [FindUser(username)]
    ensures FindByUsername(db, username).Some? ==>
              |es| >= 2 && es[1] == FindRooms(FindByUsername(db, username).value.id)
  {
    match FindByUsername(db, username)
    case None => [FindUser(username)]
    case Some(user) =>
      [FindUser(username), FindRooms(user.id)]
      + PresenceBroadcasts(RoomsOf(db.rooms, db.memberships, user.id), username, online)
  }

  /** handleConnect */
  function HandleConnect(db: Db, keys: KeyStore, p: SessionPrincipal): (r: PresenceStep)
    ensures IsAnonymous(ExtractUsername(p)) ==> r == PresenceStep(keys, [])
    ensures !IsAnonymous(ExtractUsername(p)) ==>
              var username := ExtractUsername(p).value;
              && r.keys == keys + {ListenerOnlineKey(username)}
              && |r.effects| >= 2
              && r.effects[0] == RedisSet(ListenerOnlineKey(username), "true")
              && r.effects[1] == FindUser(username)
  {
    var name := ExtractUsername(p);
    if IsAnonymous(name) then PresenceStep(keys, [])
    else
      var key := ListenerOnlineKey(name.value);
      PresenceStep(keys + {key}, [RedisSet(key, "true")] + Announce(db, name.value, true))
  }

  /** handleDisconnect */
  function HandleDisconnect(db: Db, keys: KeyStore, p: SessionPrincipal): (r: PresenceStep)
    ensures IsAnonymous(ExtractUsername(p)) ==> r == PresenceStep(keys, [])
    ensures !IsAnonymous(ExtractUsername(p)) ==>
              var username := ExtractUsername(p).value;
              && r.keys == keys - {ListenerOnlineKey(username)}
              && |r.effects| >= 2
              && r.effects[0] == RedisDelete(ListenerOnlineKey(username))
              && r.effects[1] == FindUser(username)
  {
    var name := ExtractUsername(p);
    if IsAnonymous(name) then PresenceStep(keys, [])
    else
      var key := ListenerOnlineKey(name.value);
      PresenceStep(keys - {key}, [RedisDelete(key)] + Announce(db, name.value, false))
  }

  // ---------------------------------------------------------------------
  // Properties
  // ---------------------------------------------------------------------

  /** The listener writes the very key `getOnlineMembers` reads, and distinct users have distinct keys. */
  lemma {:induction false} OnlineKeysAgree(a: string, b: string)
    ensures ListenerOnlineKey(a) == ServiceOnlineKey(a)
    ensures ListenerOnlineKey(a) == ListenerOnlineKey(b) ==> a == b
  {
    if ListenerOnlineKey(a) == ListenerOnlineKey(b) {
      var k := ListenerOnlineKey(a);
      assert a == k[5..|k| - 7];
    }
  }

  /** An unknown user still gets its key written, but nothing is broadcast. */
  lemma UnknownUserBroadcastsNothing(db: Db, keys: KeyStore, p: SessionPrincipal)
    requires !IsAnonymous(ExtractUsername(p)) && FindByUsername(db, ExtractUsername(p).value).None?
    ensures forall e | e in HandleConnect(db, keys, p).effects :: !e.Broadcast?
    ensures forall e | e in HandleDisconnect(db, keys, p).effects :: !e.Broadcast?
    ensures ListenerOnlineKey(ExtractUsername(p).value) in HandleConnect(db, keys, p).keys
  {
  }

  /** The broadcast part of a trace. */
  function Broadcasts(es: seq<Effect>): (bs: seq<Outbound>)
    ensures forall m :: m in bs <==> Broadcast(m) in es
  {
    if |es| == 0 then []
    else
      var rest := Broadcasts(es[1..]);
      assert forall e | e in es :: e == es[0] || e in es[1..];
      if es[0].Broadcast? then [es[0].message] + rest else rest
  }

  /** No two rooms of `rs` share a name. */
  predicate DistinctNames(rs: seq<ChatRoom>) {
    forall i, j | 0 <= i < j < |rs| :: rs[i].name != rs[j].name
  }

  /** No room appears twice in the rooms of a user. */
  lemma {:induction false} RoomsOfDistinct(rooms: seq<ChatRoom>, memberships: set<(UserId, RoomId)>, uid: UserId)
    requires DistinctNames(rooms)
    ensures DistinctNames(RoomsOf(rooms, memberships, uid))
  {
    if |rooms| > 0 {
      assert DistinctNames(rooms[1..]) by {
        forall i, j | 0 <= i < j < |rooms[1..]| ensures rooms[1..][i].name != rooms[1..][j].name {
          assert rooms[1..][i] == rooms[i + 1] && rooms[1..][j] == rooms[j + 1];
        }
      }
      RoomsOfDistinct(rooms[1..], memberships, uid);
      var rest := RoomsOf(rooms[1..], memberships, uid);
      var rs := RoomsOf(rooms, memberships, uid);
      if (uid, rooms[0].id) in memberships {
        assert rs == [rooms[0]] + rest;
        forall i, j | 0 <= i < j < |rs| ensures rs[i].name != rs[j].name {
          assert rs[j] == rest[j - 1];
          if i == 0 {
            assert rest[j - 1] in rest;
            var k :| 0 <= k < |rooms[1..]| && rooms[1..][k] == rest[j - 1];
            assert rest[j - 1] == rooms[k + 1] && rs[0] == rooms[0];
          } else {
            assert rs[i] == rest[i - 1];
          }
        }
      }
    }
  }

  /**
   * For a known user, connect announces `{username, online: true}` on the
   * presence topic of each of its rooms, and on no other destination.
   */
  lemma {:induction false} ConnectAnnouncesToEveryRoom(db: Db, keys: KeyStore, p: SessionPrincipal)
    requires !IsAnonymous(ExtractUsername(p)) && FindByUsername(db, ExtractUsername(p).value).Some?
    ensures var username := ExtractUsername(p).value;
            var user := FindByUsername(db, username).value;
            var bs := Broadcasts(HandleConnect(db, keys, p).effects);
            && (forall room | room in FindChatRoomsByUserId(db, user.id) ::
                  ToTopic(PresenceTopic(room.name), PresenceUpdate(username, true)) in bs)
            && (forall m | m in bs :: exists room | room in FindChatRoomsByUserId(db, user.id) ::
                  m == ToTopic(PresenceTopic(room.name), PresenceUpdate(username, true)))
  {
    var username := ExtractUsername(p).value;
    var user := FindByUsername(db, username).value;
    var rooms := RoomsOf(db.rooms, db.memberships, user.id);
    ConnectBroadcastsAreFanOut(db, keys, p);
    var bs := Broadcasts(HandleConnect(db, keys, p).effects);
    FanOutReachesExactly(rooms, bs, username, true);
    assert forall room :: room in rooms <==> room in FindChatRoomsByUserId(db, user.id);
  }

  /** A fan-out over `rooms` reaches every room's presence topic and nothing else. */
  lemma {:induction false} FanOutReachesExactly(rooms: seq<ChatRoom>, bs: seq<Outbound>, username: string, online: bool)
    requires |bs| == |rooms|
    requires forall i | 0 <= i < |rooms| :: bs[i] == ToTopic(PresenceTopic(rooms[i].name), PresenceUpdate(username, online))
    ensures forall room | room in rooms :: ToTopic(PresenceTopic(room.name), PresenceUpdate(username, online)) in bs
    ensures forall m | m in bs :: exists room | room in rooms ::
              m == ToTopic(PresenceTopic(room.name), PresenceUpdate(username, online))
  {
    forall room | room in rooms
      ensures ToTopic(PresenceTopic(room.name), PresenceUpdate(username, online)) in bs
    {
      var i :| 0 <= i < |rooms| && rooms[i] == room;
      assert bs[i] == ToTopic(PresenceTopic(room.name), PresenceUpdate(username, online));
    }
    forall m | m in bs
      ensures exists room | room in rooms :: m == ToTopic(PresenceTopic(room.name), PresenceUpdate(username, online))
    {
      var i :| 0 <= i < |bs| && bs[i] == m;
      assert rooms[i] in rooms;
    }
  }

  /** Under unique room names, no presence update of a connect is sent twice. */
  lemma {:induction false} ConnectAnnouncesOncePerRoom(db: Db, keys: KeyStore, p: SessionPrincipal)
    requires Valid(db)
    requires !IsAnonymous(ExtractUsername(p)) && FindByUsername(db, ExtractUsername(p).value).Some?
    ensures var bs := Broadcasts(HandleConnect(db, keys, p).effects);
            forall i, j | 0 <= i < j < |bs| :: bs[i] != bs[j]
  {
    var username := ExtractUsername(p).value;
    var user := FindByUsername(db, username).value;
    var rooms := RoomsOf(db.rooms, db.memberships, user.id);
    ConnectBroadcastsAreFanOut(db, keys, p);
    var bs := Broadcasts(HandleConnect(db, keys, p).effects);
    RoomsOfDistinct(db.rooms, db.memberships, user.id);
    assert DistinctNames(rooms);
    forall i, j | 0 <= i < j < |bs| ensures bs[i] != bs[j] {
      TopicsInjective(rooms[i].name, rooms[j].name);
    }
  }

  /** The broadcasts of a connect by a known user are the fan-out over its rooms, in table order. */
  lemma {:induction false} ConnectBroadcastsAreFanOut(db: Db, keys: KeyStore, p: SessionPrincipal)
    requires !IsAnonymous(ExtractUsername(p)) && FindByUsername(db, ExtractUsername(p).value).Some?
    ensures var username := ExtractUsername(p).value;
            var rooms := RoomsOf(db.rooms, db.memberships, FindByUsername(db, username).value.id);
            var bs := Broadcasts(HandleConnect(db, keys, p).effects);
            |bs| == |rooms|
            && forall i | 0 <= i < |rooms| ::
                 bs[i] == ToTopic(PresenceTopic(rooms[i].name), PresenceUpdate(username, true))
  {
    var username := ExtractUsername(p).value;
    var user := FindByUsername(db, username).value;
    var rooms := RoomsOf(db.rooms, db.memberships, user.id);
    var pb := PresenceBroadcasts(rooms, username, true);
    var lead := [RedisSet(ListenerOnlineKey(username), "true"), FindUser(username), FindRooms(user.id)];
    assert HandleConnect(db, keys, p).effects == lead + pb;
    BroadcastsSkipQuietPrefix(lead, pb);
    BroadcastsOfPresence(rooms, username, true);
  }

  /** Effects that are not broadcasts contribute nothing to the broadcast part of a trace. */
  lemma {:induction false} BroadcastsSkipQuietPrefix(xs: seq<Effect>, ys: seq<Effect>)
    requires forall i | 0 <= i < |xs| :: !xs[i].Broadcast?
    ensures Broadcasts(xs + ys) == Broadcasts(ys)
  {
    if |xs| > 0 {
      assert (xs + ys)[0] == xs[0];
      assert (xs + ys)[1..] == xs[1..] + ys;
      assert forall i | 0 <= i < |xs[1..]| :: xs[1..][i] == xs[i + 1];
      BroadcastsSkipQuietPrefix(xs[1..], ys);
    } else {
      assert xs + ys == ys;
    }
  }

  /** The broadcasts of a presence fan-out are its messages, position by position. */
  lemma {:induction false} BroadcastsOfPresence(rooms: seq<ChatRoom>, username: string, online: bool)
    ensures var bs := Broadcasts(PresenceBroadcasts(rooms, username, online));
            |bs| == |rooms|
            && forall i | 0 <= i < |rooms| ::
                 bs[i] == ToTopic(PresenceTopic(rooms[i].name), PresenceUpdate(username, online))
  {
    if |rooms| > 0 {
      BroadcastsOfPresence(rooms[1..], username, online);
      assert PresenceBroadcasts(rooms, username, online)[1..] == PresenceBroadcasts(rooms[1..], username, online);
    }
  }

  /** The broadcasts of a disconnect by a known user are the fan-out over its rooms, in table order. */
  lemma {:induction false} DisconnectBroadcastsAreFanOut(db: Db, keys: KeyStore, p: SessionPrincipal)
    requires !IsAnonymous(ExtractUsername(p)) && FindByUsername(db, ExtractUsername(p).value).Some?
    ensures var username := ExtractUsername(p).value;
            var rooms := RoomsOf(db.rooms, db.memberships, FindByUsername(db, username).value.id);
            var bs := Broadcasts(HandleDisconnect(db, keys, p).effects);
            |bs| == |rooms|
            && forall i | 0 <= i < |rooms| ::
                 bs[i] == ToTopic(PresenceTopic(rooms[i].name), PresenceUpdate(username, false))
  {
    var username := ExtractUsername(p).value;
    var user := FindByUsername(db, username).value;
    var rooms := RoomsOf(db.rooms, db.memberships, user.id);
    var pb := PresenceBroadcasts(rooms, username, false);
    var lead := [RedisDelete(ListenerOnlineKey(username)), FindUser(username), FindRooms(user.id)];
    assert HandleDisconnect(db, keys, p).effects == lead + pb;
    BroadcastsSkipQuietPrefix(lead, pb);
    BroadcastsOfPresence(rooms, username, false);
  }

  /**
   * For a known user, disconnect announces `{username, online: false}` on
   * the presence topic of each of its rooms, once each, and on no other
   * destination.
   */
  lemma {:induction false} DisconnectAnnouncesToEveryRoom(db: Db, keys: KeyStore, p: SessionPrincipal)
    requires Valid(db)
    requires !IsAnonymous(ExtractUsername(p)) && FindByUsername(db, ExtractUsername(p).value).Some?
    ensures var username := ExtractUsername(p).value;
            var user := FindByUsername(db, username).value;
            var bs := Broadcasts(HandleDisconnect(db, keys, p).effects);
            && (forall room | room in FindChatRoomsByUserId(db, user.id) ::
                  ToTopic(PresenceTopic(room.name), PresenceUpdate(username, false)) in bs)
            && (forall m | m in bs :: exists room | room in FindChatRoomsByUserId(db, user.id) ::
                  m == ToTopic(PresenceTopic(room.name), PresenceUpdate(username, false)))
            && (forall i, j | 0 <= i < j < |bs| :: bs[i] != bs[j])
  {
    var username := ExtractUsername(p).value;
    var user := FindByUsername(db, username).value;
    var rooms := RoomsOf(db.rooms, db.memberships, user.id);
    DisconnectBroadcastsAreFanOut(db, keys, p);
    var bs := Broadcasts(HandleDisconnect(db, keys, p).effects);
    FanOutReachesExactly(rooms, bs, username, false);
    assert forall room :: room in rooms <==> room in FindChatRoomsByUserId(db, user.id);
    RoomsOfDistinct(db.rooms, db.memberships, user.id);
    forall i, j | 0 <= i < j < |bs| ensures bs[i] != bs[j] {
      TopicsInjective(rooms[i].name, rooms[j].name);
    }
  }

  /** Connecting and then disconnecting the same principal leaves its key absent and every other key as it was. */
  lemma ConnectThenDisconnect(db: Db, keys: KeyStore, p: SessionPrincipal)
    requires !IsAnonymous(ExtractUsername(p))
    ensures var after := HandleDisconnect(db, HandleConnect(db, keys, p).keys, p).keys;
            ListenerOnlineKey(ExtractUsername(p).value) !in after
            && after == keys - {ListenerOnlineKey(ExtractUsername(p).value)}
  {
  }

  /** After a connect the user counts as online in every room it belongs to. */
  lemma {:induction false} ConnectedUserIsOnline(db: Db, keys: KeyStore, p: SessionPrincipal, room: ChatRoom)
    requires !IsAnonymous(ExtractUsername(p))
    requires FindByUsername(db, ExtractUsername(p).value).Some?
    requires room in FindChatRoomsByUserId(db, FindByUsername(db, ExtractUsername(p).value).value.id)
    ensures var online := GetOnlineMembers(db, HandleConnect(db, keys, p).keys, room.id);
            online.Ok? && ExtractUsername(p).value in online.value.usernames
  {
    var username := ExtractUsername(p).value;
    var user := FindByUsername(db, username).value;
    OnlineKeysAgree(username, username);
    assert user in Members(db, room.id);
    assert HasRoom(db, room.id);
  }

  /** After a disconnect the user counts as online in no room. */
  lemma {:induction false} DisconnectedUserIsOffline(db: Db, keys: KeyStore, p: SessionPrincipal, roomId: RoomId)
    requires !IsAnonymous(ExtractUsername(p))
    ensures var online := GetOnlineMembers(db, HandleDisconnect(db, keys, p).keys, roomId);
            online.Ok? ==> ExtractUsername(p).value !in online.value.usernames
  {
    OnlineKeysAgree(ExtractUsername(p).value, ExtractUsername(p).value);
  }
}
