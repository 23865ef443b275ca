/**
 * Properties that cross components: the subscription authorizer reads the
 * membership state the room service writes, on every attempt, so joining
 * and leaving a room take effect on the next subscription to its topics.
 */
module Scenarios {
  import opened Common
  import opened Rooms
  import opened Wire
  import opened ChatRoomService
  import opened Text
  import opened MessageSecurity
  import RoomProperties

  /** The session of `user`: authenticated, and not Spring's anonymous principal. */
  predicate SessionOf(auth: Option<Authentication>, user: User) {
    && auth.Some? && auth.value.authenticated
    && auth.value.principal != StringObject("anonymousUser")
    && auth.value.name == Some(user.username)
  }

  /** After joining a room, the user's session may subscribe to the room's chat and typing topics. */
  lemma {:induction false} JoinerMaySubscribe(db: Db, roomId: RoomId, user: User, auth: Option<Authentication>)
    requires Valid(db) && user in db.users
    requires JoinRoom(db, roomId, user).Ok?
    requires SessionOf(auth, user)
    requires RoutableNames(db)
    ensures var name := FindRoomById(db, roomId).value.name;
            var after := JoinRoom(db, roomId, user).value;
            Authorize(Frame(Subscribe, Some(ChatTopic(name))), auth, after)
            && Authorize(Frame(Subscribe, Some(TypingTopic(name))), auth, after)
  {
    var name := FindRoomById(db, roomId).value.name;
    var after := JoinRoom(db, roomId, user).value;
    RoomProperties.JoinedUserIsMember(db, roomId, user);
    RoomTopicSubscription(name, auth, after);
  }

  /** After leaving a room, the user's next subscription to the room's chat or typing topic is refused. */
  lemma {:induction false} LeaverMayNotSubscribe(db: Db, roomId: RoomId, user: User, auth: Option<Authentication>)
    requires Valid(db) && user in db.users
    requires LeaveRoom(db, roomId, user).Ok?
    requires auth.Some? && auth.value.name == Some(user.username)
    requires RoutableNames(db)
    ensures var name := FindRoomById(db, roomId).value.name;
            var after := LeaveRoom(db, roomId, user).value;
            !Authorize(Frame(Subscribe, Some(ChatTopic(name))), auth, after)
            && !Authorize(Frame(Subscribe, Some(TypingTopic(name))), auth, after)
  {
    var name := FindRoomById(db, roomId).value.name;
    var after := LeaveRoom(db, roomId, user).value;
    RoomProperties.LeftUserIsNotMember(db, roomId, user);
    RoomTopicSubscription(name, auth, after);
  }

  /**
   * The creator of a room may subscribe to its topics as soon as it is
   * created, when the name rule keeps the name one topic segment.
   */
  lemma {:induction false} CreatorMaySubscribe(db: Db, request: CreateRoomRequest, creator: User, auth: Option<Authentication>)
    requires Valid(db) && creator in db.users
    requires CreateRoutableRoom(db, request, creator).Ok?
    requires SessionOf(auth, creator)
    ensures var (after, room) := CreateRoutableRoom(db, request, creator).value;
            Authorize(Frame(Subscribe, Some(ChatTopic(room.name))), auth, after)
            && Authorize(Frame(Subscribe, Some(TypingTopic(room.name))), auth, after)
  {
    var (after, room) := CreateRoutableRoom(db, request, creator).value;
    RoomProperties.CreatorIsMember(db, request, creator);
    RoomTopicSubscription(room.name, auth, after);
  }

  /** Joining and leaving leave the rooms alone, so the name rule holds of every store the corrected service builds. */
  lemma MembershipChangesKeepRoutableNames(db: Db, roomId: RoomId, user: User)
    requires RoutableNames(db)
    ensures JoinRoom(db, roomId, user).Ok? ==> RoutableNames(JoinRoom(db, roomId, user).value)
    ensures LeaveRoom(db, roomId, user).Ok? ==> RoutableNames(LeaveRoom(db, roomId, user).value)
  {
  }

  /** A store holding the room "a" with alice as its only member, and bob. */
  const SlashExampleStore := Db([User(1, "alice"), User(2, "bob")], [ChatRoom(1, "a", true, Some(1))], {(1, 1)}, [])

  /** bob's request for a room named "a/b". */
  const SlashExampleRequest := CreateRoomRequest("a/b", None)

  /** The example store meets the schema constraints and has room 1. */
  lemma SlashExampleIsValid()
    ensures Valid(SlashExampleStore) && HasRoom(SlashExampleStore, 1)
  {
    assert SlashExampleStore.rooms[0] in SlashExampleStore.rooms;
  }

  /** "a/b" is its own trim. */
  lemma SlashExampleTrim()
    ensures JavaTrim("a/b") == "a/b"
  {
    TrimOfTrimmed("a/b", IsJavaTrimmable);
  }

  /** No room of the example store is named "a/b". */
  lemma SlashExampleNameIsFree()
    ensures FindByName(SlashExampleStore, "a/b").None?
  {
    assert SlashExampleStore.rooms == [ChatRoom(1, "a", true, Some(1))];
    assert "a" != "a/b";
  }

  /** As written, createRoom accepts "a/b" and adds a second room, of which bob alone is a member. */
  lemma AsWrittenAcceptsSlashName()
    ensures var created := CreateRoom(SlashExampleStore, SlashExampleRequest, User(2, "bob"));
            && created.Ok? && created.value.1.name == "a/b" && Valid(created.value.0)
            && created.value.1.id != 1
            && created.value.0.users == SlashExampleStore.users
            && created.value.0.rooms == SlashExampleStore.rooms + [created.value.1]
            && created.value.0.memberships == {(1, 1), (2, created.value.1.id)}
  {
    SlashExampleIsValid();
    SlashExampleTrim();
    SlashExampleNameIsFree();
    RoomProperties.CreateRoomPreservesValid(SlashExampleStore, SlashExampleRequest, User(2, "bob"));
  }

  /** In the store createRoom leaves, alice still belongs to "a". */
  lemma SlashExampleAliceInA(after: Db, room: ChatRoom)
    requires Valid(after)
    requires after.users == SlashExampleStore.users && after.rooms == SlashExampleStore.rooms + [room]
    requires room.name == "a/b" && room.id != 1 && after.memberships == {(1, 1), (2, room.id)}
    ensures IsUserMemberOfRoom(after, Some("alice"), Some("a"))
  {
    IsUserMemberOfRoomIffJoined(after, "alice", "a");
    assert after.users[0] in after.users && after.rooms[0] in after.rooms;
  }

  /** In the store createRoom leaves, alice does not belong to "a/b". */
  lemma SlashExampleAliceNotInAB(after: Db, room: ChatRoom)
    requires after.users == SlashExampleStore.users && after.rooms == SlashExampleStore.rooms + [room]
    requires room.name == "a/b" && room.id != 1 && after.memberships == {(1, 1), (2, room.id)}
    ensures !IsUserMemberOfRoom(after, Some("alice"), Some("a/b"))
  {
    assert FindByName(after, "a/b") == Some(room) by {
      assert room in NamedRooms(after, "a/b");
      assert after.rooms[0].name == "a";
    }
    forall u | u in after.users && u.username == "alice"
      ensures (u.id, room.id) !in after.memberships
    {
      assert u.id == 1;
    }
  }

  /**
   * As written, alice, a member of "a" only, may subscribe to the chat topic
   * of the room "a/b", because the authorizer decides it by the room "a".
   */
  lemma AsWrittenSlashRoomAdmitsNonMember()
    ensures var after := CreateRoom(SlashExampleStore, SlashExampleRequest, User(2, "bob")).value.0;
            var alice := Some(Authentication(false, true, UserDetailsObject("alice"), Some("alice")));
            && !IsUserMemberOfRoom(after, Some("alice"), Some("a/b"))
            && Authorize(Frame(Subscribe, Some(ChatTopic("a/b"))), alice, after)
  {
    AsWrittenAcceptsSlashName();
    var (after, room) := CreateRoom(SlashExampleStore, SlashExampleRequest, User(2, "bob")).value;
    var alice := Some(Authentication(false, true, UserDetailsObject("alice"), Some("alice")));
    SlashExampleAliceInA(after, room);
    SlashExampleAliceNotInAB(after, room);
    SlashNameIsDecidedByFirstSegment("a", "b", alice, after);
    assert ChatTopic("a" + "/" + "b") == ChatTopic("a/b");
  }

  /** With the name rule, the same request is refused and the store keeps one room. */
  lemma CorrectedServiceRefusesSlashName()
    ensures CreateRoutableRoom(SlashExampleStore, SlashExampleRequest, User(2, "bob")) == Err(BadRequest)
  {
    SlashExampleTrim();
    assert "a/b"[1] == '/';
  }
}
