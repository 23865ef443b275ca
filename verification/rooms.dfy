/**
 * The persistent state behind ChatRoomService: the users, chat_rooms and
 * room_invitations tables, the user_chat_room join table (owned by
 * User.chatRooms and mirrored by ChatRoom.members), and the repository
 * queries over them. Tables are sequences in insertion (id) order; every
 * lookup by key is the first matching row.
 */
module Rooms {
  import opened Common

  type UserId = nat
  type RoomId = nat
  type InvitationId = nat

  datatype User = User(id: UserId, username: string)

  datatype ChatRoom = ChatRoom(id: RoomId, name: string, isPublic: bool, createdBy: Option<UserId>)

  datatype InvitationStatus = Pending | Accepted | Declined

  datatype RoomInvitation = RoomInvitation(
    id: InvitationId,
    room: RoomId,
    invitedUser: UserId,
    invitingUser: UserId,
    status: InvitationStatus)

  /** The relational state: three tables and the membership join table of (user id, room id) rows. */
  datatype Db = Db(
    users: seq<User>,
    rooms: seq<ChatRoom>,
    memberships: set<(UserId, RoomId)>,
    invitations: seq<RoomInvitation>)

  /** The column constraints of the schema: primary keys, unique names and foreign keys. */
  ghost predicate Valid(db: Db) {
    && (forall i, j | 0 <= i < j < |db.users| ::
          db.users[i].id != db.users[j].id && db.users[i].username != db.users[j].username)
    && (forall i, j | 0 <= i < j < |db.rooms| ::
          db.rooms[i].id != db.rooms[j].id && db.rooms[i].name != db.rooms[j].name)
    && (forall i, j | 0 <= i < j < |db.invitations| :: db.invitations[i].id != db.invitations[j].id)
    && (forall m | m in db.memberships :: HasUser(db, m.0) && HasRoom(db, m.1))
    && (forall v | v in db.invitations ::
          HasRoom(db, v.room) && HasUser(db, v.invitedUser) && HasUser(db, v.invitingUser))
  }

  predicate HasUser(db: Db, id: UserId) {
    exists u | u in db.users :: u.id == id
  }

  predicate HasRoom(db: Db, id: RoomId) {
    exists r | r in db.rooms :: r.id == id
  }

  // ---------------------------------------------------------------------
  // Repository lookups by key (JpaRepository.findById, derived finders)
  // ---------------------------------------------------------------------

  /** ChatRoomRepository.findById */
  function FindRoomById(db: Db, id: RoomId): (r: Option<ChatRoom>)
    ensures r.Some? ==> r.value in db.rooms && r.value.id == id
    ensures r.None? <==> !HasRoom(db, id)
  {
    First(db.rooms, (room: ChatRoom) => room.id == id)
  }

  /** ChatRoomRepository.findByName */
  function FindByName(db: Db, name: string): (r: Option<ChatRoom>)
    ensures r.Some? ==> r.value in db.rooms && r.value.name == name
    ensures r.None? <==> NamedRooms(db, name) == {}
  {
    var r := First(db.rooms, (room: ChatRoom) => room.name == name);
    assert r.Some? ==> r.value in NamedRooms(db, name);
    r
  }

  /** UserRepository.findById */
  function FindUserById(db: Db, id: UserId): (r: Option<User>)
    ensures r.Some? ==> r.value in db.users && r.value.id == id
    ensures r.None? <==> !HasUser(db, id)
  {
    First(db.users, (u: User) => u.id == id)
  }

  /** UserRepository.findByUsername */
  function FindByUsername(db: Db, username: string): (r: Option<User>)
    ensures r.Some? ==> r.value in db.users && r.value.username == username
    ensures r.None? <==> forall u | u in db.users :: u.username != username
  {
    First(db.users, (u: User) => u.username == username)
  }

  /** RoomInvitationRepository.findById */
  function FindInvitationById(db: Db, id: InvitationId): (r: Option<RoomInvitation>)
    ensures r.Some? ==> r.value in db.invitations && r.value.id == id
    ensures r.None? <==> forall v | v in db.invitations :: v.id != id
  {
    First(db.invitations, (v: RoomInvitation) => v.id == id)
  }

  // ---------------------------------------------------------------------
  // Repository queries as set comprehensions
  // ---------------------------------------------------------------------

  /** Every room row carrying `name`; the unique constraint keeps it to at most one. */
  function NamedRooms(db: Db, name: string): set<ChatRoom> {
    set room | room in db.rooms && room.name == name
  }

  /** ChatRoom.members: the users the join table pairs with room `rid`. */
  function Members(db: Db, rid: RoomId): set<User> {
    set u | u in db.users && (u.id, rid) in db.memberships
  }

  /** ChatRoomRepository.findChatRoomsByUserId: `JOIN cr.members m WHERE m.id = :userId`. */
  function FindChatRoomsByUserId(db: Db, uid: UserId): (r: set<ChatRoom>)
    ensures forall room :: room in r <==> room in db.rooms && (uid, room.id) in db.memberships
  {
    set room | room in db.rooms && (uid, room.id) in db.memberships
  }

  /**
   * ChatRoomRepository.findDiscoverableRoomsForUser:
   * `cr.isPublic = true AND NOT EXISTS (SELECT 1 FROM cr.members m WHERE m.id = :userId)`.
   */
  function FindDiscoverableRoomsForUser(db: Db, uid: UserId): (r: set<ChatRoom>)
    ensures forall room | room in r :: room in db.rooms && room.isPublic
    ensures r !! FindChatRoomsByUserId(db, uid)
    ensures forall room | room in db.rooms && room.isPublic && room !in FindChatRoomsByUserId(db, uid) :: room in r
  {
    set room | room in db.rooms && room.isPublic && (uid, room.id) !in db.memberships
  }

  /** UserRepository.existsByUsernameAndChatRooms_Id: some user with that name has the room in its set. */
  predicate ExistsByUsernameAndChatRoomsId(db: Db, username: string, rid: RoomId) {
    exists u | u in db.users :: u.username == username && (u.id, rid) in db.memberships
  }

  /** RoomInvitationRepository.existsByRoomAndInvitedUserAndStatus with status PENDING. */
  predicate HasPendingInvitation(db: Db, rid: RoomId, uid: UserId) {
    exists v | v in db.invitations :: v.room == rid && v.invitedUser == uid && v.status == Pending
  }

  // ---------------------------------------------------------------------
  // Identity generation (GenerationType.IDENTITY)
  // ---------------------------------------------------------------------

  /** One more than the largest id in `ids`: an identity column's next value. */
  function NextId(ids: seq<nat>): (n: nat)
    ensures forall i | 0 <= i < |ids| :: ids[i] < n
  {
    if |ids| == 0 then 1
    else
      var rest := NextId(ids[1..]);
      assert forall i | 1 <= i < |ids| :: ids[i] == ids[1..][i - 1];
      if ids[0] < rest then rest else ids[0] + 1
  }

  function RoomIds(rooms: seq<ChatRoom>): (ids: seq<nat>)
    ensures |ids| == |rooms| && forall i | 0 <= i < |rooms| :: ids[i] == rooms[i].id
  {
    seq(|rooms|, i requires 0 <= i < |rooms| => rooms[i].id)
  }

  function InvitationIds(vs: seq<RoomInvitation>): (ids: seq<nat>)
    ensures |ids| == |vs| && forall i | 0 <= i < |vs| :: ids[i] == vs[i].id
  {
    seq(|vs|, i requires 0 <= i < |vs| => vs[i].id)
  }

  /** The id the next inserted room receives; no existing room has it. */
  function NextRoomId(db: Db): (id: RoomId)
    ensures !HasRoom(db, id)
  {
    var ids := RoomIds(db.rooms);
    var id := NextId(ids);
    assert forall r | r in db.rooms :: r.id != id by {
      forall r | r in db.rooms ensures r.id != id {
        var i :| 0 <= i < |db.rooms| && db.rooms[i] == r;
        assert ids[i] == r.id;
      }
    }
    id
  }

  /** The id the next inserted invitation receives; no existing invitation has it. */
  function NextInvitationId(db: Db): (id: InvitationId)
    ensures forall v | v in db.invitations :: v.id != id
  {
    var ids := InvitationIds(db.invitations);
    var id := NextId(ids);
    assert forall v | v in db.invitations :: v.id != id by {
      forall v | v in db.invitations ensures v.id != id {
        var i :| 0 <= i < |db.invitations| && db.invitations[i] == v;
        assert ids[i] == v.id;
      }
    }
    id
  }

  // ---------------------------------------------------------------------
  // Properties of the queries
  // ---------------------------------------------------------------------

  /** Room names are unique, so `findByName` has at most one row to return and returns it. */
  lemma {:induction false} FindByNameIsTheNamedRoom(db: Db, name: string)
    requires Valid(db)
    ensures |NamedRooms(db, name)| <= 1
    ensures forall room | room in NamedRooms(db, name) :: FindByName(db, name) == Some(room)
  {
    var p := (room: ChatRoom) => room.name == name;
    forall room | room in NamedRooms(db, name) ensures FindByName(db, name) == Some(room) {
      FirstOfUnique(db.rooms, p, room);
    }
    if NamedRooms(db, name) != {} {
      var room := FindByName(db, name).value;
      assert NamedRooms(db, name) == {room};
    }
  }

  /** Usernames are unique, so `findByUsername` returns the one user with that name. */
  lemma {:induction false} FindByUsernameIsTheNamedUser(db: Db, u: User)
    requires Valid(db) && u in db.users
    ensures FindByUsername(db, u.username) == Some(u)
  {
    FirstOfUnique(db.users, (x: User) => x.username == u.username, u);
  }

  /** User ids are unique, so `findById` returns the one user with that id. */
  lemma {:induction false} FindUserByIdIsTheUser(db: Db, u: User)
    requires Valid(db) && u in db.users
    ensures FindUserById(db, u.id) == Some(u)
  {
    FirstOfUnique(db.users, (x: User) => x.id == u.id, u);
  }

  /** Room ids are unique, so `findById` returns the one room with that id. */
  lemma {:induction false} FindRoomByIdIsTheRoom(db: Db, room: ChatRoom)
    requires Valid(db) && room in db.rooms
    ensures FindRoomById(db, room.id) == Some(room)
  {
    FirstOfUnique(db.rooms, (x: ChatRoom) => x.id == room.id, room);
  }

  /**
   * `existsByUsernameAndChatRooms_Id(name, rid)` holds exactly when the user
   * `findByUsername(name)` returns has `rid` in its room set; it is false for
   * an unknown username and, under the foreign keys, for an unknown room id.
   */
  lemma {:induction false} ExistsByUsernameMeansMembership(db: Db, username: string, rid: RoomId)
    requires Valid(db)
    ensures ExistsByUsernameAndChatRoomsId(db, username, rid)
            <==> FindByUsername(db, username).Some? && (FindByUsername(db, username).value.id, rid) in db.memberships
    ensures FindByUsername(db, username).None? ==> !ExistsByUsernameAndChatRoomsId(db, username, rid)
    ensures !HasRoom(db, rid) ==> !ExistsByUsernameAndChatRoomsId(db, username, rid)
  {
    if ExistsByUsernameAndChatRoomsId(db, username, rid) {
      var u :| u in db.users && u.username == username && (u.id, rid) in db.memberships;
      FindByUsernameIsTheNamedUser(db, u);
    }
  }

  /** The join table read from either side agrees: a room lists u as member iff u's rooms include it. */
  lemma MembershipIsMirrored(db: Db, u: User, room: ChatRoom)
    requires u in db.users && room in db.rooms
    ensures room in FindChatRoomsByUserId(db, u.id) <==> u in Members(db, room.id)
  {
  }

  /** A user in no room discovers every public room. */
  lemma DiscoverAllWhenInNoRoom(db: Db, uid: UserId)
    requires FindChatRoomsByUserId(db, uid) == {}
    ensures FindDiscoverableRoomsForUser(db, uid) == set room | room in db.rooms && room.isPublic
  {
  }
}
