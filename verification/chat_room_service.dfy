/**
 * ChatRoomService: room membership, room creation, online-member lookup and
 * the invitation workflow, as transitions over the relational state `Db`.
 * A transition returns `Err(status)` where the service throws a
 * ResponseStatusException (the transaction rolls back and `Db` is kept) or
 * the new `Db`, together with the per-user notifications it sends.
 */
module ChatRoomService {
  import opened Common
  import opened Text
  import opened Rooms
  import opened Wire

  /** DataInitializer.GENERAL_ROOM_NAME: the default room nobody may leave. */
  const GeneralRoomName := "General"

  /** The Redis key whose presence marks `username` online, as this service spells it. */
  function ServiceOnlineKey(username: string): string {
    "user:" + username + ":online"
  }

  /** The Redis keyspace, reduced to the set of keys present (their value is always "true"). */
  type KeyStore = set<string>

  /** The body of a create-room request; `isPublic` is a nullable Boolean. */
  datatype CreateRoomRequest = CreateRoomRequest(name: string, isPublic: Option<bool>)

  /** The usernames `getOnlineMembers` returns and the Redis keys it probes to find them. */
  datatype OnlineMembers = OnlineMembers(usernames: set<string>, probedKeys: set<string>)

  /** The state after a successful transition and the per-user notifications it sent. */
  datatype Step = Step(db: Db, sent: seq<Outbound>)

  // ---------------------------------------------------------------------
  // isUserMemberOfRoom
  // ---------------------------------------------------------------------

  /** Whether `username` belongs to the room NAMED `roomName`; null inputs and unknown rooms give false. */
  function IsUserMemberOfRoom(db: Db, username: Option<string>, roomName: Option<string>): (r: bool)
    ensures username.None? || roomName.None? ==> !r
    ensures roomName.Some? && NamedRooms(db, roomName.value) == {} ==> !r
    ensures r ==> exists room | room in NamedRooms(db, roomName.value) ::
                    ExistsByUsernameAndChatRoomsId(db, username.value, room.id)
  {
    if username.None? || roomName.None? then false
    else
      match FindByName(db, roomName.value)
      case None => false
      case Some(room) => ExistsByUsernameAndChatRoomsId(db, username.value, room.id)
  }

  /** Under the schema's constraints the membership check is exactly the join-table relation. */
  lemma {:induction false} IsUserMemberOfRoomIffJoined(db: Db, username: string, roomName: string)
    requires Valid(db)
    ensures IsUserMemberOfRoom(db, Some(username), Some(roomName))
            <==> exists u, room | u in db.users && room in db.rooms ::
                   u.username == username && room.name == roomName && (u.id, room.id) in db.memberships
  {
    if exists u, room | u in db.users && room in db.rooms ::
         u.username == username && room.name == roomName && (u.id, room.id) in db.memberships {
      var u, room :| u in db.users && room in db.rooms &&
                     u.username == username && room.name == roomName && (u.id, room.id) in db.memberships;
      FindByNameIsTheNamedRoom(db, roomName);
      assert room in NamedRooms(db, roomName);
      assert FindByName(db, roomName) == Some(room);
    }
  }

  // ---------------------------------------------------------------------
  // createRoom
  // ---------------------------------------------------------------------

  /**
   * createRoom: the name is trimmed (Java `trim`), a taken name is a
   * BAD_REQUEST, otherwise a room with a fresh id is inserted, public unless
   * the request says otherwise, created by and joined by the creator.
   */
  function CreateRoom(db: Db, request: CreateRoomRequest, creator: User): (r: Result<(Db, ChatRoom)>)
    ensures r.Err? <==> NamedRooms(db, JavaTrim(request.name)) != {}
    ensures r.Err? ==> r.status == BadRequest
    ensures r.Ok? ==>
      var (db', room) := r.value;
      && room.name == JavaTrim(request.name)
      && room.isPublic == (request.isPublic != Some(false))
      && room.createdBy == Some(creator.id)
      && !HasRoom(db, room.id)
      && db'.rooms == db.rooms + [room]
      && db'.memberships == db.memberships + {(creator.id, room.id)}
      && db'.users == db.users && db'.invitations == db.invitations
  {
    var roomName := JavaTrim(request.name);
    var isPublic := if request.isPublic.None? then true else request.isPublic.value;
    if FindByName(db, roomName).Some? then Err(BadRequest)
    else
      var room := ChatRoom(NextRoomId(db), roomName, isPublic, Some(creator.id));
      Ok((db.(rooms := db.rooms + [room], memberships := db.memberships + {(creator.id, room.id)}), room))
  }

  /**
   * A name that stays one segment of a topic path: not empty and free of
   * '/'. The authorizer binds `{roomId}` to a single segment, so only such
   * a name names its own room in `/topic/chat/<name>`.
   */
  predicate RoutableName(name: string) {
    |name| > 0 && '/' !in name
  }

  /** Every room of the store has a routable name. */
  predicate RoutableNames(db: Db) {
    forall room | room in db.rooms :: RoutableName(room.name)
  }

  /**
   * createRoom with the name rule the topic layout relies on: a trimmed name
   * that is empty or holds '/' is a BAD_REQUEST, checked before the name's
   * uniqueness; every other request is handled as createRoom handles it.
   */
  function CreateRoutableRoom(db: Db, request: CreateRoomRequest, creator: User): (r: Result<(Db, ChatRoom)>)
    ensures r.Err? <==> !RoutableName(JavaTrim(request.name)) || NamedRooms(db, JavaTrim(request.name)) != {}
    ensures r.Err? ==> r.status == BadRequest
    ensures RoutableName(JavaTrim(request.name)) ==> r == CreateRoom(db, request, creator)
    ensures r.Ok? ==> RoutableName(r.value.1.name)
    ensures RoutableNames(db) && r.Ok? ==> RoutableNames(r.value.0)
  {
    if !RoutableName(JavaTrim(request.name)) then Err(BadRequest)
    else CreateRoom(db, request, creator)
  }

  // ---------------------------------------------------------------------
  // joinRoom
  // ---------------------------------------------------------------------

  /** joinRoom: NOT_FOUND, then INTERNAL_SERVER_ERROR, then FORBIDDEN, then BAD_REQUEST, else join. */
  function JoinRoom(db: Db, roomId: RoomId, user: User): (r: Result<Db>)
    ensures r == Err(NotFound) <==> !HasRoom(db, roomId)
    ensures r == Err(InternalServerError) <==> HasRoom(db, roomId) && !HasUser(db, user.id)
    ensures r == Err(Forbidden) <==>
              HasRoom(db, roomId) && HasUser(db, user.id) && !FindRoomById(db, roomId).value.isPublic
    ensures r == Err(BadRequest) <==>
              HasRoom(db, roomId) && HasUser(db, user.id) && FindRoomById(db, roomId).value.isPublic
              && (user.id, roomId) in db.memberships
    ensures r.Ok? ==> (user.id, roomId) !in db.memberships
                      && r.value == db.(memberships := db.memberships + {(user.id, roomId)})
  {
    match FindRoomById(db, roomId)
    case None => Err(NotFound)
    case Some(room) =>
      match FindUserById(db, user.id)
      case None => Err(InternalServerError)
      case Some(managed) =>
        if !room.isPublic then Err(Forbidden)
        else if (managed.id, room.id) in db.memberships then Err(BadRequest)
        else Ok(db.(memberships := db.memberships + {(managed.id, room.id)}))
  }

  // ---------------------------------------------------------------------
  // leaveRoom
  // ---------------------------------------------------------------------

  /**
   * leaveRoom: NOT_FOUND; the General room (any letter case) is refused with
   * BAD_REQUEST before the user is looked up; then INTERNAL_SERVER_ERROR;
   * a non-member gets BAD_REQUEST; else the membership row is removed.
   */
  function LeaveRoom(db: Db, roomId: RoomId, user: User): (r: Result<Db>)
    ensures r == Err(NotFound) <==> !HasRoom(db, roomId)
    ensures HasRoom(db, roomId) && EqualsIgnoreCase(GeneralRoomName, FindRoomById(db, roomId).value.name)
            ==> r == Err(BadRequest)
    ensures r == Err(InternalServerError) <==>
              HasRoom(db, roomId) && !EqualsIgnoreCase(GeneralRoomName, FindRoomById(db, roomId).value.name)
              && !HasUser(db, user.id)
    ensures HasRoom(db, roomId) && HasUser(db, user.id) && (user.id, roomId) !in db.memberships
            ==> r == Err(BadRequest)
    ensures r == Err(BadRequest) <==>
              HasRoom(db, roomId)
              && (EqualsIgnoreCase(GeneralRoomName, FindRoomById(db, roomId).value.name)
                  || (HasUser(db, user.id) && (user.id, roomId) !in db.memberships))
    ensures r.Ok? <==>
              HasRoom(db, roomId) && !EqualsIgnoreCase(GeneralRoomName, FindRoomById(db, roomId).value.name)
              && HasUser(db, user.id) && (user.id, roomId) in db.memberships
    ensures r.Ok? ==> (user.id, roomId) in db.memberships
                      && r.value == db.(memberships := db.memberships - {(user.id, roomId)})
  {
    match FindRoomById(db, roomId)
    case None => Err(NotFound)
    case Some(room) =>
      if EqualsIgnoreCase(GeneralRoomName, room.name) then Err(BadRequest)
      else
        match FindUserById(db, user.id)
        case None => Err(InternalServerError)
        case Some(managed) =>
          if (managed.id, room.id) !in db.memberships then Err(BadRequest)
          else Ok(db.(memberships := db.memberships - {(managed.id, room.id)}))
  }

  // ---------------------------------------------------------------------
  // getOnlineMembers
  // ---------------------------------------------------------------------

  /**
   * getOnlineMembers: NOT_FOUND for an unknown room; otherwise the usernames
   * of the room's members whose online key is present, probing one key per
   * member and none at all for an empty room.
   */
  function GetOnlineMembers(db: Db, keys: KeyStore, roomId: RoomId): (r: Result<OnlineMembers>)
    ensures r.Err? <==> !HasRoom(db, roomId)
    ensures r.Err? ==> r.status == NotFound
    ensures r.Ok? ==> forall name ::
              name in r.value.usernames <==>
                (exists u | u in Members(db, roomId) :: u.username == name) && ServiceOnlineKey(name) in keys
    ensures r.Ok? && Members(db, roomId) == {} ==> r.value.usernames == {} && r.value.probedKeys == {}
    ensures r.Ok? ==> r.value.probedKeys == set u | u in Members(db, roomId) :: ServiceOnlineKey(u.username)
  {
    match FindRoomById(db, roomId)
    case None => Err(NotFound)
    case Some(room) =>
      var members := Members(db, room.id);
      if members == {} then Ok(OnlineMembers({}, {}))
      else
        Ok(OnlineMembers(
             set u | u in members && ServiceOnlineKey(u.username) in keys :: u.username,
             set u | u in members :: ServiceOnlineKey(u.username)))
  }

  // ---------------------------------------------------------------------
  // inviteUserToRoom
  // ---------------------------------------------------------------------

  /**
   * inviteUserToRoom. Checks, in order: the room exists (NOT_FOUND); the
   * inviter, by the username on its principal, is a member (FORBIDDEN); the
   * invitee exists (NOT_FOUND); it is not the inviter (BAD_REQUEST); the
   * inviter's row exists (INTERNAL_SERVER_ERROR); the invitee is not a member
   * (BAD_REQUEST); no PENDING invitation exists (BAD_REQUEST). Then one
   * PENDING invitation is stored and the invitee is notified once.
   */
  function InviteUserToRoom(db: Db, roomId: RoomId, usernameToInvite: string, inviting: User): (r: Result<Step>)
    ensures r == Err(NotFound) <==>
              !HasRoom(db, roomId)
              || (ExistsByUsernameAndChatRoomsId(db, inviting.username, roomId)
                  && FindByUsername(db, usernameToInvite).None?)
    ensures r == Err(Forbidden) <==>
              HasRoom(db, roomId) && !ExistsByUsernameAndChatRoomsId(db, inviting.username, roomId)
    ensures HasRoom(db, roomId) && ExistsByUsernameAndChatRoomsId(db, inviting.username, roomId)
            && FindByUsername(db, usernameToInvite).Some?
            ==> var invitee := FindByUsername(db, usernameToInvite).value;
                && (invitee.id == inviting.id ==> r == Err(BadRequest))
                && (invitee.id != inviting.id && !HasUser(db, inviting.id) ==> r == Err(InternalServerError))
                && (invitee.id != inviting.id && HasUser(db, inviting.id) && (invitee.id, roomId) in db.memberships
                    ==> r == Err(BadRequest))
                && (invitee.id != inviting.id && HasUser(db, inviting.id) && HasPendingInvitation(db, roomId, invitee.id)
                    ==> r == Err(BadRequest))
    ensures r == Err(InternalServerError) <==>
              HasRoom(db, roomId) && ExistsByUsernameAndChatRoomsId(db, inviting.username, roomId)
              && FindByUsername(db, usernameToInvite).Some?
              && FindByUsername(db, usernameToInvite).value.id != inviting.id && !HasUser(db, inviting.id)
    ensures r == Err(BadRequest) <==>
              HasRoom(db, roomId) && ExistsByUsernameAndChatRoomsId(db, inviting.username, roomId)
              && FindByUsername(db, usernameToInvite).Some?
              && var invitee := FindByUsername(db, usernameToInvite).value;
                 || invitee.id == inviting.id
                 || (HasUser(db, inviting.id)
                     && ((invitee.id, roomId) in db.memberships || HasPendingInvitation(db, roomId, invitee.id)))
    ensures r.Ok? <==>
              HasRoom(db, roomId) && ExistsByUsernameAndChatRoomsId(db, inviting.username, roomId)
              && FindByUsername(db, usernameToInvite).Some?
              && var invitee := FindByUsername(db, usernameToInvite).value;
                 && invitee.id != inviting.id && HasUser(db, inviting.id)
                 && (invitee.id, roomId) !in db.memberships
                 && !HasPendingInvitation(db, roomId, invitee.id)
    ensures r.Ok? ==>
      && HasRoom(db, roomId)
      && var invitee := FindByUsername(db, usernameToInvite).value;
      && var room := FindRoomById(db, roomId).value;
      && FindByUsername(db, usernameToInvite).Some?
      && invitee.id != inviting.id
      && (invitee.id, roomId) !in db.memberships
      && !HasPendingInvitation(db, roomId, invitee.id)
      && |r.value.db.invitations| == |db.invitations| + 1
      && r.value.db.invitations[..|db.invitations|] == db.invitations
      && var v := r.value.db.invitations[|db.invitations|];
      && v.room == roomId && v.invitedUser == invitee.id && v.invitingUser == inviting.id && v.status == Pending
      && (forall w | w in db.invitations :: w.id != v.id)
      && r.value.db == db.(invitations := db.invitations + [v])
      && r.value.sent == [ToUser(usernameToInvite, InvitationsQueue, NewInvitation(v.id, roomId, room.name, inviting.username))]
  {
    match FindRoomById(db, roomId)
    case None => Err(NotFound)
    case Some(room) =>
      if !ExistsByUsernameAndChatRoomsId(db, inviting.username, roomId) then Err(Forbidden)
      else
        match FindByUsername(db, usernameToInvite)
        case None => Err(NotFound)
        case Some(invitee) =>
          if inviting.id == invitee.id then Err(BadRequest)
          else if FindUserById(db, inviting.id).None? then Err(InternalServerError)
          else if (invitee.id, room.id) in db.memberships then Err(BadRequest)
          else if HasPendingInvitation(db, room.id, invitee.id) then Err(BadRequest)
          else
            var v := RoomInvitation(NextInvitationId(db), room.id, invitee.id, inviting.id, Pending);
            Ok(Step(db.(invitations := db.invitations + [v]),
                    [ToUser(invitee.username, InvitationsQueue, NewInvitation(v.id, room.id, room.name, inviting.username))]))
  }

  // ---------------------------------------------------------------------
  // acceptRoomInvitationAndAddUser / declineRoomInvitation
  // ---------------------------------------------------------------------

  /** The invitation table with the row whose id is `id` given status `status` (a `save` of that row). */
  function SetStatus(vs: seq<RoomInvitation>, id: InvitationId, status: InvitationStatus): (vs': seq<RoomInvitation>)
    ensures |vs'| == |vs|
    ensures forall i | 0 <= i < |vs| ::
              vs'[i] == if vs[i].id == id then vs[i].(status := status) else vs[i]
  {
    seq(|vs|, i requires 0 <= i < |vs| => if vs[i].id == id then vs[i].(status := status) else vs[i])
  }

  /**
   * acceptRoomInvitationAndAddUser: NOT_FOUND; BAD_REQUEST unless PENDING;
   * the CALLER (not necessarily the invited user, and whatever the room's
   * visibility) is added to the room unless already a member; the invitation
   * becomes ACCEPTED and the inviter is notified. A missing caller, room or
   * inviter row makes the call fail with INTERNAL_SERVER_ERROR.
   */
  function AcceptRoomInvitationAndAddUser(db: Db, invitationId: InvitationId, accepting: User): (r: Result<Step>)
    ensures r == Err(NotFound) <==> FindInvitationById(db, invitationId).None?
    ensures FindInvitationById(db, invitationId).Some? && FindInvitationById(db, invitationId).value.status != Pending
            ==> r == Err(BadRequest)
    ensures r.Ok? ==>
      && var v := FindInvitationById(db, invitationId).value;
      && FindInvitationById(db, invitationId).Some? && v.status == Pending
      && HasUser(db, accepting.id) && HasRoom(db, v.room)
      && r.value.db.memberships == db.memberships + {(accepting.id, v.room)}
      && r.value.db.invitations == SetStatus(db.invitations, invitationId, Accepted)
      && r.value.db.users == db.users && r.value.db.rooms == db.rooms
      && FindUserById(db, v.invitingUser).Some?
      && r.value.sent == [ToUser(FindUserById(db, v.invitingUser).value.username, NotificationsQueue,
                                 InvitationAccepted(v.room, FindRoomById(db, v.room).value.name, accepting.username))]
  {
    match FindInvitationById(db, invitationId)
    case None => Err(NotFound)
    case Some(v) =>
      if v.status != Pending then Err(BadRequest)
      else
        match FindUserById(db, accepting.id)
        case None => Err(InternalServerError)
        case Some(managed) =>
          match FindRoomById(db, v.room)
          case None => Err(InternalServerError)
          case Some(room) =>
            var members' := if (managed.id, room.id) !in db.memberships
                            then db.memberships + {(managed.id, room.id)} else db.memberships;
            var db' := db.(memberships := members', invitations := SetStatus(db.invitations, v.id, Accepted));
            match FindUserById(db, v.invitingUser)
            case None => Err(InternalServerError)
            case Some(inviter) =>
              Ok(Step(db', [ToUser(inviter.username, NotificationsQueue,
                                   InvitationAccepted(room.id, room.name, accepting.username))]))
  }

  /** declineRoomInvitation: NOT_FOUND; BAD_REQUEST unless PENDING; else DECLINED and nothing else changes. */
  function DeclineRoomInvitation(db: Db, invitationId: InvitationId, declining: User): (r: Result<Db>)
    ensures r == Err(NotFound) <==> FindInvitationById(db, invitationId).None?
    ensures r == Err(BadRequest) <==>
              FindInvitationById(db, invitationId).Some? && FindInvitationById(db, invitationId).value.status != Pending
    ensures r.Ok? ==> r.value == db.(invitations := SetStatus(db.invitations, invitationId, Declined))
  {
    match FindInvitationById(db, invitationId)
    case None => Err(NotFound)
    case Some(v) =>
      if v.status != Pending then Err(BadRequest)
      else Ok(db.(invitations := SetStatus(db.invitations, v.id, Declined)))
  }
}
