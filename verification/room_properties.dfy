/**
 * Properties relating several ChatRoomService transitions: the schema
 * constraints are invariants of every transition, joining and leaving undo
 * each other, and the invitation workflow ends in membership (accept) or
 * leaves membership alone and allows a fresh invitation (decline).
 */
module RoomProperties {
  import opened Common
  import opened Text
  import opened Rooms
  import opened Wire
  import opened ChatRoomService

  // ---------------------------------------------------------------------
  // The schema constraints are preserved
  // ---------------------------------------------------------------------

  lemma {:induction false} CreateRoomPreservesValid(db: Db, request: CreateRoomRequest, creator: User)
    requires Valid(db) && HasUser(db, creator.id)
    ensures CreateRoom(db, request, creator).Ok? ==> Valid(CreateRoom(db, request, creator).value.0)
  {
    var r := CreateRoom(db, request, creator);
    if r.Ok? {
      var (db', room) := r.value;
      assert NamedRooms(db, room.name) == {};
      forall i, j | 0 <= i < j < |db'.rooms|
        ensures db'.rooms[i].id != db'.rooms[j].id && db'.rooms[i].name != db'.rooms[j].name
      {
        if j == |db.rooms| {
          assert db'.rooms[i] in db.rooms;
          assert db'.rooms[i] !in NamedRooms(db, room.name);
        }
      }
      assert forall x | x in db.rooms :: x in db'.rooms;
      assert HasRoom(db', room.id) by { assert room in db'.rooms; }
    }
  }

  lemma JoinRoomPreservesValid(db: Db, roomId: RoomId, user: User)
    requires Valid(db)
    ensures JoinRoom(db, roomId, user).Ok? ==> Valid(JoinRoom(db, roomId, user).value)
  {
  }

  lemma LeaveRoomPreservesValid(db: Db, roomId: RoomId, user: User)
    requires Valid(db)
    ensures LeaveRoom(db, roomId, user).Ok? ==> Valid(LeaveRoom(db, roomId, user).value)
  {
  }

  lemma {:induction false} InviteUserToRoomPreservesValid(db: Db, roomId: RoomId, username: string, inviting: User)
    requires Valid(db)
    ensures InviteUserToRoom(db, roomId, username, inviting).Ok? ==>
              Valid(InviteUserToRoom(db, roomId, username, inviting).value.db)
  {
    var r := InviteUserToRoom(db, roomId, username, inviting);
    if r.Ok? {
      var v := r.value.db.invitations[|db.invitations|];
      assert HasUser(db, v.invitedUser) by { assert FindByUsername(db, username).value in db.users; }
      assert HasUser(db, v.invitingUser) by {
        assert ExistsByUsernameAndChatRoomsId(db, inviting.username, roomId);
      }
      InsertInvitationPreservesValid(db, v);
    }
  }

  lemma {:induction false} AcceptPreservesValid(db: Db, invitationId: InvitationId, accepting: User)
    requires Valid(db)
    ensures AcceptRoomInvitationAndAddUser(db, invitationId, accepting).Ok? ==>
              Valid(AcceptRoomInvitationAndAddUser(db, invitationId, accepting).value.db)
  {
    var r := AcceptRoomInvitationAndAddUser(db, invitationId, accepting);
    if r.Ok? {
      var v := FindInvitationById(db, invitationId).value;
      var db1 := db.(invitations := SetStatus(db.invitations, invitationId, Accepted));
      StatusChangePreservesValid(db, invitationId, Accepted);
      AddMembershipPreservesValid(db1, accepting.id, v.room);
      assert r.value.db == db1.(memberships := db1.memberships + {(accepting.id, v.room)});
    }
  }

  lemma {:induction false} DeclinePreservesValid(db: Db, invitationId: InvitationId, declining: User)
    requires Valid(db)
    ensures DeclineRoomInvitation(db, invitationId, declining).Ok? ==>
              Valid(DeclineRoomInvitation(db, invitationId, declining).value)
  {
    StatusChangePreservesValid(db, invitationId, Declined);
  }

  /** Storing an invitation with a fresh id that references existing rows keeps the constraints. */
  lemma {:induction false} InsertInvitationPreservesValid(db: Db, v: RoomInvitation)
    requires Valid(db)
    requires HasRoom(db, v.room) && HasUser(db, v.invitedUser) && HasUser(db, v.invitingUser)
    requires forall w | w in db.invitations :: w.id != v.id
    ensures Valid(db.(invitations := db.invitations + [v]))
  {
    var db' := db.(invitations := db.invitations + [v]);
    forall i, j | 0 <= i < j < |db'.invitations|
      ensures db'.invitations[i].id != db'.invitations[j].id
    {
      assert db'.invitations[i] == db.invitations[i];
      if j < |db.invitations| {
        assert db'.invitations[j] == db.invitations[j];
      } else {
        assert db.invitations[i] in db.invitations;
      }
    }
    forall w | w in db'.invitations
      ensures HasRoom(db', w.room) && HasUser(db', w.invitedUser) && HasUser(db', w.invitingUser)
    {
      if w != v {
        assert w in db.invitations;
      }
    }
  }

  /** Rewriting the status column of the invitation table keeps the constraints. */
  lemma {:induction false} StatusChangePreservesValid(db: Db, id: InvitationId, status: InvitationStatus)
    requires Valid(db)
    ensures Valid(db.(invitations := SetStatus(db.invitations, id, status)))
  {
    var vs' := SetStatus(db.invitations, id, status);
    SetStatusKeepsKeys(db.invitations, id, status);
    forall w | w in vs'
      ensures HasRoom(db, w.room) && HasUser(db, w.invitedUser) && HasUser(db, w.invitingUser)
    {
      var i :| 0 <= i < |vs'| && vs'[i] == w;
      assert db.invitations[i] in db.invitations;
    }
  }

  /** Rewriting the status column leaves every other column of every row as it was. */
  lemma SetStatusKeepsKeys(vs: seq<RoomInvitation>, id: InvitationId, status: InvitationStatus)
    ensures var vs' := SetStatus(vs, id, status);
            |vs'| == |vs|
            && forall i | 0 <= i < |vs| ::
                 vs'[i].id == vs[i].id && vs'[i].room == vs[i].room
                 && vs'[i].invitedUser == vs[i].invitedUser && vs'[i].invitingUser == vs[i].invitingUser
  {
  }

  /** Adding a join-table row between an existing user and an existing room keeps the constraints. */
  lemma {:induction false} AddMembershipPreservesValid(db: Db, uid: UserId, rid: RoomId)
    requires Valid(db) && HasUser(db, uid) && HasRoom(db, rid)
    ensures Valid(db.(memberships := db.memberships + {(uid, rid)}))
  {
  }

  // ---------------------------------------------------------------------
  // Membership round trips
  // ---------------------------------------------------------------------

  /** The creator of a new room passes the membership check for it by name. */
  lemma {:induction false} CreatorIsMember(db: Db, request: CreateRoomRequest, creator: User)
    requires Valid(db) && creator in db.users
    ensures CreateRoom(db, request, creator).Ok? ==>
              var (db', room) := CreateRoom(db, request, creator).value;
              IsUserMemberOfRoom(db', Some(creator.username), Some(room.name))
  {
    var r := CreateRoom(db, request, creator);
    if r.Ok? {
      var (db', room) := r.value;
      CreateRoomPreservesValid(db, request, creator);
      assert creator in db'.users && room in db'.rooms;
      IsUserMemberOfRoomIffJoined(db', creator.username, room.name);
    }
  }

  /** Joining a room that is not General and then leaving it restores the state. */
  lemma JoinThenLeave(db: Db, roomId: RoomId, user: User)
    requires JoinRoom(db, roomId, user).Ok?
    requires !EqualsIgnoreCase(GeneralRoomName, FindRoomById(db, roomId).value.name)
    ensures LeaveRoom(JoinRoom(db, roomId, user).value, roomId, user) == Ok(db)
  {
    var db1 := JoinRoom(db, roomId, user).value;
    assert FindRoomById(db1, roomId) == FindRoomById(db, roomId);
    assert db1.memberships - {(user.id, roomId)} == db.memberships;
  }

  /** Leaving a public room and joining it again restores the state. */
  lemma LeaveThenJoin(db: Db, roomId: RoomId, user: User)
    requires LeaveRoom(db, roomId, user).Ok?
    requires FindRoomById(db, roomId).value.isPublic
    ensures JoinRoom(LeaveRoom(db, roomId, user).value, roomId, user) == Ok(db)
  {
    var db1 := LeaveRoom(db, roomId, user).value;
    assert FindRoomById(db1, roomId) == FindRoomById(db, roomId);
    assert db1.memberships + {(user.id, roomId)} == db.memberships;
  }

  /** A second join of the same room is refused with BAD_REQUEST. */
  lemma JoinTwiceIsBadRequest(db: Db, roomId: RoomId, user: User)
    requires JoinRoom(db, roomId, user).Ok?
    ensures JoinRoom(JoinRoom(db, roomId, user).value, roomId, user) == Err(BadRequest)
  {
    var db1 := JoinRoom(db, roomId, user).value;
    assert FindRoomById(db1, roomId) == FindRoomById(db, roomId);
    assert FindUserById(db1, user.id) == FindUserById(db, user.id);
  }

  /** After a join the user passes the subscription membership check for the room by name. */
  lemma {:induction false} JoinedUserIsMember(db: Db, roomId: RoomId, user: User)
    requires Valid(db) && user in db.users
    requires JoinRoom(db, roomId, user).Ok?
    ensures IsUserMemberOfRoom(JoinRoom(db, roomId, user).value, Some(user.username),
                               Some(FindRoomById(db, roomId).value.name))
  {
    var db1 := JoinRoom(db, roomId, user).value;
    var room := FindRoomById(db, roomId).value;
    JoinRoomPreservesValid(db, roomId, user);
    assert room in db1.rooms && user in db1.users && (user.id, room.id) in db1.memberships;
    IsUserMemberOfRoomIffJoined(db1, user.username, room.name);
  }

  /** After leaving, the user fails the membership check for that room. */
  lemma {:induction false} LeftUserIsNotMember(db: Db, roomId: RoomId, user: User)
    requires Valid(db) && user in db.users
    requires LeaveRoom(db, roomId, user).Ok?
    ensures !IsUserMemberOfRoom(LeaveRoom(db, roomId, user).value, Some(user.username),
                                Some(FindRoomById(db, roomId).value.name))
  {
    var db1 := LeaveRoom(db, roomId, user).value;
    var room := FindRoomById(db, roomId).value;
    LeaveRoomPreservesValid(db, roomId, user);
    forall u, r | u in db1.users && r in db1.rooms && u.username == user.username && r.name == room.name
      ensures (u.id, r.id) !in db1.memberships
    {
      FindByUsernameIsTheNamedUser(db1, u);
      FindByUsernameIsTheNamedUser(db1, user);
      FindByNameIsTheNamedRoom(db1, room.name);
      assert room in NamedRooms(db1, room.name) && r in NamedRooms(db1, room.name);
    }
    IsUserMemberOfRoomIffJoined(db1, user.username, room.name);
  }

  // ---------------------------------------------------------------------
  // Online members
  // ---------------------------------------------------------------------

  /** Every online member reported belongs to the room. */
  lemma OnlineMembersAreMembers(db: Db, keys: KeyStore, roomId: RoomId)
    requires GetOnlineMembers(db, keys, roomId).Ok?
    ensures GetOnlineMembers(db, keys, roomId).value.usernames <= set u | u in Members(db, roomId) :: u.username
  {
    var names := GetOnlineMembers(db, keys, roomId).value.usernames;
    forall name | name in names ensures name in set u | u in Members(db, roomId) :: u.username {
      var u :| u in Members(db, roomId) && u.username == name;
    }
  }

  // ---------------------------------------------------------------------
  // Invitation workflow
  // ---------------------------------------------------------------------

  /** Declining the only candidate row leaves no PENDING invitation for that room and user. */
  lemma {:induction false} DeclinedLeavesNonePending(vs: seq<RoomInvitation>, v: RoomInvitation, rid: RoomId, uid: UserId)
    requires forall w | w in vs :: w.id != v.id
    requires forall w | w in vs :: !(w.room == rid && w.invitedUser == uid && w.status == Pending)
    ensures forall w | w in SetStatus(vs + [v], v.id, Declined) ::
              !(w.room == rid && w.invitedUser == uid && w.status == Pending)
  {
    var vs' := SetStatus(vs + [v], v.id, Declined);
    forall w | w in vs' ensures !(w.room == rid && w.invitedUser == uid && w.status == Pending) {
      var i :| 0 <= i < |vs'| && vs'[i] == w;
      if i < |vs| {
        assert (vs + [v])[i] == vs[i] && vs[i] in vs;
      }
    }
  }

  /**
   * When the invited user accepts a fresh invitation, it ends up a member of
   * the room and the invitation can no longer be accepted or declined.
   */
  lemma {:induction false} InviteThenAccept(db: Db, roomId: RoomId, invitee: User, inviting: User)
    requires Valid(db) && invitee in db.users
    requires InviteUserToRoom(db, roomId, invitee.username, inviting).Ok?
    ensures var db1 := InviteUserToRoom(db, roomId, invitee.username, inviting).value.db;
            var v := db1.invitations[|db.invitations|];
            && AcceptRoomInvitationAndAddUser(db1, v.id, invitee).Ok?
            && var db2 := AcceptRoomInvitationAndAddUser(db1, v.id, invitee).value.db;
            && (invitee.id, roomId) in db2.memberships
            && AcceptRoomInvitationAndAddUser(db2, v.id, invitee) == Err(BadRequest)
            && DeclineRoomInvitation(db2, v.id, invitee) == Err(BadRequest)
  {
    var db1 := InviteUserToRoom(db, roomId, invitee.username, inviting).value.db;
    var v := db1.invitations[|db.invitations|];
    AcceptFreshInvitation(db, roomId, invitee, inviting);
    var db2 := AcceptRoomInvitationAndAddUser(db1, v.id, invitee).value.db;
    AcceptPreservesValid(db1, v.id, invitee);
    var vs2 := SetStatus(db1.invitations, v.id, Accepted);
    assert vs2[|db.invitations|] == v.(status := Accepted);
    NoLongerPending(db2, v.(status := Accepted), invitee);
  }

  /** A fresh invitation can be accepted by the invitee, who then belongs to the room. */
  lemma {:induction false} AcceptFreshInvitation(db: Db, roomId: RoomId, invitee: User, inviting: User)
    requires Valid(db) && invitee in db.users
    requires InviteUserToRoom(db, roomId, invitee.username, inviting).Ok?
    ensures var db1 := InviteUserToRoom(db, roomId, invitee.username, inviting).value.db;
            var v := db1.invitations[|db.invitations|];
            && Valid(db1)
            && AcceptRoomInvitationAndAddUser(db1, v.id, invitee).Ok?
            && (invitee.id, roomId) in AcceptRoomInvitationAndAddUser(db1, v.id, invitee).value.db.memberships
  {
    var db1 := InviteUserToRoom(db, roomId, invitee.username, inviting).value.db;
    var v := db1.invitations[|db.invitations|];
    InviteUserToRoomPreservesValid(db, roomId, invitee.username, inviting);
    assert v in db1.invitations && v.room == roomId && v.status == Pending;
    AcceptPendingInvitation(db1, v, invitee);
  }

  /** A PENDING invitation can be accepted by any registered user, who then belongs to its room. */
  lemma {:induction false} AcceptPendingInvitation(db: Db, v: RoomInvitation, accepting: User)
    requires Valid(db) && v in db.invitations && v.status == Pending && accepting in db.users
    ensures AcceptRoomInvitationAndAddUser(db, v.id, accepting).Ok?
    ensures (accepting.id, v.room) in AcceptRoomInvitationAndAddUser(db, v.id, accepting).value.db.memberships
  {
    FindInvitationIsTheRow(db, v);
    assert HasUser(db, accepting.id) by { assert accepting in db.users; }
    assert HasUser(db, v.invitingUser) && HasRoom(db, v.room);
  }

  /** An invitation that is no longer PENDING can be neither accepted nor declined, by anyone. */
  lemma {:induction false} NoLongerPending(db: Db, v: RoomInvitation, caller: User)
    requires Valid(db) && v in db.invitations && v.status != Pending
    ensures AcceptRoomInvitationAndAddUser(db, v.id, caller) == Err(BadRequest)
    ensures DeclineRoomInvitation(db, v.id, caller) == Err(BadRequest)
  {
    FindInvitationIsTheRow(db, v);
  }

  /**
   * Declining a fresh invitation leaves membership unchanged, and the same
   * inviter may then invite the same user again.
   */
  lemma {:induction false} InviteThenDecline(db: Db, roomId: RoomId, invitee: User, inviting: User)
    requires Valid(db) && invitee in db.users
    requires InviteUserToRoom(db, roomId, invitee.username, inviting).Ok?
    ensures var db1 := InviteUserToRoom(db, roomId, invitee.username, inviting).value.db;
            var v := db1.invitations[|db.invitations|];
            && DeclineRoomInvitation(db1, v.id, invitee).Ok?
            && var db2 := DeclineRoomInvitation(db1, v.id, invitee).value;
            && db2.memberships == db.memberships
            && InviteUserToRoom(db2, roomId, invitee.username, inviting).Ok?
  {
    var db1 := InviteUserToRoom(db, roomId, invitee.username, inviting).value.db;
    var v := db1.invitations[|db.invitations|];
    DeclineFreshInvitation(db, roomId, invitee, inviting);
    var db2 := DeclineRoomInvitation(db1, v.id, invitee).value;
    var u := FindByUsername(db, invitee.username).value;
    assert !HasPendingInvitation(db, roomId, u.id);
    DeclinedLeavesNonePending(db.invitations, v, roomId, u.id);
    assert db2.invitations == SetStatus(db.invitations + [v], v.id, Declined);
    ReinviteWhenNonePending(db, db2, roomId, invitee.username, inviting);
  }

  /** Declining a fresh invitation marks exactly that row DECLINED and changes nothing else. */
  lemma {:induction false} DeclineFreshInvitation(db: Db, roomId: RoomId, invitee: User, inviting: User)
    requires Valid(db)
    requires InviteUserToRoom(db, roomId, invitee.username, inviting).Ok?
    ensures var db1 := InviteUserToRoom(db, roomId, invitee.username, inviting).value.db;
            var v := db1.invitations[|db.invitations|];
            DeclineRoomInvitation(db1, v.id, invitee) == Ok(db.(invitations := SetStatus(db.invitations + [v], v.id, Declined)))
  {
    var db1 := InviteUserToRoom(db, roomId, invitee.username, inviting).value.db;
    var v := db1.invitations[|db.invitations|];
    InviteUserToRoomPreservesValid(db, roomId, invitee.username, inviting);
    FindInvitationIsTheRow(db1, v);
  }

  /**
   * An invitation that was accepted by the guards of `db` is accepted again in
   * any state with the same users, rooms and members and no PENDING row for it.
   */
  lemma {:induction false} ReinviteWhenNonePending(db: Db, db2: Db, roomId: RoomId, username: string, inviting: User)
    requires InviteUserToRoom(db, roomId, username, inviting).Ok?
    requires db2.users == db.users && db2.rooms == db.rooms && db2.memberships == db.memberships
    requires forall w | w in db2.invitations ::
               !(w.room == roomId && w.invitedUser == FindByUsername(db, username).value.id && w.status == Pending)
    ensures InviteUserToRoom(db2, roomId, username, inviting).Ok?
  {
    assert FindRoomById(db2, roomId) == FindRoomById(db, roomId);
    assert FindByUsername(db2, username) == FindByUsername(db, username);
    assert FindUserById(db2, inviting.id) == FindUserById(db, inviting.id);
  }

  /** Under unique invitation ids, `findById` returns the row carrying that id. */
  lemma {:induction false} FindInvitationIsTheRow(db: Db, v: RoomInvitation)
    requires Valid(db) && v in db.invitations
    ensures FindInvitationById(db, v.id) == Some(v)
  {
    FirstOfUnique(db.invitations, (x: RoomInvitation) => x.id == v.id, v);
  }
}
