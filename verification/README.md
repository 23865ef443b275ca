# Chat application core, modelled in Dafny

This project models the logic of a Spring and Angular chat application:
- Room service: Room membership and invitations in `ChatRoomService`, over the repository queries of `ChatRoomRepository` and `UserRepository`.
- Subscription authorizer: The STOMP policy table in `SecurityConfig.messageAuthorizationManager`.
- Presence tracker: `WebSocketEventListener`, which writes Redis online keys and broadcasts presence.
- Message pipeline: The Kafka consumer, its retry and dead-letter policy, and the STOMP controller.
- Client helpers: The room-name validator, the current-user filter pipe, and the list bookkeeping of `WebsocketService`.

The model follows these conventions:
- Tables: The JPA tables are sequences in id order, so `findBy…` lookups are first-match scans.
- Queries: Queries without an ORDER BY are sets.
- Membership: The `user_chat_room` join table is one relation `set<(UserId, RoomId)>`. `ChatRoom.members` is derived from it.
- Errors: Every transition returns `Ok` with a new state and the messages it sent, or `Err` with the HTTP status of the `ResponseStatusException`. `Err` carries no state: the `@Transactional` rollback leaves the store as it was.
- Oracles: Redis, Kafka and the broker become explicit data. Redis is a set of keys. What `save`, `convertAndSend` and `acknowledge` do on each delivery is a per-attempt oracle. Each operation returns its calls in order.

Modules, one per file:
- `Common`: Option, Result, HTTP status, first-match search.
- `Text`: Java and JavaScript trimming, ASCII `equalsIgnoreCase`, AntPathMatcher tokens.
- `Rooms`: entities, the store invariant `Valid`, and the repository queries.
- `Wire`: payloads and destinations.
- `ChatRoomService`: the service transitions.
- `RoomProperties`: invariants and round trips of the service.
- `MessageSecurity`: the authorizer, and its equivalence to a route-by-route reading.
- `PresenceTracker`: connect and disconnect.
- `MessagePipeline`: the consumer, the error handler and the controller.
- `Client`: the frontend helpers.
- `Scenarios`: properties that span the service and the authorizer.

Two behaviours of the code are kept as written:
- The room variable is a name: The authorizer's `{roomId}` path variable is passed to `isUserMemberOfRoom` as a room NAME, so `/topic/chat/<x>` is guarded by membership of the room named `x`. The consumer, however, broadcasts to `/topic/chat/<message.roomId>`. The model uses the same string for both and states every authorizer property in terms of room names.
- Acceptance adds the caller: `acceptRoomInvitationAndAddUser` adds the CALLER to the room, not the invited user, and neither it nor `declineRoomInvitation` checks that the caller is the invitee.

## Model

| member | source | states |
|---|---|---|
| Common.FirstOfUnique | backend/src/main/java/com/chatapp/backend/repository/ChatRoomRepository.java:13 | when at most one row satisfies a condition, the first-match scan returns exactly that row |
| Text.TrimIsInfix | backend/src/main/java/com/chatapp/backend/service/ChatRoomService.java:63 | a trim is a contiguous part of the input, and only trimmable characters are cut from either end |
| Text.TrimIdempotent | frontend/src/app/components/create-room-dialog/create-room-dialog.component.ts:20 | trimming a trimmed string changes nothing |
| Text.TrimEmptyIffAllSpace | frontend/src/app/components/create-room-dialog/create-room-dialog.component.ts:22-28 | a string trims to empty exactly when every character is whitespace |
| Text.TokensOfJoined | backend/src/main/java/com/chatapp/backend/config/SecurityConfig.java:114-130 | splitting a '/'-joined path into AntPathMatcher tokens gives back its segments |
| Rooms.FindRoomById | backend/src/main/java/com/chatapp/backend/service/ChatRoomService.java:106-109 | finds a row with that id exactly when one exists |
| Rooms.FindByName | backend/src/main/java/com/chatapp/backend/repository/ChatRoomRepository.java:13 | returns a room with that name, and none exactly when no room has that name |
| Rooms.FindByUsername | backend/src/main/java/com/chatapp/backend/repository/UserRepository.java:9 | returns a user with that username, and none exactly when no user has it |
| Rooms.FindChatRoomsByUserId | backend/src/main/java/com/chatapp/backend/repository/ChatRoomRepository.java:15-16 | a room is in the result exactly when it is stored and the join table pairs it with the user |
| Rooms.FindDiscoverableRoomsForUser | backend/src/main/java/com/chatapp/backend/repository/ChatRoomRepository.java:26-28 | every room returned is public and not one of the user's rooms; every such public room is returned |
| Rooms.NextRoomId | backend/src/main/java/com/chatapp/backend/model/ChatRoom.java:24 | a generated room id is not in use |
| Rooms.FindByNameIsTheNamedRoom | backend/src/main/java/com/chatapp/backend/model/ChatRoom.java:24 | under unique names at most one room has a name, and `findByName` returns it |
| Rooms.FindByUsernameIsTheNamedUser | backend/src/main/java/com/chatapp/backend/model/User.java:25 | under unique usernames `findByUsername` returns the user with that name |
| Rooms.ExistsByUsernameMeansMembership | backend/src/main/java/com/chatapp/backend/repository/UserRepository.java:13 | `existsByUsernameAndChatRooms_Id` holds exactly when the named user has that room; it is false for an unknown user or room |
| Rooms.MembershipIsMirrored | backend/src/main/java/com/chatapp/backend/model/User.java:34-40 | a room is among the user's rooms exactly when the user is among the room's members |
| Rooms.DiscoverAllWhenInNoRoom | backend/src/test/java/com/chatapp/backend/repository/ChatRoomRepositoryTest.java:218-240 | a user in no room discovers exactly the public rooms |
| Wire.TopicsInjective | backend/src/main/java/com/chatapp/backend/listener/WebSocketEventListener.java:126-128 | distinct rooms have distinct chat, typing and presence topics: each of the three topics determines its room |
| ChatRoomService.IsUserMemberOfRoom | backend/src/main/java/com/chatapp/backend/service/ChatRoomService.java:46-59 | false for a null username, a null room name or an unknown room; true only for a member of a room of that name |
| ChatRoomService.IsUserMemberOfRoomIffJoined | backend/src/main/java/com/chatapp/backend/service/ChatRoomService.java:46-59 | in a valid store, true exactly when the user and the named room exist and are joined |
| ChatRoomService.CreateRoom | backend/src/main/java/com/chatapp/backend/service/ChatRoomService.java:62-87 | BAD_REQUEST exactly when the trimmed name is taken; otherwise it adds a room with the trimmed name, which is public unless the request says false, was created by the creator, and has the creator as a member; nothing else changes; no character of the name is refused |
| ChatRoomService.CreateRoutableRoom | backend/src/main/java/com/chatapp/backend/service/ChatRoomService.java:62-70 | the corrected createRoom: BAD_REQUEST exactly when the trimmed name is empty, holds '/' or is taken; otherwise it acts as createRoom; a store whose room names are all one segment stays so |
| ChatRoomService.JoinRoom | backend/src/main/java/com/chatapp/backend/service/ChatRoomService.java:103-132 | NOT_FOUND, then INTERNAL_SERVER_ERROR, FORBIDDEN, BAD_REQUEST, each exactly in its case and in that order; on success only that membership is added |
| ChatRoomService.LeaveRoom | backend/src/main/java/com/chatapp/backend/service/ChatRoomService.java:135-164 | NOT_FOUND for an unknown room; BAD_REQUEST exactly when the room is "General" in any case (checked before the user lookup) or a stored user is not a member; success exactly when the room is not "General", the user is stored and is a member (no visibility check); on success only that membership is removed |
| ChatRoomService.GetOnlineMembers | backend/src/main/java/com/chatapp/backend/service/ChatRoomService.java:179-197 | NOT_FOUND exactly for an unknown room; otherwise the members whose online key is present, after probing exactly the members' keys, and nothing for an empty room |
| ChatRoomService.InviteUserToRoom | backend/src/main/java/com/chatapp/backend/service/ChatRoomService.java:200-256 | each error code in exactly its case, and success exactly when the room exists, the inviter is a member, the invitee exists, is not the inviter, is not a member and has no PENDING invitation, and the inviter is a stored user; on success one new PENDING invitation is appended and the invitee is notified once on `/queue/invitations` |
| ChatRoomService.SetStatus | backend/src/main/java/com/chatapp/backend/service/ChatRoomService.java:282-283 | only the row with that id changes, and only in its status |
| ChatRoomService.AcceptRoomInvitationAndAddUser | backend/src/main/java/com/chatapp/backend/service/ChatRoomService.java:260-301 | NOT_FOUND for an unknown invitation; BAD_REQUEST unless PENDING; on success the caller is a member, with no duplicate, the invitation is ACCEPTED, and exactly one notification goes out: INVITATION_ACCEPTED with the room id, the room name and the accepting user's name, to the inviting user's notifications queue |
| ChatRoomService.DeclineRoomInvitation | backend/src/main/java/com/chatapp/backend/service/ChatRoomService.java:304-316 | NOT_FOUND for an unknown invitation; BAD_REQUEST exactly when not PENDING; on success only the status becomes DECLINED |
| RoomProperties.CreateRoomPreservesValid | backend/src/main/java/com/chatapp/backend/service/ChatRoomService.java:62-87 | creating a room keeps ids and names unique and the foreign keys intact |
| RoomProperties.JoinRoomPreservesValid | backend/src/main/java/com/chatapp/backend/service/ChatRoomService.java:103-132 | joining keeps the store invariant |
| RoomProperties.LeaveRoomPreservesValid | backend/src/main/java/com/chatapp/backend/service/ChatRoomService.java:135-164 | leaving keeps the store invariant |
| RoomProperties.InviteUserToRoomPreservesValid | backend/src/main/java/com/chatapp/backend/service/ChatRoomService.java:200-256 | inviting keeps the store invariant |
| RoomProperties.AcceptPreservesValid | backend/src/main/java/com/chatapp/backend/service/ChatRoomService.java:260-301 | accepting keeps the store invariant |
| RoomProperties.DeclinePreservesValid | backend/src/main/java/com/chatapp/backend/service/ChatRoomService.java:304-316 | declining keeps the store invariant |
| RoomProperties.CreatorIsMember | backend/src/main/java/com/chatapp/backend/service/ChatRoomService.java:76-81 | after a successful create the creator is a member of the new room by name |
| RoomProperties.JoinThenLeave | backend/src/main/java/com/chatapp/backend/service/ChatRoomService.java:103-164 | leaving a joined room other than "General" restores the store exactly |
| RoomProperties.LeaveThenJoin | backend/src/main/java/com/chatapp/backend/service/ChatRoomService.java:103-164 | rejoining a public room just left restores the store exactly |
| RoomProperties.JoinTwiceIsBadRequest | backend/src/main/java/com/chatapp/backend/service/ChatRoomService.java:122-126 | a second join of the same room is BAD_REQUEST |
| RoomProperties.JoinedUserIsMember | backend/src/main/java/com/chatapp/backend/service/ChatRoomService.java:103-132 | after joining, `isUserMemberOfRoom` holds for the user and the room's name |
| RoomProperties.LeftUserIsNotMember | backend/src/main/java/com/chatapp/backend/service/ChatRoomService.java:135-164 | after leaving, `isUserMemberOfRoom` is false for the user and the room's name |
| RoomProperties.OnlineMembersAreMembers | backend/src/main/java/com/chatapp/backend/service/ChatRoomService.java:179-197 | the online members are a subset of the room's members |
| RoomProperties.InviteThenAccept | backend/src/main/java/com/chatapp/backend/service/ChatRoomService.java:200-301 | an invitation just made can be accepted by the invitee, who becomes a member; accepting or declining it again is BAD_REQUEST |
| RoomProperties.InviteThenDecline | backend/src/main/java/com/chatapp/backend/service/ChatRoomService.java:200-316 | a declined invitation leaves the memberships as they were, and the same user can be invited again |
| RoomProperties.DeclineFreshInvitation | backend/src/main/java/com/chatapp/backend/service/ChatRoomService.java:304-316 | declining a fresh invitation marks exactly that row DECLINED and changes nothing else |
| RoomProperties.AcceptFreshInvitation | backend/src/main/java/com/chatapp/backend/service/ChatRoomService.java:200-301 | an invitation just made keeps the store invariant and can be accepted by the invitee, who then belongs to the room |
| RoomProperties.AcceptPendingInvitation | backend/src/main/java/com/chatapp/backend/service/ChatRoomService.java:260-301 | any PENDING invitation can be accepted by any registered user, and that caller then belongs to the invitation's room |
| RoomProperties.NoLongerPending | backend/src/main/java/com/chatapp/backend/service/ChatRoomService.java:266-268 | an invitation that is not PENDING is refused with BAD_REQUEST by both accept and decline, whoever calls |
| RoomProperties.StatusChangePreservesValid | backend/src/main/java/com/chatapp/backend/service/ChatRoomService.java:282-283 | rewriting an invitation's status keeps ids unique and every invitation pointing at an existing room and users |
| RoomProperties.FindInvitationIsTheRow | backend/src/main/java/com/chatapp/backend/service/ChatRoomService.java:263-264 | under unique ids the lookup by id returns that invitation |
| MessageSecurity.MatchSegments | backend/src/main/java/com/chatapp/backend/config/SecurityConfig.java:115 | a pattern prefix matches exactly when each segment matches its token; every bound variable holds its token |
| MessageSecurity.MatchPattern | backend/src/main/java/com/chatapp/backend/config/SecurityConfig.java:114-130 | a destination matches a `prefix/**` pattern exactly as the token-wise reading says |
| MessageSecurity.PatternsMatchRoutes | backend/src/main/java/com/chatapp/backend/config/SecurityConfig.java:114-130 | each of the five destination patterns matches exactly the destinations of its route |
| MessageSecurity.DecidingEntryByRoute | backend/src/main/java/com/chatapp/backend/config/SecurityConfig.java:113-132 | the first matching rule is the one the frame's type and route select |
| MessageSecurity.AuthorizeIsExpected | backend/src/main/java/com/chatapp/backend/config/SecurityConfig.java:111-135 | the first-match policy decides every frame exactly as the route-by-route reading does |
| MessageSecurity.RoomSubscriptionIsExpected | backend/src/main/java/com/chatapp/backend/config/SecurityConfig.java:115-129 | a subscription to a room's chat or typing topic is decided as the route-by-route reading says: by membership of the room the destination names |
| MessageSecurity.LifecycleFramesAlwaysAllowed | backend/src/main/java/com/chatapp/backend/config/SecurityConfig.java:113 | CONNECT, HEARTBEAT, UNSUBSCRIBE and DISCONNECT pass for any principal |
| MessageSecurity.AppNeedsAuthentication | backend/src/main/java/com/chatapp/backend/config/SecurityConfig.java:114 | any non-lifecycle frame to `/app/**` passes exactly for an authenticated principal |
| MessageSecurity.RoomTopicSubscription | backend/src/main/java/com/chatapp/backend/config/SecurityConfig.java:115-129 | for a room name that is one path segment (not empty, no '/'), subscribing to its chat or typing topic passes exactly for an authenticated, non-"anonymousUser" principal that is a member of the room of that name |
| MessageSecurity.SlashNameRoutesToFirstSegment | backend/src/main/java/com/chatapp/backend/config/SecurityConfig.java:115 | the chat and typing topics of a name `a/b` bind `{roomId}` to `a` |
| MessageSecurity.SlashNameIsDecidedByFirstSegment | backend/src/main/java/com/chatapp/backend/config/SecurityConfig.java:115-127 | subscribing to the topics of a room named `a/b` is decided by membership of the room named `a` |
| MessageSecurity.RoomTopicRefusesAnonymous | backend/src/main/java/com/chatapp/backend/config/SecurityConfig.java:117-120 | a null, unauthenticated or "anonymousUser" principal never gets a room topic |
| MessageSecurity.PresenceNeedsAuthenticationOnly | backend/src/main/java/com/chatapp/backend/config/SecurityConfig.java:130 | subscribing to a presence topic needs authentication and nothing else |
| MessageSecurity.UserQueueNeedsAuthenticationOnly | backend/src/main/java/com/chatapp/backend/config/SecurityConfig.java:130 | subscribing under `/user` needs authentication and nothing else |
| MessageSecurity.EverythingElseDenied | backend/src/main/java/com/chatapp/backend/config/SecurityConfig.java:131-132 | a non-lifecycle frame without a destination, or to an unrouted one, is refused |
| PresenceTracker.ExtractUsername | backend/src/main/java/com/chatapp/backend/listener/WebSocketEventListener.java:130-142 | a token's UserDetails gives its username, a token's String gives itself, a token's null or other object gives "anonymous", any other principal gives its name, and no principal gives "anonymous" |
| PresenceTracker.RoomsOf | backend/src/main/java/com/chatapp/backend/repository/ChatRoomRepository.java:15-16 | the rooms handed to the loop are exactly the user's rooms |
| PresenceTracker.HandleConnect | backend/src/main/java/com/chatapp/backend/listener/WebSocketEventListener.java:45-76 | an anonymous session changes nothing and does nothing; otherwise the key is written first, then the user is looked up |
| PresenceTracker.HandleDisconnect | backend/src/main/java/com/chatapp/backend/listener/WebSocketEventListener.java:78-114 | an anonymous session changes nothing; otherwise the key is deleted first, then the user is looked up |
| PresenceTracker.OnlineKeysAgree | backend/src/main/java/com/chatapp/backend/listener/WebSocketEventListener.java:122-124 | the listener's key is the one `getOnlineMembers` reads, and distinct users have distinct keys |
| PresenceTracker.UnknownUserBroadcastsNothing | backend/src/main/java/com/chatapp/backend/listener/WebSocketEventListener.java:57-64 | for a missing user row the key is still written but nothing is broadcast, on connect or disconnect |
| PresenceTracker.ConnectAnnouncesToEveryRoom | backend/src/main/java/com/chatapp/backend/listener/WebSocketEventListener.java:66-75 | connect sends `{username, online: true}` to the presence topic of every room of the user and to nothing else |
| PresenceTracker.ConnectAnnouncesOncePerRoom | backend/src/main/java/com/chatapp/backend/listener/WebSocketEventListener.java:70-75 | no presence update of a connect is sent twice |
| PresenceTracker.DisconnectAnnouncesToEveryRoom | backend/src/main/java/com/chatapp/backend/listener/WebSocketEventListener.java:92-113 | disconnect sends `{username, online: false}` once to every room of the user and to nothing else |
| PresenceTracker.ConnectThenDisconnect | backend/src/main/java/com/chatapp/backend/listener/WebSocketEventListener.java:57-92 | after connect and then disconnect the key is absent and every other key is as before |
| PresenceTracker.ConnectedUserIsOnline | backend/src/main/java/com/chatapp/backend/service/ChatRoomService.java:186-194 | after connect the user is among the online members of each room it belongs to |
| PresenceTracker.DisconnectedUserIsOffline | backend/src/main/java/com/chatapp/backend/service/ChatRoomService.java:186-194 | after disconnect the user is online in no room |
| MessagePipeline.SavedMessage | backend/src/main/java/com/chatapp/backend/service/KafkaConsumerService.java:33 | the saved row is the consumed message with its generated id and nothing else changed |
| MessagePipeline.ConsumeMessage | backend/src/main/java/com/chatapp/backend/service/KafkaConsumerService.java:28-46 | every delivery starts by saving the consumed message |
| MessagePipeline.ConsumeMessageOrder | backend/src/main/java/com/chatapp/backend/service/KafkaConsumerService.java:28-46 | a delivery sends the saved message, with its id, to its room's chat topic only after a successful save; it acknowledges exactly when the save and the send both succeeded, and the acknowledgement is its last call; it fails exactly when one of the three throws, and a failed save ends it |
| MessagePipeline.FailureOfDelivery | backend/src/main/java/com/chatapp/backend/service/KafkaConsumerService.java:41-44 | the exception a delivery rethrows is the first one thrown by the save, the send or the acknowledge |
| MessagePipeline.Deliver | backend/src/main/java/com/chatapp/backend/config/KafkaConfig.java:31-43 | each delivery from the given one on makes at least one more attempt and never exceeds 4 in all; a record that is not retried further is published with what its last delivery received, including the id that delivery's save wrote into it (see `DeadLetterIsLastDeliveryRecord`) |
| MessagePipeline.DeadLetterRecord | backend/src/main/java/com/chatapp/backend/service/KafkaConsumerService.java:29-33 | the published record is the received message with the generated id when that delivery saved a message that had no id, because `save` persists the received object in place; it is the message as consumed when the save threw or the message already had an id |
| MessagePipeline.DeadLetterIsLastDeliveryRecord | backend/src/main/java/com/chatapp/backend/config/KafkaConfig.java:35-40 | a dead-lettered record's last call publishes the dead-letter record of its last delivery |
| MessagePipeline.DeadLetterCarriesGeneratedId | backend/src/main/java/com/chatapp/backend/service/KafkaConsumerService.java:29-44 | a record consumed without an id whose fourth delivery saved it and then failed is dead-lettered carrying the id that save generated, the same message that delivery broadcast |
| MessagePipeline.ProcessRecord | backend/src/main/java/com/chatapp/backend/config/KafkaConfig.java:33 | a record is delivered at least once and at most 4 times |
| MessagePipeline.RunContainer | backend/src/main/java/com/chatapp/backend/config/KafkaConfig.java:31-43 | the container's delivery loop yields exactly the error handler's outcome, with between 1 and 4 deliveries |
| MessagePipeline.FirstDeliverySucceeds | backend/src/main/java/com/chatapp/backend/service/KafkaConsumerService.java:33-40 | a successful record is saved, broadcast with its id to `/topic/chat/<roomId>`, and acknowledged, once each and in that order |
| MessagePipeline.AlwaysFailingIsDeadLetteredAfterRetries | backend/src/main/java/com/chatapp/backend/config/KafkaConfig.java:31-42 | a record that always fails retryably is delivered 4 times, with one save per delivery, and ends with exactly one publication to "chat-messages-dlt" of the fourth delivery's record |
| MessagePipeline.RetriesRunOut | backend/src/main/java/com/chatapp/backend/config/KafkaConfig.java:33-38 | from any delivery on, if all remaining deliveries fail retryably, the deliveries run to 4 and end with the publication of the fourth delivery's record |
| MessagePipeline.IllegalArgumentIsNotRetried | backend/src/test/java/com/chatapp/backend/kafka/KafkaIntegrationTest.java:123-132 | an IllegalArgumentException on the first delivery means one delivery, one save and one dead-letter publication of that delivery's record; the chat topic is sent to exactly when that save succeeded, so a throwing save sends nothing |
| MessagePipeline.NotRetryableGoesStraightToDeadLetter | backend/src/main/java/com/chatapp/backend/config/KafkaConfig.java:40-41 | a first delivery that fails with a not-retryable exception (IllegalArgumentException, or one of the error handler's default not-retryable classes) is the only delivery, and the publication of its record to the dead-letter topic follows it directly |
| MessagePipeline.PermanentSaveFailureIsDeadLettered | backend/src/test/java/com/chatapp/backend/kafka/KafkaIntegrationTest.java:101-110 | when every save throws a retryable exception there are 4 deliveries, 4 saves, one dead-letter publication of the message as consumed, and no send to any chat topic |
| MessagePipeline.OneSavePerDelivery | backend/src/main/java/com/chatapp/backend/service/KafkaConsumerService.java:28-46 | each delivery calls `save` exactly once with the consumed message and never publishes any record to the dead-letter topic itself |
| MessagePipeline.RetriesSaveOncePerDelivery | backend/src/main/java/com/chatapp/backend/config/KafkaConfig.java:31-42 | when every delivery from attempt k on fails retryably, `save` is called once per remaining delivery, 4 - k times in all |
| MessagePipeline.RetriesDeadLetterOnce | backend/src/main/java/com/chatapp/backend/config/KafkaConfig.java:35-41 | when every delivery from attempt k on fails retryably, the fourth delivery's record is published to the dead-letter topic exactly once |
| MessagePipeline.CountIsMultiplicity | backend/src/test/java/com/chatapp/backend/kafka/KafkaIntegrationTest.java:106-110 | the number of times a call occurs in the recorded calls is its multiplicity, the quantity the test's `times(n)` and `never()` check |
| MessagePipeline.StopsAtFirstSuccess | backend/src/main/java/com/chatapp/backend/config/KafkaConfig.java:31-43 | deliveries stop at the first success, and a record is dead-lettered exactly when its last delivery failed |
| MessagePipeline.FailedSavesNeverBroadcast | backend/src/test/java/com/chatapp/backend/kafka/KafkaIntegrationTest.java:101-110 | when every save throws, nothing is ever sent to a chat topic and the record is dead-lettered |
| MessagePipeline.SendFollowsSave | backend/src/main/java/com/chatapp/backend/service/KafkaConsumerService.java:33-38 | every broadcast comes right after a save |
| MessagePipeline.AcknowledgedIffNotDeadLettered | backend/src/main/java/com/chatapp/backend/config/KafkaConfig.java:25 | when acknowledging never throws, a record is acknowledged exactly when it is not dead-lettered |
| MessagePipeline.FailingAcknowledgeDeadLettersASentRecord | backend/src/main/java/com/chatapp/backend/service/KafkaConsumerService.java:38-44 | a record whose acknowledge always throws is broadcast and still dead-lettered, after 4 saves |
| MessagePipeline.DeadLetterTopicsAgree | backend/src/main/java/com/chatapp/backend/service/KafkaConsumerService.java:48 | the dead-letter listener reads the recoverer's topic exactly when the chat topic is "chat-messages" |
| MessagePipeline.ConsumeDeadLetter | backend/src/main/java/com/chatapp/backend/service/KafkaConsumerService.java:48-55 | the dead-letter listener acknowledges, and never saves, sends, produces or republishes |
| MessagePipeline.SendMessage | backend/src/main/java/com/chatapp/backend/controller/ChatController.java:32-37 | a chat message goes to the producer once and is neither saved nor broadcast |
| MessagePipeline.HandleTyping | backend/src/main/java/com/chatapp/backend/controller/ChatController.java:39-52 | a null or empty room id is dropped; any other event is sent once, unchanged, to `/topic/typing/<roomId>`; nothing is saved or produced |
| Client.TrimmedRequiredMinLength | frontend/src/app/components/create-room-dialog/create-room-dialog.component.ts:12-36 | null and "" pass; a blank string is `whitespace`; a trim shorter than the minimum, in UTF-16 code units, is `minlength` with both lengths; anything else passes |
| Client.VerdictDependsOnlyOnTrim | frontend/src/app/components/create-room-dialog/create-room-dialog.component.ts:20-34 | values with the same non-empty trim get the same verdict |
| Client.RoomFormValidIff | frontend/src/app/components/create-room-dialog/create-room-dialog.component.ts:64 | the form is valid exactly for a value of at most 100 UTF-16 code units whose trim has at least 3 |
| Client.OnSubmit | frontend/src/app/components/create-room-dialog/create-room-dialog.component.ts:75-83 | nothing is submitted while invalid or in flight; otherwise the trimmed name, 3 to 100 UTF-16 code units long with no outer whitespace, is submitted and the dialog is in flight |
| Client.Utf16Length | frontend/src/app/components/create-room-dialog/create-room-dialog.component.ts:30 | JavaScript's `length` is between the number of characters and twice that, and equals it exactly when every character is in the Basic Multilingual Plane |
| Client.Utf16LengthAppend | frontend/src/app/components/create-room-dialog/create-room-dialog.component.ts:30 | the code-unit length of a concatenation is the sum of the lengths |
| Client.Utf16LengthOfTrim | frontend/src/app/components/create-room-dialog/create-room-dialog.component.ts:82 | trimming never makes a name longer in code units |
| Client.AstralCountsTwice | frontend/src/app/components/create-room-dialog/create-room-dialog.component.ts:30 | a string of characters outside the Basic Multilingual Plane has two code units per character |
| Client.EmojiCountsTwice | frontend/src/app/components/create-room-dialog/create-room-dialog.component.ts:30 | one emoji and one letter are two characters but three code units |
| Client.LongAstralNameIsRefused | frontend/src/app/components/create-room-dialog/create-room-dialog.component.ts:64 | a name of more than 50 emoji is invalid, although it has at most 100 characters |
| Client.SubmitIsNotRepeated | frontend/src/app/components/create-room-dialog/create-room-dialog.component.ts:76-80 | a second submit while one is in flight submits nothing |
| Client.Without | frontend/src/app/pipes/filter-current-user.pipe.ts:16 | the filter drops every entry of the user and keeps every other entry as often as it occurs |
| Client.WithoutIsSubsequence | frontend/src/app/pipes/filter-current-user.pipe.ts:16 | the kept entries stay in their original order |
| Client.WithoutAppend | frontend/src/app/pipes/filter-current-user.pipe.ts:16 | filtering a concatenation filters each part |
| Client.FilterCurrentUser | frontend/src/app/pipes/filter-current-user.pipe.ts:9-17 | null gives null; no or an empty current username gives the input; otherwise no entry of the current user remains and every other entry does |
| Client.FilterCurrentUserKeepsOrder | frontend/src/app/pipes/filter-current-user.pipe.ts:9-17 | the pipe's output is a subsequence of its input |
| Client.Upsert | frontend/src/app/services/websocket.service.ts:61-62 | after an update for a user, its one entry is last, and other users' entries keep their counts and order |
| Client.UpsertOverrides | frontend/src/app/services/websocket.service.ts:61-62 | a later update for the same user replaces an earlier one outright |
| Client.OnPresenceAsWritten | frontend/src/app/services/websocket.service.ts:58-63 | the handler as written counts a user online exactly when the body's `status` is "online" |
| Client.AsWrittenShowsEveryoneOffline | backend/src/main/java/com/chatapp/backend/listener/WebSocketEventListener.java:70 | whatever the listener announces, the handler as written records the user as offline |
| Client.PresenceMirrorsServer | frontend/src/app/services/websocket.service.ts:58-63 | the corrected handler records exactly the online flag the listener sent |
| Client.JoinRoom | frontend/src/app/services/websocket.service.ts:66-89 | the previous room subscription is dropped, the messages are cleared and the room is current; while connected the room's chat and typing topics are subscribed; while disconnected nothing is subscribed and the room subscription and typing subscriptions stay as they were |
| Client.JoinBeforeConnectSubscribesNothing | frontend/src/app/components/chat/chat.component.ts:200-201 | the chat page's first join, made before the connection is up, makes the room current but leaves the client subscribed to nothing |
| Client.SwitchingRoomsKeepsOldTypingSubscription | frontend/src/app/services/websocket.service.ts:83-88 | after switching rooms on a live connection the typing subscription of the room left is still open |
| Client.PresenceBody | backend/src/main/java/com/chatapp/backend/listener/WebSocketEventListener.java:70 | the listener's presence map carries the username and the online flag and no `status` field |
| Client.OnPresence | frontend/src/app/services/websocket.service.ts:58-63 | the corrected handler's last entry is the user with the `online` flag of the body |
| Client.OnPresenceMessage | frontend/src/app/services/websocket.service.ts:58-63 | with the corrected handler (it reads `online`, where the code reads `status`): a presence message changes only the presence list; the announced user's single entry is last and carries the body's `online` flag; every other user keeps its entries |
| Client.OnChatMessage | frontend/src/app/services/websocket.service.ts:76-80 | a message is appended and earlier messages are unchanged |
| Client.SendMessage | frontend/src/app/services/websocket.service.ts:91-100 | publishes once exactly when connected |
| Client.SendTyping | frontend/src/app/services/websocket.service.ts:102-113 | publishes the current room's typing event once exactly when connected and in a room |
| Client.TypingFromClientIsRelayed | backend/src/main/java/com/chatapp/backend/controller/ChatController.java:42-51 | a typing event the client publishes is relayed once to its current room's typing topic |
| Client.SendMessageNeedsAuthentication | backend/src/main/java/com/chatapp/backend/config/SecurityConfig.java:114 | the client's chat publish passes exactly for an authenticated session |
| Client.SendTypingNeedsAuthentication | backend/src/main/java/com/chatapp/backend/config/SecurityConfig.java:114 | the client's typing publish passes exactly for an authenticated session |
| Scenarios.JoinerMaySubscribe | backend/src/main/java/com/chatapp/backend/config/SecurityConfig.java:121-127 | in a store whose room names are one path segment each, after joining, the user's session may subscribe to the room's chat and typing topics |
| Scenarios.LeaverMayNotSubscribe | backend/src/main/java/com/chatapp/backend/config/SecurityConfig.java:121-127 | in a store whose room names are one path segment each, after leaving, the user's next subscription to the room's topics is refused |
| Scenarios.CreatorMaySubscribe | backend/src/main/java/com/chatapp/backend/service/ChatRoomService.java:76-81 | the creator of a room made by the corrected createRoom may subscribe to its chat and typing topics at once |
| Scenarios.MembershipChangesKeepRoutableNames | backend/src/main/java/com/chatapp/backend/service/ChatRoomService.java:103-160 | joining and leaving leave the room names alone, so a store whose names are one segment each stays so |
| Scenarios.AsWrittenAcceptsSlashName | backend/src/main/java/com/chatapp/backend/service/ChatRoomService.java:62-81 | as written, createRoom accepts the name "a/b" beside a room "a" and makes only its creator a member |
| Scenarios.AsWrittenSlashRoomAdmitsNonMember | backend/src/main/java/com/chatapp/backend/config/SecurityConfig.java:115-127 | in that store alice, a member of "a" only, is not a member of "a/b" yet may subscribe to its chat topic |
| Scenarios.CorrectedServiceRefusesSlashName | backend/src/main/java/com/chatapp/backend/service/ChatRoomService.java:62-70 | the corrected createRoom refuses the same request with BAD_REQUEST |

## Left out

- I/O: Network, broker, database and Redis I/O are not modelled. Stores are values, and the responses of `save`, `convertAndSend` and `acknowledge` are oracles.
- Timing and concurrency: The 1000 ms back-off is only the constant `BackOffMillis`; no clock is modelled. Concurrency is left out, such as two tabs of one user racing on the single online key, and the model is sequential.
- KafkaProducerService: It is not part of this model: `SendMessage` records only the hand-off to it.
- HTTP and plumbing code: Out of scope: the HTTP controllers, DTO mapping, JWT filters and interceptors, configuration classes, message-history pagination, and the Angular components and relative-time pipe.
- Java String.trim: It is modelled as cutting characters up to U+0020, and JavaScript `trim` as cutting the ECMAScript white-space and line-terminator characters.
- ChatRoomService.LeaveRoom: It compares with "General" using ASCII case folding only, where `equalsIgnoreCase` also folds non-ASCII letters.
- MessageSecurity.MatchPattern: It models only the shape `segments/**` that the policy uses, not AntPathMatcher patterns in general (`*`, `?`, regular-expression variables).
- MessagePipeline.FailedSavesNeverBroadcast: It is stated for save failures only: a record whose broadcast happened and whose acknowledge then threw is also dead-lettered. `FailingAcknowledgeDeadLettersASentRecord` shows this, so "a dead-lettered record was never broadcast" does not hold in general. On such a retry the message is also saved again, under a new id.
- Client.ChatMessage: It reuses the backend's message shape; the client's optional string timestamp is not modelled separately.
- Client.JoinRoom: The STOMP client's refusal to subscribe while disconnected ends the call; the exception it raises, and what the caller does with it, are not modelled. The unsubscribe of a previous subscription is recorded as a frame whether or not the connection is up.
- MessagePipeline.Retryable: The error handler's default not-retryable classes (DeserializationException, MessageConversionException, ConversionException, MethodArgumentResolutionException, NoSuchMethodException, ClassCastException) are one failure class, `DefaultNotRetryable`; the library code that lists them is not part of this model, and exception causes are not unwrapped.
- Presence subscription destination: The client subscribes to `/topic/presence`, while the listener publishes to `/topic/presence/<room name>`. The model treats the client's presence handler on its own and does not relate the two destinations.

## Findings

| source | as written | input that shows it | evidently intended | confidence | as-written member | corrected member |
|---|---|---|---|---|---|---|
| backend/src/main/java/com/chatapp/backend/service/ChatRoomService.java:62-63 | createRoom trims the name but refuses no character, while the subscription policy binds `{roomId}` in `/topic/chat/{roomId}/**` to one path segment (backend/src/main/java/com/chatapp/backend/config/SecurityConfig.java:115) | with alice a member of "a" only, bob creates "a/b"; alice's subscription to `/topic/chat/a/b` is decided by "a" and passes | a room name is one path segment, so its topic is decided by membership of that room | not executed; medium (the request DTO's `@NotBlank` and size limits do not exclude '/') | Scenarios.AsWrittenAcceptsSlashName, Scenarios.AsWrittenSlashRoomAdmitsNonMember, MessageSecurity.SlashNameIsDecidedByFirstSegment | ChatRoomService.CreateRoutableRoom, Scenarios.CorrectedServiceRefusesSlashName, Scenarios.JoinerMaySubscribe, Scenarios.LeaverMayNotSubscribe |
| frontend/src/app/services/websocket.service.ts:60-62 | the presence handler reads a `status` field and sets `online = status === 'online'`, but the listener sends `{username, online}` (backend/src/main/java/com/chatapp/backend/listener/WebSocketEventListener.java:70) | the listener's connect update `{"username": "alice", "online": true}` makes the client record alice as offline | the handler reads the `online` flag the listener sends | not executed; high (the client's own list type is `{username, online: boolean}`) | Client.OnPresenceAsWritten, Client.AsWrittenShowsEveryoneOffline | Client.OnPresence, Client.PresenceMirrorsServer, Client.OnPresenceMessage |
