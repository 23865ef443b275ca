/**
 * What travels over the STOMP broker and the Kafka topics: the payload
 * shapes, the destinations they are sent to, and the destination builders
 * the backend uses (`/topic/chat/<roomId>`, `/topic/typing/<roomId>`,
 * `/topic/presence/<roomName>`, per-user queues).
 */
module Wire {
  import opened Common

  /** A ChatMessage row; `id` is absent until persistence assigns it. */
  datatype ChatMessage = ChatMessage(
    id: Option<nat>,
    content: string,
    sender: string,
    roomId: string,
    timestamp: int)

  /** A TypingEvent as deserialised from the client; `roomId` may be null. */
  datatype TypingEvent = TypingEvent(roomId: Option<string>, username: Option<string>, typing: bool)

  /** The payloads the backend hands to SimpMessagingTemplate. */
  datatype Payload =
    | PresenceUpdate(username: string, online: bool)
    | ChatPayload(message: ChatMessage)
    | TypingPayload(event: TypingEvent)
    | NewInvitation(invitationId: nat, roomId: nat, roomName: string, inviterUsername: string)
    | InvitationAccepted(acceptedRoomId: nat, acceptedRoomName: string, acceptedByUsername: string)

  /** One call of `convertAndSend` (a broadcast) or `convertAndSendToUser` (a per-user queue). */
  datatype Outbound =
    | ToTopic(destination: string, payload: Payload)
    | ToUser(user: string, queue: string, userPayload: Payload)

  const InvitationsQueue := "/queue/invitations"
  const NotificationsQueue := "/queue/notifications"

  function ChatTopic(roomId: string): string {
    "/topic/chat/" + roomId
  }

  function TypingTopic(roomId: string): string {
    "/topic/typing/" + roomId
  }

  function PresenceTopic(roomName: string): string {
    "/topic/presence/" + roomName
  }

  /** Sends to a broadcast destination are told apart by their destination. */
  lemma {:induction false} TopicsInjective(a: string, b: string)
    ensures ChatTopic(a) == ChatTopic(b) ==> a == b
    ensures TypingTopic(a) == TypingTopic(b) ==> a == b
    ensures PresenceTopic(a) == PresenceTopic(b) ==> a == b
    ensures TypingTopic(a) != ChatTopic(b) && PresenceTopic(a) != ChatTopic(b) && PresenceTopic(a) != TypingTopic(b)
  {
    if ChatTopic(a) == ChatTopic(b) {
      assert a == ChatTopic(a)[12..];
    }
    if TypingTopic(a) == TypingTopic(b) {
      assert a == TypingTopic(a)[14..];
    }
    if PresenceTopic(a) == PresenceTopic(b) {
      assert a == PresenceTopic(a)[16..];
    }
    assert TypingTopic(a)[7] == 't' && ChatTopic(b)[7] == 'c' && PresenceTopic(a)[7] == 'p';
  }
}
