/**
 * The client's pure helpers: the create-room dialog's name validator and
 * submit guard, the pipe that hides the current user from a presence list,
 * and WebsocketService's list bookkeeping and send guards. The STOMP client
 * is reduced to the frames it is asked to send.
 */
module Client {
  import opened Common
  import opened Text
  import opened Wire
  import MessagePipeline
  import MessageSecurity
  import Rooms

  // ---------------------------------------------------------------------
  // Create-room dialog
  // ---------------------------------------------------------------------

  /** The UTF-16 code units of one character: two outside the Basic Multilingual Plane, one inside it. */
  function CodeUnits(c: char): nat {
    if c as int >= 0x1_0000 then 2 else 1
  }

  /** A JavaScript string's `length`: it counts UTF-16 code units, not characters. */
  function Utf16Length(s: string): (n: nat)
    ensures |s| <= n <= 2 * |s|
    ensures n == |s| <==> forall i | 0 <= i < |s| :: s[i] as int < 0x1_0000
    ensures n == 0 <==> |s| == 0
  {
    if |s| == 0 then 0
    else
      var n := CodeUnits(s[0]) + Utf16Length(s[1..]);
      assert forall i | 1 <= i < |s| :: s[i] == s[1..][i - 1];
      n
  }

  lemma {:induction false} Utf16LengthAppend(a: string, b: string)
    ensures Utf16Length(a + b) == Utf16Length(a) + Utf16Length(b)
  {
    if |a| > 0 {
      assert (a + b)[1..] == a[1..] + b;
      Utf16LengthAppend(a[1..], b);
    } else {
      assert a + b == b;
    }
  }

  /** Trimming never lengthens a string, counted in code units too. */
  lemma Utf16LengthOfTrim(s: string)
    ensures Utf16Length(JsTrim(s)) <= Utf16Length(s)
  {
    var k := TrimIsInfix(s, IsJsWhitespace);
    var t := JsTrim(s);
    assert s == s[..k] + t + s[k + |t|..];
    Utf16LengthAppend(s[..k] + t, s[k + |t|..]);
    Utf16LengthAppend(s[..k], t);
  }

  /** A string of characters outside the Basic Multilingual Plane has twice as many code units as characters. */
  lemma {:induction false} AstralCountsTwice(s: string)
    requires forall i | 0 <= i < |s| :: s[i] as int >= 0x1_0000
    ensures Utf16Length(s) == 2 * |s|
  {
    if |s| > 0 {
      assert forall i | 0 <= i < |s[1..]| :: s[1..][i] == s[i + 1];
      AstralCountsTwice(s[1..]);
    }
  }

  /** One emoji and one letter: two characters, three code units. */
  lemma EmojiCountsTwice()
    ensures |"\U{1F600}a"| == 2 && Utf16Length("\U{1F600}a") == 3
  {
    assert "\U{1F600}a"[1..] == "a";
  }

  /** The errors `trimmedRequiredMinLengthValidator` reports. */
  datatype ValidationError = Whitespace | MinLength(requiredLength: int, actualLength: nat)

  /**
   * trimmedRequiredMinLengthValidator(minLength) applied to a control value
   * (`None` is null): null and the empty string pass, a blank string is
   * `whitespace`, a trimmed value shorter than `minLength` is `minlength`.
   */
  function TrimmedRequiredMinLength(minLength: int, value: Option<string>): (r: Option<ValidationError>)
    ensures value.None? || value == Some("") ==> r.None?
    ensures r == Some(Whitespace) <==>
              value.Some? && |value.value| > 0 && forall i | 0 <= i < |value.value| :: IsJsWhitespace(value.value[i])
    ensures r.Some? && r.value.MinLength? <==> value.Some? && 0 < Utf16Length(JsTrim(value.value)) < minLength
    ensures r.Some? && r.value.MinLength? ==>
              r.value.requiredLength == minLength && r.value.actualLength == Utf16Length(JsTrim(value.value))
    ensures r.None? <==> value.None? || |value.value| == 0 ||
                         (|JsTrim(value.value)| > 0 && Utf16Length(JsTrim(value.value)) >= minLength)
  {
    match value
    case None => None
    case Some(s) =>
      TrimEmptyIffAllSpace(s, IsJsWhitespace);
      var trimmed := JsTrim(s);
      if |trimmed| == 0 then (if |s| > 0 then Some(Whitespace) else None)
      else if Utf16Length(trimmed) < minLength then Some(MinLength(minLength, Utf16Length(trimmed)))
      else None
  }

  /** Two values with the same non-empty trim get the same verdict; in particular a value and its trim do. */
  lemma VerdictDependsOnlyOnTrim(minLength: int, a: string, b: string)
    requires JsTrim(a) == JsTrim(b) != ""
    ensures TrimmedRequiredMinLength(minLength, Some(a)) == TrimmedRequiredMinLength(minLength, Some(b))
    ensures TrimmedRequiredMinLength(minLength, Some(JsTrim(a))) == TrimmedRequiredMinLength(minLength, Some(a))
  {
    TrimIdempotent(a, IsJsWhitespace);
  }

  const RoomNameMinLength := 3
  const RoomNameMaxLength := 100

  /**
   * The name control's validators: `required`, `maxLength(100)` on the raw
   * value, and the trimmed minimum of 3, both lengths in code units.
   */
  predicate RoomFormInvalid(name: Option<string>) {
    || name.None? || |name.value| == 0
    || Utf16Length(name.value) > RoomNameMaxLength
    || TrimmedRequiredMinLength(RoomNameMinLength, name).Some?
  }

  /** The form is valid exactly for a value of at most 100 code units whose trim has at least 3. */
  lemma RoomFormValidIff(name: Option<string>)
    ensures !RoomFormInvalid(name) <==>
              name.Some? && Utf16Length(name.value) <= RoomNameMaxLength && Utf16Length(JsTrim(name.value)) >= RoomNameMinLength
  {
  }

  /** A name of more than 50 emoji is refused by `maxLength(100)`, although it has at most 100 characters. */
  lemma LongAstralNameIsRefused(name: string)
    requires |name| > RoomNameMaxLength / 2
    requires forall i | 0 <= i < |name| :: name[i] as int >= 0x1_0000
    ensures RoomFormInvalid(Some(name))
  {
    AstralCountsTwice(name);
  }

  /** The dialog's state: the name control's value and whether a request is in flight. */
  datatype Dialog = Dialog(name: Option<string>, submitting: bool)

  datatype CreateRoomPayload = CreateRoomPayload(name: string)

  /**
   * onSubmit: nothing happens while the form is invalid or a request is in
   * flight; otherwise the request is marked in flight and the trimmed name
   * is submitted.
   */
  function OnSubmit(d: Dialog): (r: (Dialog, Option<CreateRoomPayload>))
    ensures r.1.Some? <==> !RoomFormInvalid(d.name) && !d.submitting
    ensures r.1.None? ==> r.0 == d
    ensures r.1.Some? ==> r.0.submitting && r.0.name == d.name
    ensures r.1.Some? ==> r.1.value.name == JsTrim(d.name.value)
    ensures r.1.Some? ==> RoomNameMinLength <= Utf16Length(r.1.value.name) <= RoomNameMaxLength
    ensures r.1.Some? ==> |r.1.value.name| <= RoomNameMaxLength
    ensures r.1.Some? ==> !IsJsWhitespace(r.1.value.name[0]) && !IsJsWhitespace(r.1.value.name[|r.1.value.name| - 1])
  {
    if RoomFormInvalid(d.name) || d.submitting then (d, None)
    else
      Utf16LengthOfTrim(d.name.value);
      (d.(submitting := true), Some(CreateRoomPayload(JsTrim(d.name.value))))
  }

  /** A second submit while the first is in flight sends nothing. */
  lemma SubmitIsNotRepeated(d: Dialog)
    requires OnSubmit(d).1.Some?
    ensures OnSubmit(OnSubmit(d).0).1.None?
  {
  }

  // ---------------------------------------------------------------------
  // Presence lists
  // ---------------------------------------------------------------------

  /** One row of the client's presence list. */
  datatype PresenceEntry = PresenceEntry(username: string, online: bool)

  /** `xs` is `ys` with some entries dropped and the rest in their original order. */
  predicate SubsequenceOf(xs: seq<PresenceEntry>, ys: seq<PresenceEntry>)
    decreases |ys|
  {
    |xs| == 0 || (|ys| > 0 && if xs[0] == ys[0] then SubsequenceOf(xs[1..], ys[1..]) else SubsequenceOf(xs, ys[1..]))
  }

  /** `users.filter(u => u.username !== username)`. */
  function Without(users: seq<PresenceEntry>, username: string): (r: seq<PresenceEntry>)
    ensures |r| <= |users|
    ensures forall e: PresenceEntry :: multiset(r)[e] == if e.username == username then 0 else multiset(users)[e]
  {
    if |users| == 0 then []
    else
      var rest := Without(users[1..], username);
      assert users == [users[0]] + users[1..];
      if users[0].username == username then rest else [users[0]] + rest
  }

  /** What `Without` keeps is a subsequence of its input. */
  lemma {:induction false} WithoutIsSubsequence(users: seq<PresenceEntry>, username: string)
    ensures SubsequenceOf(Without(users, username), users)
  {
    if |users| > 0 {
      WithoutIsSubsequence(users[1..], username);
      if users[0].username == username {
        SubsequenceOfTail(Without(users[1..], username), users);
      }
    }
  }

  lemma {:induction false} SubsequenceOfTail(xs: seq<PresenceEntry>, ys: seq<PresenceEntry>)
    requires |ys| > 0 && SubsequenceOf(xs, ys[1..])
    ensures SubsequenceOf(xs, ys)
    decreases |ys|, |xs|
  {
    if |xs| > 0 && xs[0] == ys[0] {
      // xs also embeds into ys with its head matched at ys[0]: drop one more element of ys
      SubsequenceDropHead(xs, ys[1..]);
    }
  }

  /** A subsequence stays one when its first element is removed. */
  lemma {:induction false} SubsequenceDropHead(xs: seq<PresenceEntry>, ys: seq<PresenceEntry>)
    requires |xs| > 0 && SubsequenceOf(xs, ys)
    ensures SubsequenceOf(xs[1..], ys)
    decreases |ys|, |xs|
  {
    if xs[0] == ys[0] {
      SubsequenceOfTail(xs[1..], ys);
    } else {
      SubsequenceDropHead(xs, ys[1..]);
      SubsequenceOfTail(xs[1..], ys);
    }
  }

  /** Filtering a concatenation filters each part. */
  lemma {:induction false} WithoutAppend(xs: seq<PresenceEntry>, ys: seq<PresenceEntry>, username: string)
    ensures Without(xs + ys, username) == Without(xs, username) + Without(ys, username)
  {
    if |xs| == 0 {
      assert xs + ys == ys;
    } else {
      assert (xs + ys)[1..] == xs[1..] + ys;
      WithoutAppend(xs[1..], ys, username);
    }
  }

  /**
   * FilterCurrentUserPipe.transform: a null list stays null; with no (or an
   * empty) current username the list is returned as it is; otherwise every
   * entry of the current user is dropped and the rest kept in order.
   */
  function FilterCurrentUser(users: Option<seq<PresenceEntry>>, current: Option<string>): (r: Option<seq<PresenceEntry>>)
    ensures users.None? <==> r.None?
    ensures current.None? || current.value == "" ==> r == users
    ensures users.Some? && current.Some? && current.value != "" ==>
              forall e | e in r.value :: e.username != current.value
    ensures users.Some? && current.Some? ==>
              forall e | e in users.value && e.username != current.value :: e in r.value
    ensures users.Some? ==> |r.value| <= |users.value|
  {
    match users
    case None => None
    case Some(us) =>
      if current.None? || current.value == "" then users
      else
        assert forall e :: e in Without(us, current.value) <==> multiset(Without(us, current.value))[e] > 0;
        Some(Without(us, current.value))
  }

  /** The pipe's output keeps the order of its input. */
  lemma FilterCurrentUserKeepsOrder(users: seq<PresenceEntry>, current: Option<string>)
    ensures var r := FilterCurrentUser(Some(users), current);
            r.Some? && SubsequenceOf(r.value, users)
  {
    if current.Some? && current.value != "" {
      WithoutIsSubsequence(users, current.value);
    } else {
      SubsequenceReflexive(users);
    }
  }

  lemma {:induction false} SubsequenceReflexive(xs: seq<PresenceEntry>)
    ensures SubsequenceOf(xs, xs)
    decreases |xs|
  {
    if |xs| > 0 {
      SubsequenceReflexive(xs[1..]);
    }
  }

  /**
   * The presence list update: drop every entry for the entry's user and
   * append the entry at the end.
   */
  function Upsert(list: seq<PresenceEntry>, entry: PresenceEntry): (r: seq<PresenceEntry>)
    ensures |r| > 0 && r[|r| - 1] == entry
    ensures forall i | 0 <= i < |r| - 1 :: r[i].username != entry.username
    ensures forall e: PresenceEntry | e.username != entry.username :: multiset(r)[e] == multiset(list)[e]
    ensures SubsequenceOf(r[..|r| - 1], list)
  {
    var kept := Without(list, entry.username);
    WithoutIsSubsequence(list, entry.username);
    assert forall i | 0 <= i < |kept| :: kept[i] in multiset(kept);
    assert (kept + [entry])[..|kept|] == kept;
    kept + [entry]
  }

  /** A later update for the same user replaces an earlier one outright. */
  lemma {:induction false} UpsertOverrides(list: seq<PresenceEntry>, a: PresenceEntry, b: PresenceEntry)
    requires a.username == b.username
    ensures Upsert(Upsert(list, a), b) == Upsert(list, b)
  {
    var u := a.username;
    var kept := Without(list, u);
    UpsertIsFilterThenAppend(list, a);
    UpsertIsFilterThenAppend(kept + [a], b);
    WithoutDropsEntry(kept, a);
    WithoutOfFiltered(list, u);
    UpsertIsFilterThenAppend(list, b);
  }

  lemma UpsertIsFilterThenAppend(list: seq<PresenceEntry>, e: PresenceEntry)
    ensures Upsert(list, e) == Without(list, e.username) + [e]
  {
  }

  /** Filtering away an appended entry of the filtered user leaves the filtered prefix. */
  lemma WithoutDropsEntry(kept: seq<PresenceEntry>, a: PresenceEntry)
    ensures Without(kept + [a], a.username) == Without(kept, a.username)
  {
    WithoutAppend(kept, [a], a.username);
    assert [a][1..] == [];
    assert Without([a], a.username) == [];
    assert Without(kept, a.username) + [] == Without(kept, a.username);
  }

  /** Filtering twice by the same name filters once. */
  lemma {:induction false} WithoutOfFiltered(list: seq<PresenceEntry>, username: string)
    ensures Without(Without(list, username), username) == Without(list, username)
  {
    if |list| > 0 {
      WithoutOfFiltered(list[1..], username);
    }
  }

  /** The body of a presence message as the client parses it: the fields it may carry. */
  datatype PresenceJson = PresenceJson(username: string, status: Option<string>, online: Option<bool>)

  /** The listener's `Map.of("username", username, "online", online)`, serialised: there is no `status` field. */
  function PresenceBody(update: Payload): (j: PresenceJson)
    requires update.PresenceUpdate?
    ensures j.username == update.username && j.online == Some(update.online) && j.status.None?
  {
    PresenceJson(update.username, None, Some(update.online))
  }

  /** The presence handler as written: it reads a `status` field and counts the user online when it is "online". */
  function OnPresenceAsWritten(list: seq<PresenceEntry>, body: PresenceJson): (r: seq<PresenceEntry>)
    ensures |r| > 0 && r[|r| - 1] == PresenceEntry(body.username, body.status == Some("online"))
  {
    Upsert(list, PresenceEntry(body.username, body.status == Some("online")))
  }

  /** Whatever the listener announces, the handler as written records the user as offline. */
  lemma AsWrittenShowsEveryoneOffline(list: seq<PresenceEntry>, username: string, online: bool)
    ensures var r := OnPresenceAsWritten(list, PresenceBody(PresenceUpdate(username, online)));
            r[|r| - 1] == PresenceEntry(username, false)
  {
  }

  /** The presence handler reading the `online` flag the listener sends. */
  function OnPresence(list: seq<PresenceEntry>, body: PresenceJson): (r: seq<PresenceEntry>)
    ensures |r| > 0 && r[|r| - 1] == PresenceEntry(body.username, body.online == Some(true))
    ensures forall i | 0 <= i < |r| - 1 :: r[i].username != body.username
    ensures forall e: PresenceEntry | e.username != body.username :: multiset(r)[e] == multiset(list)[e]
  {
    Upsert(list, PresenceEntry(body.username, body.online == Some(true)))
  }

  /** With the corrected handler, the client's entry for a user mirrors the listener's last announcement. */
  lemma PresenceMirrorsServer(list: seq<PresenceEntry>, username: string, online: bool)
    ensures var r := OnPresence(list, PresenceBody(PresenceUpdate(username, online)));
            r[|r| - 1] == PresenceEntry(username, online)
            && forall i | 0 <= i < |r| - 1 :: r[i].username != username
  {
  }

  // ---------------------------------------------------------------------
  // WebsocketService
  // ---------------------------------------------------------------------

  /** The frames the service asks the STOMP client for. */
  datatype ClientBody = ChatBody(message: ChatMessage) | TypingBody(event: TypingEvent)
  datatype ClientAction =
    | Subscribe(destination: string)
    | Unsubscribe(destination: string)
    | Publish(destination: string, body: ClientBody)

  const SendMessageDestination := "/app/chat.sendMessage"
  const SendTypingDestination := "/app/chat.typing"

  /**
   * The service's state: whether the client is connected, the current room,
   * the room-message subscription, the typing subscriptions it has opened,
   * and the message and presence lists.
   */
  datatype ServiceState = ServiceState(
    connected: bool,
    currentRoom: string,
    roomSubscription: Option<string>,
    typingSubscriptions: seq<string>,
    messages: seq<ChatMessage>,
    presence: seq<PresenceEntry>)

  /**
   * joinRoom: unsubscribes the previous room subscription, makes `roomId`
   * current, clears the messages and subscribes to the room's chat and
   * typing topics. The typing subscription of an earlier room is kept.
   * The STOMP client refuses to subscribe while it has no connection (it
   * throws), so a join before the connection is up stops after the room
   * and the messages were updated: nothing is subscribed and the room
   * subscription keeps its earlier value.
   */
  function JoinRoom(s: ServiceState, roomId: string): (r: (ServiceState, seq<ClientAction>))
    ensures r.0.currentRoom == roomId && r.0.messages == []
    ensures r.0.connected == s.connected && r.0.presence == s.presence
    ensures forall d :: Unsubscribe(d) in r.1 <==> s.roomSubscription == Some(d)
    ensures (exists d :: Subscribe(d) in r.1) <==> s.connected
    ensures s.connected ==> r.0.roomSubscription == Some(ChatTopic(roomId))
    ensures s.connected ==> r.0.typingSubscriptions == s.typingSubscriptions + [TypingTopic(roomId)]
    ensures s.connected ==> |r.1| >= 2 && r.1[|r.1| - 2..] == [Subscribe(ChatTopic(roomId)), Subscribe(TypingTopic(roomId))]
    ensures !s.connected ==> r.0.roomSubscription == s.roomSubscription && r.0.typingSubscriptions == s.typingSubscriptions
  {
    var leave := if s.roomSubscription.Some? then [Unsubscribe(s.roomSubscription.value)] else [];
    var entered := s.(currentRoom := roomId, messages := []);
    if s.connected then
      (entered.(roomSubscription := Some(ChatTopic(roomId)),
                typingSubscriptions := s.typingSubscriptions + [TypingTopic(roomId)]),
       leave + [Subscribe(ChatTopic(roomId)), Subscribe(TypingTopic(roomId))])
    else
      assert forall a | a in leave :: a.Unsubscribe?;
      (entered, leave)
  }

  /** The service's state right after construction: not yet connected, no room, nothing listed. */
  const Initial := ServiceState(false, "", None, [], [], [])

  /**
   * The chat page joins "general" as soon as it is created, before the
   * connection is up: the room becomes current but the client ends up
   * subscribed to nothing, so none of the room's messages reach it until
   * another join.
   */
  lemma JoinBeforeConnectSubscribesNothing(roomId: string)
    ensures var (after, actions) := JoinRoom(Initial, roomId);
            after.currentRoom == roomId && after.roomSubscription.None? && after.typingSubscriptions == [] && actions == []
  {
  }

  /** After switching rooms on a live connection the client still listens to the typing topic of the room it left. */
  lemma SwitchingRoomsKeepsOldTypingSubscription(s: ServiceState, a: string, b: string)
    requires s.connected
    ensures var after := JoinRoom(JoinRoom(s, a).0, b).0;
            TypingTopic(a) in after.typingSubscriptions && after.roomSubscription == Some(ChatTopic(b))
  {
    assert JoinRoom(JoinRoom(s, a).0, b).0.typingSubscriptions == s.typingSubscriptions + [TypingTopic(a)] + [TypingTopic(b)];
  }

  /** A message arriving on the room subscription is appended; earlier messages stay as they were. */
  function OnChatMessage(s: ServiceState, m: ChatMessage): (r: ServiceState)
    ensures |r.messages| == |s.messages| + 1 && r.messages[|s.messages|] == m
    ensures r.messages[..|s.messages|] == s.messages
    ensures r.(messages := s.messages) == s
  {
    s.(messages := s.messages + [m])
  }

  /**
   * A presence message updates the presence list and nothing else. It applies
   * the corrected handler `OnPresence`, which reads the `online` flag the
   * listener sends; the handler as written reads `status` (`OnPresenceAsWritten`).
   */
  function OnPresenceMessage(s: ServiceState, body: PresenceJson): (r: ServiceState)
    ensures r.(presence := s.presence) == s
    ensures |r.presence| > 0 && r.presence[|r.presence| - 1] == PresenceEntry(body.username, body.online == Some(true))
    ensures forall i | 0 <= i < |r.presence| - 1 :: r.presence[i].username != body.username
    ensures forall e: PresenceEntry | e.username != body.username :: multiset(r.presence)[e] == multiset(s.presence)[e]
  {
    s.(presence := OnPresence(s.presence, body))
  }

  /** sendMessage: publishes to `/app/chat.sendMessage` only while connected. */
  function SendMessage(s: ServiceState, m: ChatMessage): (actions: seq<ClientAction>)
    ensures actions != [] <==> s.connected
    ensures |actions| <= 1
    ensures forall a | a in actions :: a == Publish(SendMessageDestination, ChatBody(m))
  {
    if s.connected then [Publish(SendMessageDestination, ChatBody(m))] else []
  }

  /** sendTyping: publishes the current room's typing event only while connected and in a room. */
  function SendTyping(s: ServiceState, currentUser: Option<string>, typing: bool): (actions: seq<ClientAction>)
    ensures actions != [] <==> s.connected && s.currentRoom != ""
    ensures |actions| <= 1
    ensures forall a | a in actions ::
              a == Publish(SendTypingDestination, TypingBody(TypingEvent(Some(s.currentRoom), currentUser, typing)))
  {
    if s.connected && s.currentRoom != "" then
      [Publish(SendTypingDestination, TypingBody(TypingEvent(Some(s.currentRoom), currentUser, typing)))]
    else []
  }

  /**
   * A typing event the client publishes is never dropped by the controller:
   * it is relayed once to the typing topic of the client's current room.
   */
  lemma TypingFromClientIsRelayed(s: ServiceState, currentUser: Option<string>, typing: bool)
    requires SendTyping(s, currentUser, typing) != []
    ensures var event := SendTyping(s, currentUser, typing)[0].body.event;
            MessagePipeline.HandleTyping(event)
            == [MessagePipeline.Send(ToTopic(TypingTopic(s.currentRoom), TypingPayload(event)))]
  {
    var event := SendTyping(s, currentUser, typing)[0].body.event;
    assert event.roomId == Some(s.currentRoom);
  }

  /** A destination `/app/<action>` is routed to the application handlers. */
  lemma {:induction false} AppDestinationRoute(action: string)
    requires |action| > 0 && '/' !in action
    ensures MessageSecurity.RouteOf("/app/" + action) == MessageSecurity.AppRoute
  {
    TokensOfLeading(action, "");
    assert "/" + action + "" == "/" + action;
    TokensOfLeading("app", "/" + action);
    assert "/app/" + action == "/" + "app" + ("/" + action);
  }

  /** A SEND to `/app/<action>` passes exactly for an authenticated session. */
  lemma AppPublishNeedsAuthentication(action: string, auth: Option<MessageSecurity.Authentication>, db: Rooms.Db)
    requires |action| > 0 && '/' !in action
    ensures MessageSecurity.Authorize(MessageSecurity.Frame(MessageSecurity.Message, Some("/app/" + action)), auth, db)
            <==> MessageSecurity.IsAuthenticated(auth)
  {
    AppDestinationRoute(action);
    MessageSecurity.AppNeedsAuthentication(MessageSecurity.Frame(MessageSecurity.Message, Some("/app/" + action)), auth, db);
  }

  /** The client's publish to `/app/chat.sendMessage` (a STOMP SEND, type MESSAGE) passes exactly for an authenticated session. */
  lemma SendMessageNeedsAuthentication(auth: Option<MessageSecurity.Authentication>, db: Rooms.Db)
    ensures MessageSecurity.Authorize(MessageSecurity.Frame(MessageSecurity.Message, Some(SendMessageDestination)), auth, db)
            <==> MessageSecurity.IsAuthenticated(auth)
  {
    assert SendMessageDestination == "/app/" + "chat.sendMessage";
    AppPublishNeedsAuthentication("chat.sendMessage", auth, db);
  }

  /** The client's publish to `/app/chat.typing` passes exactly for an authenticated session. */
  lemma SendTypingNeedsAuthentication(auth: Option<MessageSecurity.Authentication>, db: Rooms.Db)
    ensures MessageSecurity.Authorize(MessageSecurity.Frame(MessageSecurity.Message, Some(SendTypingDestination)), auth, db)
            <==> MessageSecurity.IsAuthenticated(auth)
  {
    assert SendTypingDestination == "/app/" + "chat.typing";
    AppPublishNeedsAuthentication("chat.typing", auth, db);
  }
}
