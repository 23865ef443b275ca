/**
 * The STOMP inbound authorization policy: a first-match-wins table of
 * (message matcher, access rule) entries, evaluated against the frame's
 * type, its destination and the session's Authentication. The chat and
 * typing subscription rule consults the live membership check of
 * ChatRoomService on every attempt.
 */
module MessageSecurity {
  import opened Common
  import opened Text
  import opened Rooms
  import opened Wire
  import opened ChatRoomService

  /** Spring's SimpMessageType. */
  datatype SimpType =
    | Connect | ConnectAck | Message | Subscribe | Unsubscribe
    | Heartbeat | Disconnect | DisconnectAck | Other

  /** An inbound frame as the authorization manager sees it; `destination` is a nullable header. */
  datatype Frame = Frame(kind: SimpType, destination: Option<string>)

  /** The object an Authentication carries as its principal. */
  datatype PrincipalObject =
    | UserDetailsObject(username: string)
    | StringObject(value: string)
    | NullObject
    | OtherObject

  /**
   * A Spring Security Authentication: whether it is an anonymous token, its
   * `isAuthenticated()` flag, `getPrincipal()` and `getName()` (nullable).
   */
  datatype Authentication = Authentication(
    anonymousToken: bool,
    authenticated: bool,
    principal: PrincipalObject,
    name: Option<string>)

  /** The `authenticated()` rule: present, not an anonymous token, and authenticated. */
  predicate IsAuthenticated(auth: Option<Authentication>) {
    auth.Some? && !auth.value.anonymousToken && auth.value.authenticated
  }

  // ---------------------------------------------------------------------
  // Destination patterns (AntPathMatcher, "/"-separated)
  // ---------------------------------------------------------------------

  /** One pattern segment: a literal token or a `{name}` template variable. */
  datatype Segment = Lit(text: string) | Var(varName: string)

  /**
   * A pattern `/s1/.../sn` followed by a final double-star segment: every
   * pattern of this policy ends with one, and it matches any number (zero
   * included) of further tokens.
   */
  datatype Pattern = Pattern(segments: seq<Segment>)

  predicate SegmentMatches(s: Segment, token: string) {
    match s
    case Lit(text) => text == token
    case Var(_) => true
  }

  /** The reference meaning of a match: the leading '/' agrees and the segments match a prefix of the tokens. */
  predicate Matches(p: Pattern, destination: string) {
    var ts := Tokens(destination);
    && |destination| > 0 && destination[0] == '/'
    && |p.segments| <= |ts|
    && forall i | 0 <= i < |p.segments| :: SegmentMatches(p.segments[i], ts[i])
  }

  /**
   * Matching a token sequence segment by segment, collecting the template
   * variables (a later binding of the same name replaces an earlier one).
   */
  function MatchSegments(segs: seq<Segment>, ts: seq<string>): (r: Option<map<string, string>>)
    ensures r.Some? <==> |segs| <= |ts| && forall i | 0 <= i < |segs| :: SegmentMatches(segs[i], ts[i])
    ensures r.Some? ==> forall n | n in r.value :: exists i | 0 <= i < |segs| :: segs[i] == Var(n)
    ensures r.Some? ==> forall i | 0 <= i < |segs| && segs[i].Var? ::
              segs[i].varName in r.value
              && ((forall j | i < j < |segs| :: segs[j] != segs[i]) ==> r.value[segs[i].varName] == ts[i])
  {
    if |segs| == 0 then Some(map[])
    else if |ts| == 0 || !SegmentMatches(segs[0], ts[0]) then None
    else
      match MatchSegments(segs[1..], ts[1..])
      case None =>
        TailMismatch(segs, ts);
        None
      case Some(rest) =>
        assert forall i | 1 <= i < |segs| :: segs[i] == segs[1..][i - 1] && ts[i] == ts[1..][i - 1];
        if segs[0].Var? then Some(map[segs[0].varName := ts[0]] + rest) else Some(rest)
  }

  /** AntPathMatcher.match / extractUriTemplateVariables for a pattern ending in a double star. */
  function MatchPattern(p: Pattern, destination: string): (r: Option<map<string, string>>)
    ensures r.Some? <==> Matches(p, destination)
  {
    if |destination| == 0 || destination[0] != '/' then None
    else MatchSegments(p.segments, Tokens(destination))
  }

  // ---------------------------------------------------------------------
  // The policy table
  // ---------------------------------------------------------------------

  /** `simpTypeMatchers`, `simpDestMatchers` (any type), `simpSubscribeDestMatchers`, `anyMessage`. */
  datatype Matcher =
    | Types(types: set<SimpType>)
    | Dest(onlyType: Option<SimpType>, pattern: Pattern)
    | AnyMessage

  /** `permitAll`, `authenticated`, `denyAll`, and the room-membership access check. */
  datatype Access = PermitAll | AuthenticatedOnly | DenyAll | RoomMember

  datatype Rule = Rule(matcher: Matcher, access: Access)

  predicate Applies(m: Matcher, f: Frame) {
    match m
    case Types(types) => f.kind in types
    case Dest(onlyType, pattern) =>
      (onlyType.None? || onlyType.value == f.kind) && f.destination.Some? && Matches(pattern, f.destination.value)
    case AnyMessage => true
  }

  /** The frame types permitted whatever the principal. */
  const LifecycleTypes: set<SimpType> := {Connect, Heartbeat, Unsubscribe, Disconnect}

  const AppPattern := Pattern([Lit("app")])
  const ChatPattern := Pattern([Lit("topic"), Lit("chat"), Var("roomId")])
  const TypingPattern := Pattern([Lit("topic"), Lit("typing"), Var("roomId")])
  const PresencePattern := Pattern([Lit("topic"), Lit("presence")])
  const UserPattern := Pattern([Lit("user")])

  /** messageAuthorizationManager, one entry per registered pattern, in declaration order. */
  const Policy: seq<Rule> := [
    Rule(Types(LifecycleTypes), PermitAll),
    Rule(Dest(None, AppPattern), AuthenticatedOnly),
    Rule(Dest(Some(Subscribe), ChatPattern), RoomMember),
    Rule(Dest(Some(Subscribe), TypingPattern), RoomMember),
    Rule(Dest(Some(Subscribe), PresencePattern), AuthenticatedOnly),
    Rule(Dest(Some(Subscribe), UserPattern), AuthenticatedOnly),
    Rule(Types({Message, Subscribe}), DenyAll),
    Rule(AnyMessage, DenyAll)
  ]

  /** The decision of the access lambda for chat and typing subscriptions. */
  predicate RoomMemberDecision(db: Db, auth: Option<Authentication>, roomId: Option<string>) {
    if auth.None? || !auth.value.authenticated || auth.value.principal == StringObject("anonymousUser") then false
    else if roomId.None? then false
    else IsUserMemberOfRoom(db, auth.value.name, roomId)
  }

  /** The template variables the matched entry extracts from the destination. */
  function Variables(m: Matcher, f: Frame): map<string, string> {
    if m.Dest? && f.destination.Some? then
      match MatchPattern(m.pattern, f.destination.value)
      case Some(vars) => vars
      case None => map[]
    else map[]
  }

  predicate Grants(rule: Rule, f: Frame, auth: Option<Authentication>, db: Db) {
    match rule.access
    case PermitAll => true
    case AuthenticatedOnly => IsAuthenticated(auth)
    case DenyAll => false
    case RoomMember =>
      var vars := Variables(rule.matcher, f);
      RoomMemberDecision(db, auth, if "roomId" in vars then Some(vars["roomId"]) else None)
  }

  /**
   * Whether the channel interceptor lets frame `f` through in state `db`:
   * the first entry whose matcher applies decides, and with no applicable
   * entry the frame is refused.
   */
  predicate Authorize(f: Frame, auth: Option<Authentication>, db: Db) {
    var i := DecidingEntry(f);
    i < |Policy| && Grants(Policy[i], f, auth, db)
  }

  // ---------------------------------------------------------------------
  // The reference reading of the policy, destination by destination
  // ---------------------------------------------------------------------

  /** Where a destination falls, read directly from its tokens. */
  datatype Route = AppRoute | ChatRoute(room: string) | TypingRoute(room: string) | PresenceRoute | UserRoute | Unrouted

  function RouteOf(d: string): Route {
    if |d| == 0 || d[0] != '/' then Unrouted
    else
      var t := Tokens(d);
      if |t| >= 1 && t[0] == "app" then AppRoute
      else if |t| >= 3 && t[0] == "topic" && t[1] == "chat" then ChatRoute(t[2])
      else if |t| >= 3 && t[0] == "topic" && t[1] == "typing" then TypingRoute(t[2])
      else if |t| >= 2 && t[0] == "topic" && t[1] == "presence" then PresenceRoute
      else if |t| >= 1 && t[0] == "user" then UserRoute
      else Unrouted
  }

  /**
   * The policy as a reader states it: lifecycle frames pass; anything under `/app` needs
   * authentication; subscribing to a room's chat or typing topic needs room
   * membership, presence and user queues need authentication; all else is refused.
   */
  predicate Expected(f: Frame, auth: Option<Authentication>, db: Db) {
    if f.kind in LifecycleTypes then true
    else if f.destination.None? then false
    else match RouteOf(f.destination.value)
      case AppRoute => IsAuthenticated(auth)
      case ChatRoute(room) => f.kind == Subscribe && RoomMemberDecision(db, auth, Some(room))
      case TypingRoute(room) => f.kind == Subscribe && RoomMemberDecision(db, auth, Some(room))
      case PresenceRoute => f.kind == Subscribe && IsAuthenticated(auth)
      case UserRoute => f.kind == Subscribe && IsAuthenticated(auth)
      case Unrouted => false
  }

  /** A mismatch of the tails is a mismatch of the whole. */
  lemma {:induction false} TailMismatch(segs: seq<Segment>, ts: seq<string>)
    requires |segs| > 0 && |ts| > 0
    requires !(|segs[1..]| <= |ts[1..]| && forall i | 0 <= i < |segs[1..]| :: SegmentMatches(segs[1..][i], ts[1..][i]))
    ensures !(|segs| <= |ts| && forall i | 0 <= i < |segs| :: SegmentMatches(segs[i], ts[i]))
  {
    if |segs| <= |ts| {
      var k :| 0 <= k < |segs[1..]| && !SegmentMatches(segs[1..][k], ts[1..][k]);
      assert segs[1..][k] == segs[k + 1] && ts[1..][k] == ts[k + 1];
    }
  }

  /** Each pattern of the table matches exactly the destinations of its route. */
  lemma PatternsMatchRoutes(d: string)
    ensures Matches(AppPattern, d) <==> RouteOf(d) == AppRoute
    ensures Matches(ChatPattern, d) <==> RouteOf(d).ChatRoute?
    ensures Matches(TypingPattern, d) <==> RouteOf(d).TypingRoute?
    ensures Matches(PresencePattern, d) <==> RouteOf(d) == PresenceRoute
    ensures Matches(UserPattern, d) <==> RouteOf(d) == UserRoute
  {
    if |d| > 0 && d[0] == '/' {
      var t := Tokens(d);
      assert Matches(AppPattern, d) <==> |t| >= 1 && t[0] == "app" by {
        assert AppPattern.segments[0] == Lit("app");
      }
      assert Matches(ChatPattern, d) <==> |t| >= 3 && t[0] == "topic" && t[1] == "chat" by {
        assert ChatPattern.segments[0] == Lit("topic") && ChatPattern.segments[1] == Lit("chat");
      }
      assert Matches(TypingPattern, d) <==> |t| >= 3 && t[0] == "topic" && t[1] == "typing" by {
        assert TypingPattern.segments[0] == Lit("topic") && TypingPattern.segments[1] == Lit("typing");
      }
      assert Matches(PresencePattern, d) <==> |t| >= 2 && t[0] == "topic" && t[1] == "presence" by {
        assert PresencePattern.segments[0] == Lit("topic") && PresencePattern.segments[1] == Lit("presence");
      }
      assert Matches(UserPattern, d) <==> |t| >= 1 && t[0] == "user" by {
        assert UserPattern.segments[0] == Lit("user");
      }
    }
  }

  /** The `roomId` variable a room-topic pattern binds is the destination's third token. */
  lemma {:induction false} RoomPatternBindsRoomId(p: Pattern, topic: string, d: string)
    requires p == Pattern([Lit("topic"), Lit(topic), Var("roomId")])
    requires Matches(p, d)
    ensures MatchPattern(p, d).Some?
    ensures "roomId" in MatchPattern(p, d).value && MatchPattern(p, d).value["roomId"] == Tokens(d)[2]
  {
    assert p.segments[2].Var? && p.segments[2].varName == "roomId";
  }

  /** The entry that decides a frame under the policy table: its index in `Policy`. */
  function DecidingEntry(f: Frame): (i: nat)
    ensures i <= |Policy|
  {
    FirstIndex(Policy, (rule: Rule) => Applies(rule.matcher, f))
  }

  /** Which entry decides which frame: the first-match order of the table made explicit. */
  lemma {:induction false} DecidingEntryByRoute(f: Frame)
    ensures f.kind in LifecycleTypes ==> DecidingEntry(f) == 0
    ensures f.kind !in LifecycleTypes && f.destination.Some? ==>
              var r := RouteOf(f.destination.value);
              && (r == AppRoute ==> DecidingEntry(f) == 1)
              && (r.ChatRoute? && f.kind == Subscribe ==> DecidingEntry(f) == 2)
              && (r.TypingRoute? && f.kind == Subscribe ==> DecidingEntry(f) == 3)
              && (r == PresenceRoute && f.kind == Subscribe ==> DecidingEntry(f) == 4)
              && (r == UserRoute && f.kind == Subscribe ==> DecidingEntry(f) == 5)
              && (r != AppRoute && (f.kind != Subscribe || r == Unrouted) ==> DecidingEntry(f) >= 6)
    ensures f.kind !in LifecycleTypes && f.destination.None? ==> DecidingEntry(f) >= 6
  {
    var p := (rule: Rule) => Applies(rule.matcher, f);
    var i := DecidingEntry(f);
    if f.kind in LifecycleTypes {
      assert p(Policy[0]);
    } else {
      assert !p(Policy[0]);
      if f.destination.Some? {
        var d := f.destination.value;
        PatternsMatchRoutes(d);
        var r := RouteOf(d);
        if r == AppRoute {
          assert p(Policy[1]);
        } else if r.ChatRoute? && f.kind == Subscribe {
          assert !p(Policy[1]) && p(Policy[2]);
        } else if r.TypingRoute? && f.kind == Subscribe {
          assert !p(Policy[1]) && !p(Policy[2]) && p(Policy[3]);
        } else if r == PresenceRoute && f.kind == Subscribe {
          assert !p(Policy[1]) && !p(Policy[2]) && !p(Policy[3]) && p(Policy[4]);
        } else if r == UserRoute && f.kind == Subscribe {
          assert !p(Policy[1]) && !p(Policy[2]) && !p(Policy[3]) && !p(Policy[4]) && p(Policy[5]);
        } else {
          assert !p(Policy[1]) && !p(Policy[2]) && !p(Policy[3]) && !p(Policy[4]) && !p(Policy[5]);
        }
      } else {
        assert !p(Policy[1]) && !p(Policy[2]) && !p(Policy[3]) && !p(Policy[4]) && !p(Policy[5]);
      }
    }
  }

  /** The first-match table decides every frame exactly as the reference reading does. */
  lemma {:induction false} AuthorizeIsExpected(f: Frame, auth: Option<Authentication>, db: Db)
    ensures Authorize(f, auth, db) == Expected(f, auth, db)
  {
    if f.kind !in LifecycleTypes && f.destination.Some? && f.kind == Subscribe
       && (RouteOf(f.destination.value).ChatRoute? || RouteOf(f.destination.value).TypingRoute?) {
      RoomSubscriptionIsExpected(f, auth, db);
    } else {
      DecidingEntryByRoute(f);
      var i := DecidingEntry(f);
      assert 6 <= i < |Policy| ==> Policy[i].access == DenyAll by {
        assert Policy[6].access == DenyAll && Policy[7].access == DenyAll;
      }
    }
  }

  /** A subscription to a room's chat or typing topic is decided by the room-member entry, with the room the destination names. */
  lemma {:induction false} RoomSubscriptionIsExpected(f: Frame, auth: Option<Authentication>, db: Db)
    requires f.kind == Subscribe && f.destination.Some?
    requires RouteOf(f.destination.value).ChatRoute? || RouteOf(f.destination.value).TypingRoute?
    ensures Authorize(f, auth, db) == Expected(f, auth, db)
  {
    var d := f.destination.value;
    DecidingEntryByRoute(f);
    PatternsMatchRoutes(d);
    if RouteOf(d).ChatRoute? {
      RoomSubscriptionDecidedBy(f, auth, db, 2, ChatPattern, "chat");
    } else {
      RoomSubscriptionDecidedBy(f, auth, db, 3, TypingPattern, "typing");
    }
  }

  /** When entry `i`, a room-member entry with pattern `p`, decides a subscription, the room is the destination's third token. */
  lemma {:induction false} RoomSubscriptionDecidedBy(f: Frame, auth: Option<Authentication>, db: Db, i: nat, p: Pattern, topic: string)
    requires f.destination.Some? && DecidingEntry(f) == i < |Policy|
    requires Policy[i] == Rule(Dest(Some(Subscribe), p), RoomMember)
    requires p == Pattern([Lit("topic"), Lit(topic), Var("roomId")]) && Matches(p, f.destination.value)
    ensures Authorize(f, auth, db) == RoomMemberDecision(db, auth, Some(Tokens(f.destination.value)[2]))
  {
    RoomPatternBindsRoomId(p, topic, f.destination.value);
  }

  // ---------------------------------------------------------------------
  // The policy, rule by rule
  // ---------------------------------------------------------------------

  /** CONNECT, HEARTBEAT, UNSUBSCRIBE and DISCONNECT pass whatever the principal and destination. */
  lemma LifecycleFramesAlwaysAllowed(f: Frame, auth: Option<Authentication>, db: Db)
    requires f.kind in LifecycleTypes
    ensures Authorize(f, auth, db)
  {
    DecidingEntryByRoute(f);
  }

  /** Any non-lifecycle frame to a destination under `/app` passes exactly when authenticated. */
  lemma AppNeedsAuthentication(f: Frame, auth: Option<Authentication>, db: Db)
    requires f.kind !in LifecycleTypes && f.destination.Some? && RouteOf(f.destination.value) == AppRoute
    ensures Authorize(f, auth, db) <==> IsAuthenticated(auth)
  {
    AuthorizeIsExpected(f, auth, db);
  }

  /** A destination `/topic/<kind>` followed by `rest` tokenises to "topic", `kind`, then the tokens of `rest`. */
  lemma {:induction false} TopicTokens(kind: string, rest: string)
    requires |kind| > 0 && '/' !in kind
    requires |rest| == 0 || rest[0] == '/'
    ensures Tokens("/topic/" + kind + rest) == ["topic", kind] + Tokens(rest)
  {
    var tail := "/" + kind + rest;
    assert "/topic/" + kind + rest == "/" + "topic" + tail;
    assert Tokens(tail) == [kind] + Tokens(rest) by {
      TokensOfLeading(kind, rest);
    }
    assert Tokens("/" + "topic" + tail) == ["topic"] + Tokens(tail) by {
      assert '/' !in "topic";
      TokensOfLeading("topic", tail);
    }
  }

  /** The destination of a room's chat or typing topic routes to that room. */
  lemma {:induction false} RoomTopicRoutes(roomId: string)
    requires |roomId| > 0 && '/' !in roomId
    ensures RouteOf(ChatTopic(roomId)) == ChatRoute(roomId)
    ensures RouteOf(TypingTopic(roomId)) == TypingRoute(roomId)
  {
    TokensOfLeading(roomId, "");
    assert "/" + roomId + "" == "/" + roomId;
    TopicTokens("chat", "/" + roomId);
    assert ChatTopic(roomId) == "/topic/" + "chat" + ("/" + roomId);
    TopicTokens("typing", "/" + roomId);
    assert TypingTopic(roomId) == "/topic/" + "typing" + ("/" + roomId);
  }

  /** The path `/a/b` tokenises into its two segments. */
  lemma {:induction false} TwoSegmentTokens(a: string, b: string)
    requires RoutableName(a) && RoutableName(b)
    ensures Tokens("/" + a + "/" + b) == [a, b]
  {
    TokensOfLeading(b, "");
    assert "/" + b + "" == "/" + b;
    TokensOfLeading(a, "/" + b);
    assert "/" + a + ("/" + b) == "/" + a + "/" + b;
  }

  /** The chat topic of a name `a/b` tokenises into four segments. */
  lemma {:induction false} ChatSlashTokens(a: string, b: string)
    requires RoutableName(a) && RoutableName(b)
    ensures Tokens(ChatTopic(a + "/" + b)) == ["topic", "chat", a, b]
  {
    TwoSegmentTokens(a, b);
    TopicTokens("chat", "/" + a + "/" + b);
    assert ChatTopic(a + "/" + b) == "/topic/" + "chat" + ("/" + a + "/" + b);
  }

  /** The typing topic of a name `a/b` tokenises into four segments. */
  lemma {:induction false} TypingSlashTokens(a: string, b: string)
    requires RoutableName(a) && RoutableName(b)
    ensures Tokens(TypingTopic(a + "/" + b)) == ["topic", "typing", a, b]
  {
    TwoSegmentTokens(a, b);
    TopicTokens("typing", "/" + a + "/" + b);
    assert TypingTopic(a + "/" + b) == "/topic/" + "typing" + ("/" + a + "/" + b);
  }

  /** The topics of a name `a/b` route to the room named `a`: `{roomId}` binds the first segment only. */
  lemma SlashNameRoutesToFirstSegment(a: string, b: string)
    requires RoutableName(a) && RoutableName(b)
    ensures RouteOf(ChatTopic(a + "/" + b)) == ChatRoute(a)
    ensures RouteOf(TypingTopic(a + "/" + b)) == TypingRoute(a)
  {
    ChatSlashTokens(a, b);
    TypingSlashTokens(a, b);
  }

  /**
   * As the policy is written, subscribing to the chat topic of a room named
   * `a/b` is decided by membership of the room named `a`, not of `a/b`.
   */
  lemma SlashNameIsDecidedByFirstSegment(a: string, b: string, auth: Option<Authentication>, db: Db)
    requires RoutableName(a) && RoutableName(b)
    ensures Authorize(Frame(Subscribe, Some(ChatTopic(a + "/" + b))), auth, db) <==> RoomMemberDecision(db, auth, Some(a))
    ensures Authorize(Frame(Subscribe, Some(TypingTopic(a + "/" + b))), auth, db) <==> RoomMemberDecision(db, auth, Some(a))
  {
    SlashNameRoutesToFirstSegment(a, b);
    AuthorizeIsExpected(Frame(Subscribe, Some(ChatTopic(a + "/" + b))), auth, db);
    AuthorizeIsExpected(Frame(Subscribe, Some(TypingTopic(a + "/" + b))), auth, db);
  }

  /**
   * Subscribing to `/topic/chat/<roomId>` or `/topic/typing/<roomId>` passes
   * exactly when there is an authenticated, non-"anonymousUser" principal and
   * its name belongs to the room NAMED `roomId`, in the state at that moment.
   */
  lemma RoomTopicSubscription(roomId: string, auth: Option<Authentication>, db: Db)
    requires RoutableName(roomId)
    ensures var granted := auth.Some? && auth.value.authenticated
                           && auth.value.principal != StringObject("anonymousUser")
                           && IsUserMemberOfRoom(db, auth.value.name, Some(roomId));
            && (Authorize(Frame(Subscribe, Some(ChatTopic(roomId))), auth, db) <==> granted)
            && (Authorize(Frame(Subscribe, Some(TypingTopic(roomId))), auth, db) <==> granted)
  {
    RoomTopicRoutes(roomId);
    AuthorizeIsExpected(Frame(Subscribe, Some(ChatTopic(roomId))), auth, db);
    AuthorizeIsExpected(Frame(Subscribe, Some(TypingTopic(roomId))), auth, db);
  }

  /** A null, unauthenticated or "anonymousUser" principal never subscribes to a room topic, member or not. */
  lemma RoomTopicRefusesAnonymous(f: Frame, auth: Option<Authentication>, db: Db)
    requires f.destination.Some? && (RouteOf(f.destination.value).ChatRoute? || RouteOf(f.destination.value).TypingRoute?)
    requires auth.None? || !auth.value.authenticated || auth.value.principal == StringObject("anonymousUser")
    ensures !Authorize(f, auth, db) || f.kind in LifecycleTypes
  {
    AuthorizeIsExpected(f, auth, db);
  }

  /** Every presence topic, whatever the room name, needs authentication only. */
  lemma {:induction false} PresenceNeedsAuthenticationOnly(roomName: string, auth: Option<Authentication>, db: Db)
    ensures Authorize(Frame(Subscribe, Some(PresenceTopic(roomName))), auth, db) <==> IsAuthenticated(auth)
  {
    TopicTokens("presence", "/" + roomName);
    assert PresenceTopic(roomName) == "/topic/" + "presence" + ("/" + roomName);
    AuthorizeIsExpected(Frame(Subscribe, Some(PresenceTopic(roomName))), auth, db);
  }

  /** Every destination under `/user` needs authentication only. */
  lemma {:induction false} UserQueueNeedsAuthenticationOnly(rest: string, auth: Option<Authentication>, db: Db)
    requires |rest| == 0 || rest[0] == '/'
    ensures Authorize(Frame(Subscribe, Some("/user" + rest)), auth, db) <==> IsAuthenticated(auth)
  {
    TokensOfLeading("user", rest);
    assert "/user" + rest == "/" + "user" + rest;
    AuthorizeIsExpected(Frame(Subscribe, Some("/user" + rest)), auth, db);
  }

  /**
   * Everything the table does not grant is refused: a frame without a
   * destination or with an unrouted one, and any MESSAGE outside `/app`.
   */
  lemma EverythingElseDenied(f: Frame, auth: Option<Authentication>, db: Db)
    requires f.kind !in LifecycleTypes
    requires f.destination.None? || RouteOf(f.destination.value) == Unrouted
             || (f.kind != Subscribe && RouteOf(f.destination.value) != AppRoute)
    ensures !Authorize(f, auth, db)
  {
    AuthorizeIsExpected(f, auth, db);
  }
}
