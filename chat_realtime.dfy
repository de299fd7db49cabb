/** The realtime side of a one-to-one chat page (`useChatRealtime`): the
    throttled typing whisper, the online status derived from the presence
    channel, and the filters on what arrives on the user's private
    channel. */
module ChatRealtime {
  import opened Basics
  import opened Decimal
  import opened Events
  import opened ClientMessages
  import opened Channels

  /** Minimum gap, in milliseconds, between two keystrokes that both
      whisper. */
  const TypingThrottle := 1000

  /** A scalar field of a received payload: ids arrive as numbers, but a
      database driver may also deliver them as strings. */
  datatype Scalar = Num(n: int) | Str(s: string)

  /** `r` is `s` with a blank prefix and a blank suffix cut off. */
  predicate Infix(s: string, r: string) {
    exists i, k :: 0 <= i <= k <= |s| && r == s[i..k] && Blank(s[..i]) && Blank(s[k..])
  }

  lemma InfixAfterBlank(s: string, r: string)
    requires s != [] && IsJsWhitespace(s[0]) && Infix(s[1..], r)
    ensures Infix(s, r)
  {
    var i, k :| 0 <= i <= k <= |s[1..]| && r == s[1..][i..k] && Blank(s[1..][..i]) && Blank(s[1..][k..]);
    assert s[1..][i..k] == s[i + 1..k + 1];
    assert s[..i + 1] == [s[0]] + s[1..][..i];
    assert s[k + 1..] == s[1..][k..];
  }

  lemma InfixBeforeBlank(s: string, r: string)
    requires s != [] && IsJsWhitespace(s[|s| - 1]) && Infix(s[..|s| - 1], r)
    ensures Infix(s, r)
  {
    var t := s[..|s| - 1];
    var i, k :| 0 <= i <= k <= |t| && r == t[i..k] && Blank(t[..i]) && Blank(t[k..]);
    assert t[i..k] == s[i..k];
    assert s[..i] == t[..i];
    assert s[k..] == t[k..] + [s[|s| - 1]];
  }

  /** `String.prototype.trim`: `s` without its leading and trailing white
      space, and nothing else removed. */
  function TrimJs(s: string): (r: string)
    ensures |r| <= |s|
    ensures r == [] || (!IsJsWhitespace(r[0]) && !IsJsWhitespace(r[|r| - 1]))
    ensures Blank(s) <==> r == []
    ensures Infix(s, r)
  {
    if s == [] then
      assert s[0..0] == [] && s[..0] == [] && s[0..] == [];
      []
    else if IsJsWhitespace(s[0]) then
      var r := TrimJs(s[1..]);
      InfixAfterBlank(s, r);
      r
    else if IsJsWhitespace(s[|s| - 1]) then
      var r := TrimJs(s[..|s| - 1]);
      InfixBeforeBlank(s, r);
      r
    else
      assert s == s[0..|s|] && s[..0] == [] && s[|s|..] == [];
      s
  }

  /** The number a string converts to, for the forms the model covers: an
      empty or blank string is 0, a run of decimal digits is its value.
      None stands for every other form. */
  function StringToNumber(s: string): (r: Option<int>)
    ensures Blank(s) ==> r == Some(0)
    ensures s != [] && AllDigits(s) ==> r == Some(DigitsValue(s))
  {
    var t := TrimJs(s);
    if t == [] then Some(0) else if AllDigits(t) then Some(DigitsValue(t)) else None
  }

  /** `x === n` for a number `n`. */
  predicate StrictEquals(x: Scalar, n: int)
    ensures StrictEquals(x, n) ==> x.Num?
  {
    x == Num(n)
  }

  /** `x == n` for a number `n`: a string is converted to a number first. */
  predicate LooseEquals(x: Scalar, n: int)
    ensures StrictEquals(x, n) ==> LooseEquals(x, n)
    ensures x.Str? && x.s != [] && AllDigits(x.s) ==> (LooseEquals(x, n) <==> DigitsValue(x.s) == n)
  {
    match x
    case Num(m) => m == n
    case Str(s) => StringToNumber(s) == Some(n)
  }

  /** A string id passes the loose test of MessageSent but not the strict
      test of the typing whisper. */
  lemma StringIdPassesOnlyLooseTest(u: UserId)
    ensures LooseEquals(Str(NatToDecimal(u)), u)
    ensures !StrictEquals(Str(NatToDecimal(u)), u)
  {
    var s := NatToDecimal(u);
    assert !IsJsWhitespace(s[0]) && !IsJsWhitespace(s[|s| - 1]);
    assert TrimJs(s) == s;
    DecimalValue(u);
  }

  /** The whisper a keystroke sends: the client event `typing` on the other
      user's private chat channel. */
  datatype Whisper = Whisper(channel: Channel, senderId: UserId, receiverId: UserId)

  /** `sendTypingEvent`: within the throttle window no whisper goes out;
      in both cases the returned timestamp is the current time. */
  function SendTypingEvent(now: int, lastTypedAt: int, user: UserId, auth: UserId): (r: (int, Option<Whisper>))
    ensures r.0 == now
    ensures r.1.None? <==> now - lastTypedAt < TypingThrottle
    ensures r.1.Some? ==> r.1.value == Whisper(PrivateChannel(ChatChannelName(user)), auth, user)
  {
    if now - lastTypedAt < TypingThrottle then (now, None)
    else (now, Some(Whisper(PrivateChannel(ChatChannelName(user)), auth, user)))
  }

  /** What arrives on the private channel of the page's own user. */
  datatype Incoming =
    | MessageSentEvent(senderId: Scalar)
    | TypingWhisper(senderId: Scalar, receiverId: Scalar)
    | MessageDeliveredEvent
    | MessageReadEvent

  /** Whether the page passes an arrival on to its handler: a new message
      only from the other user (loose comparison), a typing whisper only
      from the other user to this one (strict comparisons), delivery and
      read notices always. */
  predicate Forwards(e: Incoming, user: UserId, auth: UserId)
    ensures e.MessageDeliveredEvent? || e.MessageReadEvent? ==> Forwards(e, user, auth)
    ensures e.MessageSentEvent? ==> (Forwards(e, user, auth) <==> LooseEquals(e.senderId, user))
    ensures e.TypingWhisper? ==> (Forwards(e, user, auth) <==> e.senderId == Num(user) && e.receiverId == Num(auth))
  {
    match e
    case MessageSentEvent(sender) => LooseEquals(sender, user)
    case TypingWhisper(sender, receiver) => StrictEquals(sender, user) && StrictEquals(receiver, auth)
    case MessageDeliveredEvent => true
    case MessageReadEvent => true
  }

  /** A whisper from the page of `auth`, talking to `user`, goes to the
      channel the page of `user` listens on, and that page, talking to
      `auth`, forwards it; a page talking to anybody else drops it. */
  lemma WhisperReachesPeer(now: int, lastTypedAt: int, user: UserId, auth: UserId, other: UserId)
    requires now - lastTypedAt >= TypingThrottle
    ensures var w := SendTypingEvent(now, lastTypedAt, user, auth).1.value;
      w.channel == PrivateChannel(ChatChannelName(user)) &&
      Forwards(TypingWhisper(Num(w.senderId), Num(w.receiverId)), auth, user) &&
      (other != auth ==> !Forwards(TypingWhisper(Num(w.senderId), Num(w.receiverId)), other, user))
  {
  }

  /** The whisper goes out on the other user's private channel, and the
      channel authorization grants that channel to the other user alone:
      the whispering page is refused the subscription on which it would
      send the client event. */
  lemma WhisperChannelDeniedToSender(now: int, lastTypedAt: int, user: UserId, sender: User,
                                     groups: seq<Group>, ms: GroupModel.Memberships)
    requires now - lastTypedAt >= TypingThrottle && sender.id != user
    ensures Authorize(sender, SendTypingEvent(now, lastTypedAt, user, sender.id).1.value.channel.name, groups, ms) == Denied
  {
    ChatChannelOwner(sender, user, groups, ms);
  }

  /** Keystrokes at the given times, each call's result stored as the next
      call's `lastTypedAt`: the number of whispers sent. */
  function WhisperCount(times: seq<int>, lastTypedAt: int, user: UserId, auth: UserId): nat {
    if times == [] then 0
    else
      var r := SendTypingEvent(times[0], lastTypedAt, user, auth);
      (if r.1.Some? then 1 else 0) + WhisperCount(times[1..], r.0, user, auth)
  }

  /** Because a throttled call also advances the stored timestamp, steady
      typing with keystrokes less than a second apart whispers at most
      once, at the first keystroke. */
  lemma {:induction false} SteadyTypingWhispersOnce(times: seq<int>, lastTypedAt: int, user: UserId, auth: UserId)
    requires forall i :: 0 < i < |times| ==> times[i] - times[i - 1] < TypingThrottle
    ensures WhisperCount(times, lastTypedAt, user, auth) <= 1
    ensures times != [] ==> WhisperCount(times[1..], times[0], user, auth) == 0
  {
    if times != [] {
      StaysQuiet(times[1..], times[0], user, auth);
    }
  }

  lemma {:induction false} StaysQuiet(times: seq<int>, lastTypedAt: int, user: UserId, auth: UserId)
    requires times != [] ==> times[0] - lastTypedAt < TypingThrottle
    requires forall i :: 0 < i < |times| ==> times[i] - times[i - 1] < TypingThrottle
    ensures WhisperCount(times, lastTypedAt, user, auth) == 0
  {
    if times != [] {
      StaysQuiet(times[1..], times[0], user, auth);
    }
  }

  /** The presence channel's callbacks. */
  datatype PresenceEvent = Here(present: seq<UserId>) | Joining(id: UserId) | Leaving(id: UserId)

  /** The `checkUserStatus` call a callback makes, if any: `here` reports
      whether the other user is among those present, `joining` and
      `leaving` report only about the other user. */
  function Report(e: PresenceEvent, user: UserId): (r: Option<bool>)
    ensures e.Here? ==> r == Some(user in e.present)
    ensures !e.Here? ==> (r.Some? <==> e.id == user)
    ensures r.Some? && e.Joining? ==> r.value
    ensures r.Some? && e.Leaving? ==> !r.value
  {
    match e
    case Here(present) => Some(user in present)
    case Joining(id) => if id == user then Some(true) else None
    case Leaving(id) => if id == user then Some(false) else None
  }

  /** The status shown after the callbacks: each report replaces it. */
  function Online(status: bool, events: seq<PresenceEvent>, user: UserId): bool
    decreases events
  {
    if events == [] then status
    else
      var r := Report(events[0], user);
      Online(if r.Some? then r.value else status, events[1..], user)
  }

  /** Who is on the presence channel after the callbacks. */
  function Members(present: set<UserId>, events: seq<PresenceEvent>): set<UserId>
    decreases events
  {
    if events == [] then present
    else
      var next := match events[0]
        case Here(p) => set u | u in p
        case Joining(id) => present + {id}
        case Leaving(id) => present - {id};
      Members(next, events[1..])
  }

  /** The shown status tracks presence: once it agrees with the channel's
      membership, it keeps agreeing through any sequence of callbacks. */
  lemma {:induction false} OnlineTracksPresence(status: bool, present: set<UserId>, events: seq<PresenceEvent>, user: UserId)
    requires status <==> user in present
    ensures Online(status, events, user) <==> user in Members(present, events)
    decreases events
  {
    if events != [] {
      var r := Report(events[0], user);
      var next := match events[0]
        case Here(p) => set u | u in p
        case Joining(id) => present + {id}
        case Leaving(id) => present - {id};
      OnlineTracksPresence(if r.Some? then r.value else status, next, events[1..], user);
    }
  }
}
