/** Channel authorization: which authenticated user may subscribe to which
    broadcast channel, and the member data of the presence channel. */
module Channels {
  import opened Basics
  import opened Decimal
  import opened GroupModel
  import opened Events

  datatype Authorization =
    | Denied
    | Granted
    | PresenceMember(id: UserId, name: string)  // admitted, with this member data

  predicate HasPrefix(s: string, p: string) {
    |p| <= |s| && s[..|p|] == p
  }

  /** The text a `{param}` placeholder matches: non-empty, without a dot. */
  predicate IsParam(s: string) {
    s != [] && '.' !in s
  }

  /** `chat.{userId}`: the integer casts of the two ids are equal. */
  function ChatAuthorized(actor: User, userId: string): (r: bool)
    ensures AllDigits(userId) ==> (r <==> DigitsValue(userId) == actor.id)
    ensures userId == NatToDecimal(actor.id) ==> r
  {
    assert userId == NatToDecimal(actor.id) ==> PhpIntCast(userId) == actor.id by {
      if userId == NatToDecimal(actor.id) {
        CastOfDecimal(actor.id);
      }
    }
    actor.id as int == PhpIntCast(userId)
  }

  /** `Group::find($groupId)`: the key is compared with the integer id
      column in SQL, so a run of digits finds the group whose id is its
      value, leading zeros included. Any other spelling finds no group. */
  function FindGroupByKey(groups: seq<Group>, key: string): (r: Option<Group>)
    ensures r.Some? ==> r.value in groups && key != [] && AllDigits(key) && r.value.id == DigitsValue(key)
    ensures key != [] && AllDigits(key) && GroupExists(groups, DigitsValue(key)) ==> r.Some?
  {
    if key != [] && AllDigits(key) then FindGroup(groups, DigitsValue(key)) else None
  }

  /** `group.{groupId}`: the group exists and the user is a member of it. */
  function GroupAuthorized(actor: User, groupId: string, groups: seq<Group>, ms: Memberships): (r: bool)
    ensures r <==> (groupId != [] && AllDigits(groupId) &&
                    GroupExists(groups, DigitsValue(groupId)) && IsMember(ms, DigitsValue(groupId), actor.id))
  {
    var g := FindGroupByKey(groups, groupId);
    g.Some? && IsMember(ms, g.value.id, actor.id)
  }

  /** The authorization of `actor` on the channel named `channel`, by the
      first registered pattern the name matches. */
  function Authorize(actor: User, channel: string, groups: seq<Group>, ms: Memberships): (r: Authorization)
    ensures r.PresenceMember? <==> channel == "presence.chat"
    ensures r.PresenceMember? ==> r == PresenceMember(actor.id, actor.name)
    ensures r == Granted ==>
      (HasPrefix(channel, "chat.") && ChatAuthorized(actor, channel[5..])) ||
      (HasPrefix(channel, "group.") && GroupAuthorized(actor, channel[6..], groups, ms))
    ensures HasPrefix(channel, "chat.") && IsParam(channel[5..]) ==>
      (r == Granted <==> ChatAuthorized(actor, channel[5..]))
    ensures HasPrefix(channel, "group.") && IsParam(channel[6..]) ==>
      (r == Granted <==> GroupAuthorized(actor, channel[6..], groups, ms))
  {
    assert HasPrefix(channel, "chat.") || HasPrefix(channel, "group.") ==> channel != "presence.chat" by {
      if HasPrefix(channel, "chat.") || HasPrefix(channel, "group.") {
        assert channel[0] != "presence.chat"[0];
      }
    }
    assert HasPrefix(channel, "group.") ==> !HasPrefix(channel, "chat.") by {
      if HasPrefix(channel, "group.") {
        assert channel[0] != "chat."[0];
      }
    }
    if channel == "presence.chat" then PresenceMember(actor.id, actor.name)
    else if HasPrefix(channel, "chat.") && IsParam(channel[5..]) then
      (if ChatAuthorized(actor, channel[5..]) then Granted else Denied)
    else if HasPrefix(channel, "group.") && IsParam(channel[6..]) then
      (if GroupAuthorized(actor, channel[6..], groups, ms) then Granted else Denied)
    else Denied
  }

  /** Every authenticated user joins the presence channel, sharing exactly
      their id and name. */
  lemma PresenceAdmitsEveryone(actor: User, groups: seq<Group>, ms: Memberships)
    ensures Authorize(actor, "presence.chat", groups, ms) == PresenceMember(actor.id, actor.name)
  {
  }

  /** Only user `u` may subscribe to `chat.u`. */
  lemma ChatChannelOwner(actor: User, u: UserId, groups: seq<Group>, ms: Memberships)
    ensures Authorize(actor, ChatChannelName(u), groups, ms) == Granted <==> actor.id == u
    ensures Authorize(actor, ChatChannelName(u), groups, ms) != Granted ==>
      Authorize(actor, ChatChannelName(u), groups, ms) == Denied
  {
    var c := ChatChannelName(u);
    assert c[5..] == NatToDecimal(u);
    assert c[..5] == "chat.";
    assert c != "presence.chat" by { assert c[0] != "presence.chat"[0]; }
    CastOfDecimal(u);
  }

  /** The cast admits zero-padded spellings of the actor's own id. */
  lemma ChatChannelZeroPadded(actor: User, groups: seq<Group>, ms: Memberships)
    ensures Authorize(actor, "chat.0" + NatToDecimal(actor.id), groups, ms) == Granted
  {
    var c := "chat.0" + NatToDecimal(actor.id);
    assert c[5..] == "0" + NatToDecimal(actor.id);
    assert c[..5] == "chat.";
    assert c != "presence.chat" by { assert c[0] != "presence.chat"[0]; }
    CastIgnoresLeadingZeros(actor.id);
  }

  /** Only members of an existing group may subscribe to its channel; when
      no group has the id, nobody may. */
  lemma GroupChannelMembers(actor: User, g: GroupId, groups: seq<Group>, ms: Memberships)
    ensures Authorize(actor, GroupChannelName(g), groups, ms) == Granted <==>
      GroupExists(groups, g) && IsMember(ms, g, actor.id)
    ensures !GroupExists(groups, g) ==> Authorize(actor, GroupChannelName(g), groups, ms) == Denied
  {
    var c := GroupChannelName(g);
    assert c[6..] == NatToDecimal(g);
    assert c[..6] == "group.";
    assert c != "presence.chat" by { assert c[0] != "presence.chat"[0]; }
    assert !HasPrefix(c, "chat.") by { assert c[0] != "chat."[0]; }
    DecimalValue(g);
  }

  /** As for the user channel, a zero-padded spelling of a group's id
      names the same group: its members may subscribe to it. */
  lemma GroupChannelZeroPadded(actor: User, g: GroupId, groups: seq<Group>, ms: Memberships)
    ensures Authorize(actor, "group.0" + NatToDecimal(g), groups, ms) == Granted <==>
      GroupExists(groups, g) && IsMember(ms, g, actor.id)
  {
    var key := "0" + NatToDecimal(g);
    assert AllDigits(key) && DigitsValue(key) == g by {
      ZeroPrefix(NatToDecimal(g));
      DecimalValue(g);
    }
    var c := "group.0" + NatToDecimal(g);
    assert c == "group." + key;
    assert HasPrefix(c, "group.") && c[6..] == key;
  }

  /** Delivery notices reach only the sender of the message: nobody else is
      granted the channel they are broadcast on. */
  lemma DeliveryNoticeOnlyToSender(actor: User, m: DirectMessages.DirectMessage, groups: seq<Group>, ms: Memberships)
    ensures Authorize(actor, MessageDeliveredOn(m).name, groups, ms) == Granted <==> actor.id == m.senderId
  {
    ChatChannelOwner(actor, m.senderId, groups, ms);
  }
}
